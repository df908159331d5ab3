/**
 The flag-set reconciliation of the `flag_check` test: which CPU flags a guest
 booted with `-cpu <model>,<extra flags>` is expected to show, and how that
 expectation is compared with the flags the guest reports.

 Flags are plain strings; every input the test obtains from the host, the
 guest, the dump file or the hypervisor process is a parameter (`Params`).
 */
module FlagCheck {
  import opened Wrappers
  import opened Text

  type Flag = string

  // ---------------------------------------------------------------------------
  // Choosing the baseline model and reading its flags from the dump file.
  // ---------------------------------------------------------------------------

  /** `qemu_model_info`: the first dump-file chunk naming `cpuModel`, or `None`. */
  function ModelInfo(models: seq<string>, cpuModel: string): (r: Option<string>)
    ensures r.None? <==> forall i :: 0 <= i < |models| ==> !Contains(models[i], cpuModel)
    ensures r.Some? ==>
      exists i :: 0 <= i < |models| && models[i] == r.value && Contains(models[i], cpuModel)
        && forall j :: 0 <= j < i ==> !Contains(models[j], cpuModel)
  {
    if |models| == 0 then None
    else if Contains(models[0], cpuModel) then
      Some(models[0])
    else
      var r := ModelInfo(models[1..], cpuModel);
      assert forall i :: 0 < i < |models| ==> models[i] == models[1..][i - 1];
      r
  }

  /**
   The model whose dump-file entry gives the baseline flags: the guest's model
   when the host can run it, otherwise the host's first model; `None` when the
   host lists no model at all (the script then fails on `host_cpumodel[0]`).
   */
  function QemuModel(guestModel: string, hostModels: seq<string>): (r: Option<string>)
    ensures r.None? <==> |hostModels| == 0
    ensures r.Some? ==> r.value in hostModels
    ensures guestModel in hostModels ==> r == Some(guestModel)
    ensures guestModel !in hostModels && |hostModels| > 0 ==> r == Some(hostModels[0])
  {
    if guestModel !in hostModels then
      if |hostModels| == 0 then None else Some(hostModels[0])
    else
      Some(guestModel)
  }

  /** The words of one register's flag list; `supportFlag` stands for `qemu_support_flag`. */
  function RegWords(info: string, reg: string, supportFlag: (string, string) -> Option<string>): seq<Flag> {
    match supportFlag(info, reg)
    case Some(text) => Split(text)
    case None => []
  }

  /** The text `model_support_flags` accumulates: `acc`, then " <flags>" per register with non-empty flags. */
  function AppendRegFlags(acc: string, info: string, regs: seq<string>,
                          supportFlag: (string, string) -> Option<string>): string
    decreases |regs|
  {
    if |regs| == 0 then acc
    else
      var found := supportFlag(info, regs[0]);
      var acc' := if found.Some? && found.value != "" then acc + " " + found.value else acc;
      AppendRegFlags(acc', info, regs[1..], supportFlag)
  }

  /** The accumulated text holds exactly the words of `acc` and of every register's flags. */
  lemma {:induction false} AppendRegFlagsWords(acc: string, info: string, regs: seq<string>,
                                               supportFlag: (string, string) -> Option<string>)
    ensures forall w :: w in Split(AppendRegFlags(acc, info, regs, supportFlag)) <==>
      w in Split(acc) || exists k :: 0 <= k < |regs| && w in RegWords(info, regs[k], supportFlag)
    decreases |regs|
  {
    if |regs| > 0 {
      var found := supportFlag(info, regs[0]);
      var acc' := if found.Some? && found.value != "" then acc + " " + found.value else acc;
      if found.Some? && found.value != "" {
        SplitAcrossBlank(acc, found.value);
      }
      assert forall w :: w in Split(acc') <==> w in Split(acc) || w in RegWords(info, regs[0], supportFlag);
      AppendRegFlagsWords(acc', info, regs[1..], supportFlag);
      forall w
        ensures (exists k :: 0 <= k < |regs| && w in RegWords(info, regs[k], supportFlag)) <==>
          w in RegWords(info, regs[0], supportFlag) ||
          exists k :: 0 <= k < |regs[1..]| && w in RegWords(info, regs[1..][k], supportFlag)
      {
        if k :| 0 <= k < |regs| && w in RegWords(info, regs[k], supportFlag) {
          if k > 0 {
            assert regs[1..][k - 1] == regs[k];
          }
        }
        if k :| 0 <= k < |regs[1..]| && w in RegWords(info, regs[1..][k], supportFlag) {
          assert regs[k + 1] == regs[1..][k];
        }
      }
    }
  }

  /**
   `model_support_flags`: the flags the baseline model's dump entry lists over
   all registers of `regs`. An absent or empty entry contributes nothing.
   */
  function ModelSupportFlags(info: Option<string>, regs: seq<string>,
                             supportFlag: (string, string) -> Option<string>): (r: set<Flag>)
    ensures forall f :: f in r ==> IsToken(f)
    ensures forall f :: f in r <==>
      info.Some? && info.value != "" &&
      exists k :: 0 <= k < |regs| && f in RegWords(info.value, regs[k], supportFlag)
  {
    if info.Some? && info.value != "" then
      var words := Split(AppendRegFlags(" ", info.value, regs, supportFlag));
      AppendRegFlagsWords(" ", info.value, regs, supportFlag);
      assert Split(" ") == [];
      set w | w in words
    else
      {}
  }

  // ---------------------------------------------------------------------------
  // Flags requested on the command line.
  // ---------------------------------------------------------------------------

  /** The loop of `get_extra_flag`: every token when `lackCheck`, else those the host supports. */
  function KeepFlags(tokens: seq<Flag>, lackCheck: bool, hostFlags: seq<Flag>): (r: set<Flag>)
    ensures forall f :: f in r <==> f in tokens && (lackCheck || f in hostFlags)
    decreases |tokens|
  {
    if |tokens| == 0 then {}
    else
      var rest := KeepFlags(tokens[1..], lackCheck, hostFlags);
      assert forall f :: f in tokens <==> f == tokens[0] || f in tokens[1..];
      if lackCheck || tokens[0] in hostFlags then {tokens[0]} + rest else rest
  }

  /** `get_extra_flag(extra_flags, sym + r"(\w+)", lackCheck)`. */
  function ExtraFlags(extra: string, sym: char, lackCheck: bool, hostFlags: seq<Flag>): (r: set<Flag>)
    ensures forall f :: f in r <==> f in FindAll(extra, sym) && (lackCheck || f in hostFlags)
    ensures forall f :: f in r ==> IsWord(f) && Contains(extra, [sym] + f)
  {
    KeepFlags(FindAll(extra, sym), lackCheck, hostFlags)
  }

  /** Filtering by host support keeps only host flags, and never adds to the unfiltered set. */
  lemma FilteredExtraFlags(extra: string, sym: char, hostFlags: seq<Flag>)
    ensures forall f :: f in ExtraFlags(extra, sym, false, hostFlags) ==> f in hostFlags
    ensures ExtraFlags(extra, sym, false, hostFlags) ==
      ExtraFlags(extra, sym, true, hostFlags) * (set f | f in hostFlags)
  {
  }

  /** `\w` stops at a dot: "+sse4.1" requests the flag "sse4". */
  lemma DottedFlagIsTruncated()
    ensures FindAll("+sse4.1", '+') == ["sse4"]
  {
    assert "+sse4.1" == ['+'] + "sse4" + ".1";
    FindAllMatch('+', "sse4", ".1");
    FindAllSkip('+', '.', "1");
  }

  /** In `+head-tail` the `-` pattern matches `tail`. */
  lemma HyphenMinusMatch(head: string, tail: string)
    requires IsWord(head) && IsWord(tail)
    ensures FindAll("+" + head + "-" + tail, '-') == [tail]
  {
    assert "+" + head + "-" + tail == ("+" + head) + (['-'] + tail + "");
    FindAllSkipPrefix('-', "+" + head, ['-'] + tail + "");
    FindAllMatch('-', tail, "");
  }

  /** In `+head-tail` the `+` pattern matches `head` only. */
  lemma HyphenPlusMatch(head: string, tail: string)
    requires IsWord(head) && IsWord(tail)
    ensures FindAll("+" + head + "-" + tail, '+') == [head]
  {
    assert "+" + head + "-" + tail == ['+'] + head + ("-" + tail);
    FindAllMatch('+', head, "-" + tail);
    assert "-" + tail == "-" + tail + "";
    FindAllSkipPrefix('+', "-" + tail, "");
  }

  /**
   A hyphen inside a requested flag name reads as a removal request: with
   "+tsc-deadline" the flag "deadline" is removed whenever the host has it,
   and "tsc" is added whenever the host has it.
   */
  lemma HyphenatedFlagReadsAsRemoval(head: string, tail: string, hostFlags: seq<Flag>)
    requires IsWord(head) && IsWord(tail)
    ensures FindAll("+" + head + "-" + tail, '-') == [tail]
    ensures FindAll("+" + head + "-" + tail, '+') == [head]
    ensures ExtraFlags("+" + head + "-" + tail, '-', false, hostFlags) ==
      (if tail in hostFlags then {tail} else {})
    ensures ExtraFlags("+" + head + "-" + tail, '+', false, hostFlags) ==
      (if head in hostFlags then {head} else {})
  {
    HyphenMinusMatch(head, tail);
    HyphenPlusMatch(head, tail);
  }

  /** Flags written in the list `+w0,+w1,…` are exactly the unfiltered `+` flags. */
  lemma RequestedFlagsRoundTrip(ws: seq<string>, hostFlags: seq<Flag>)
    requires forall i :: 0 <= i < |ws| ==> IsWord(ws[i])
    ensures ExtraFlags(Flags(ws, '+'), '+', true, hostFlags) == set w | w in ws
  {
    FindAllFlags(ws, '+');
  }

  // ---------------------------------------------------------------------------
  // The expected flags and the host's lacking flags.
  // ---------------------------------------------------------------------------

  /** `expected_flags`: model or added flags, minus deleted and out flags. */
  function ExpectedFlags(model: set<Flag>, add: set<Flag>, del: set<Flag>, out: set<Flag>): (r: set<Flag>)
    ensures forall f :: f in r <==> (f in model || f in add) && f !in del && f !in out
  {
    (model + add) - del - out
  }

  /** `option_flags`: `up` joins the configured list for a one-CPU guest, once. */
  function OptionFlags(configured: seq<Flag>, smp: string): (r: seq<Flag>)
    ensures |configured| <= |r| <= |configured| + 1 && r[..|configured|] == configured
    ensures smp == "1" ==> "up" in r
    ensures forall f :: f in r ==> f in configured || f == "up"
    ensures "up" in configured || smp != "1" ==> r == configured
  {
    if smp == "1" && "up" !in configured then configured + ["up"] else configured
  }

  /** `lack_flags`: flags expected or requested with `+` that the host does not have. */
  function LackFlags(expected: set<Flag>, check: set<Flag>, hostFlags: seq<Flag>): (r: set<Flag>)
    ensures forall f :: f in r <==> (f in expected || f in check) && f !in hostFlags
  {
    (expected + check) - (set f | f in hostFlags)
  }

  /** The words of every flag in `flags`: `extend(flag.split())` over all of them. */
  function SplitWords(flags: set<Flag>): (r: set<Flag>)
    ensures forall w :: w in r ==> IsToken(w)
    ensures forall f :: f in flags && IsToken(f) ==> f in r
  {
    assert forall f :: f in flags && IsToken(f) ==> f in Split(f) by {
      forall f | f in flags && IsToken(f) ensures f in Split(f) {
        SplitToken(f);
      }
    }
    set f, w | f in flags && w in Split(f) :: w
  }

  /** The collected words are exactly the words of the flags, and nothing else. */
  lemma SplitWordsExact(flags: set<Flag>)
    ensures forall w :: w in SplitWords(flags) <==> exists f :: f in flags && w in Split(f)
  {
  }

  /** Splitting flags that are single words gives back the same flags. */
  lemma SplitWordsOfTokens(flags: set<Flag>)
    ensures (forall f :: f in flags ==> IsToken(f)) ==> SplitWords(flags) == flags
  {
    if forall f :: f in flags ==> IsToken(f) {
      WordsComeFromTokens(flags);
      TokensAreWords(flags);
    }
  }

  /** Every collected word of single-word flags is one of them. */
  lemma WordsComeFromTokens(flags: set<Flag>)
    requires forall f :: f in flags ==> IsToken(f)
    ensures SplitWords(flags) <= flags
  {
    forall w | w in SplitWords(flags) ensures w in flags {
      var f :| f in flags && w in Split(f);
      OnlyWordOfToken(f, w);
    }
  }

  /** Every single-word flag is collected. */
  lemma TokensAreWords(flags: set<Flag>)
    requires forall f :: f in flags ==> IsToken(f)
    ensures flags <= SplitWords(flags)
  {
    forall f | f in flags ensures f in SplitWords(flags) {
      SplitToken(f);
    }
  }

  /** A whitespace-free flag splits into itself alone. */
  lemma OnlyWordOfToken(f: Flag, w: Flag)
    requires IsToken(f) && w in Split(f)
    ensures w == f
  {
    SplitToken(f);
  }

  /**
   `miss_warn`: the words of every lacking flag the hypervisor's output does not
   mention. For whitespace-free flags these are those flags themselves.
   */
  function LackWarnings(lack: set<Flag>, output: string): (r: set<Flag>)
    ensures (forall f :: f in lack ==> IsToken(f)) ==>
      forall f :: f in r <==> f in lack && !Contains(output, f)
  {
    var unmentioned := set f | f in lack && !Contains(output, f);
    SplitWordsOfTokens(unmentioned);
    SplitWords(unmentioned)
  }

  /** Some warning is missing exactly when some single-word lacking flag goes unmentioned. */
  lemma WarningsIffUnmentioned(lack: set<Flag>, output: string)
    requires forall f :: f in lack ==> IsToken(f)
    ensures LackWarnings(lack, output) != {} <==> exists f :: f in lack && !Contains(output, f)
  {
    var warned := LackWarnings(lack, output);
    if f :| f in lack && !Contains(output, f) {
      assert f in warned;
    }
  }

  // ---------------------------------------------------------------------------
  // Comparing with the guest.
  // ---------------------------------------------------------------------------

  /**
   `get_all_support_flags` as written: `flags += flag` extends the list with
   the CHARACTERS of each captured group, so the set holds one-letter strings.
   */
  function AllSupportFlagsAsWritten(groups: seq<string>): (r: set<Flag>)
    ensures forall f :: f in r ==> |f| == 1
    ensures forall f :: f in r ==> exists g, c :: g in groups && c in g && f == [c]
    ensures forall i, k :: 0 <= i < |groups| && 0 <= k < |groups[i]| ==> [groups[i][k]] in r
  {
    assert forall i, k :: 0 <= i < |groups| && 0 <= k < |groups[i]| ==>
      groups[i] in groups && groups[i][k] in groups[i];
    set g, c | g in groups && c in g :: [c]
  }

  /** `get_all_support_flags` as intended: the flag words of each captured group. */
  function AllSupportFlags(groups: seq<string>): (r: set<Flag>)
    ensures forall f :: f in r ==> IsToken(f)
    ensures forall f :: f in r <==> exists i :: 0 <= i < |groups| && f in Split(groups[i])
  {
    set g, w | g in groups && w in Split(g) :: w
  }

  /** `missing_flags`: expected flags the guest does not show. */
  function MissingFlags(expected: set<Flag>, guest: set<Flag>): (r: set<Flag>)
    ensures r <= expected && r !! guest
    ensures forall f :: f in expected && f !in guest ==> f in r
    ensures r == {} <==> expected <= guest
  {
    EmptyDifference(expected, guest);
    expected - guest
  }

  /** `unexpect_flags`: guest flags neither expected, nor supported by the hypervisor, nor optional. */
  function UnexpectedFlags(guest: set<Flag>, expected: set<Flag>, allSupport: set<Flag>,
                           option: set<Flag>): (r: set<Flag>)
    ensures r <= guest && r !! expected && r !! allSupport && r !! option
    ensures forall f :: f in guest && f !in expected && f !in allSupport && f !in option ==> f in r
    ensures r == {} <==> guest <= expected + allSupport + option
  {
    EmptyDifference(guest, expected + allSupport + option);
    assert guest - expected - allSupport - option == guest - (expected + allSupport + option);
    guest - expected - allSupport - option
  }

  /** A difference is empty exactly when the first set is contained in the second. */
  lemma EmptyDifference<T>(a: set<T>, b: set<T>)
    ensures a - b == {} <==> a <= b
  {
    if a <= b {
      assert forall x :: x !in a - b;
    }
    if a - b == {} {
      assert forall x :: x in a ==> x in a - b || x in b;
    }
  }

  /** The query output "fpu vme" names the flag "vme" as a whole word. */
  lemma QueriedFlagIsSupported()
    ensures "vme" in AllSupportFlags(["fpu vme"])
    ensures "vme" !in AllSupportFlagsAsWritten(["fpu vme"])
  {
    var words := ["fpu", "vme"];
    assert IsToken(words[0]) && IsToken(words[1]);
    SplitJoin(words);
    assert Join(words) == "fpu vme";
    assert "vme" in Split(["fpu vme"][0]);
  }

  /**
   With the support set as written, a guest flag longer than one character
   that the hypervisor lists, and that is neither expected nor optional, is
   reported as unexpected; with the intended support set it is not.
   */
  lemma SupportedFlagReportedAsWritten(guest: set<Flag>, expected: set<Flag>, option: set<Flag>,
                                       groups: seq<string>, i: nat, f: Flag)
    requires i < |groups| && f in Split(groups[i]) && |f| > 1
    requires f in guest && f !in expected && f !in option
    ensures f in UnexpectedFlags(guest, expected, AllSupportFlagsAsWritten(groups), option)
    ensures f !in UnexpectedFlags(guest, expected, AllSupportFlags(groups), option)
  {
  }

  // ---------------------------------------------------------------------------
  // The whole test.
  // ---------------------------------------------------------------------------

  /** What the test reads from its configuration, the host, the guest and the hypervisor. */
  datatype Params = Params(
    hostFlags: seq<Flag>,                              // utils_misc.get_cpu_flags()
    hostCpuModels: seq<string>,                        // utils_misc.get_host_cpu_models()
    guestCpuModel: string,                             // vm.cpuinfo.model
    extraFlags: string,                                // cpu_model_flags
    dumpChunks: seq<string>,                           // the dump file split on "x86"
    regList: string,                                   // reg_list
    supportFlag: (string, string) -> Option<string>,   // qemu_support_flag
    guestFlags: set<Flag>,                             // the guest's /proc/cpuinfo flags
    outFlags: string,                                  // out_flags
    optionFlags: string,                               // option_flags
    smp: string,                                       // smp
    processOutput: string,                             // vm.process.get_output()
    supportGroups: seq<string>)                        // groups of the query-command pattern

  /** Every flag set the test derives once the baseline model is known. */
  datatype FlagSets = FlagSets(
    model: set<Flag>, add: set<Flag>, del: set<Flag>, out: set<Flag>, option: set<Flag>,
    expected: set<Flag>, check: set<Flag>, lack: set<Flag>, allSupport: set<Flag>)

  function Reconcile(p: Params, qemuModel: string): (s: FlagSets)
    ensures s.model == ModelSupportFlags(ModelInfo(p.dumpChunks, qemuModel), Split(p.regList), p.supportFlag)
    ensures forall f :: f in s.expected <==> (f in s.model || f in s.add) && f !in s.del && f !in s.out
    ensures forall f :: f in s.add <==> f in FindAll(p.extraFlags, '+') && f in p.hostFlags
    ensures forall f :: f in s.del <==> f in FindAll(p.extraFlags, '-') && f in p.hostFlags
    ensures forall f :: f in s.out <==> f in Split(p.outFlags)
    ensures forall f :: f in s.check <==> f in FindAll(p.extraFlags, '+')
    ensures forall f :: f in s.lack <==> (f in s.expected || f in s.check) && f !in p.hostFlags
    ensures forall f :: f in s.option <==> f in Split(p.optionFlags) || (p.smp == "1" && f == "up")
    ensures s.allSupport == AllSupportFlags(p.supportGroups)
    ensures forall f :: f in s.expected ==> f in s.model || f in s.add
    ensures s.expected !! s.del && s.expected !! s.out
    ensures forall f :: f in s.add ==> f in p.hostFlags && f in s.check
    ensures forall f :: f in s.lack ==> f !in p.hostFlags && (f in s.expected || f in s.check)
    ensures forall f :: f in s.lack ==> IsToken(f)
    ensures p.smp == "1" ==> "up" in s.option
    ensures forall f :: f in FindAll(p.extraFlags, '-') && f in p.hostFlags ==> f !in s.expected
    ensures forall f :: f in Split(p.outFlags) ==> f !in s.expected
    ensures forall f ::
      (f in FindAll(p.extraFlags, '+') && f in p.hostFlags
       && f !in FindAll(p.extraFlags, '-') && f !in Split(p.outFlags)) ==> f in s.expected
  {
    var info := ModelInfo(p.dumpChunks, qemuModel);
    var model := ModelSupportFlags(info, Split(p.regList), p.supportFlag);
    var out := set f | f in Split(p.outFlags);
    var option := OptionFlags(Split(p.optionFlags), p.smp);
    var add := ExtraFlags(p.extraFlags, '+', false, p.hostFlags);
    var del := ExtraFlags(p.extraFlags, '-', false, p.hostFlags);
    var expected := ExpectedFlags(model, add, del, out);
    var check := ExtraFlags(p.extraFlags, '+', true, p.hostFlags);
    var lack := LackFlags(expected, check, p.hostFlags);
    var options := set f | f in option;
    FlagSets(model, add, del, out, options, expected, check, lack, AllSupportFlags(p.supportGroups))
  }

  /** How a run of the test ends. */
  datatype Verdict =
    | Pass
    | NoHostModel                                          // host_cpumodel[0] on an empty list
    | LackNotWarned(warned: set<Flag>)                     // "no warning for lack flag"
    | Mismatch(missing: set<Flag>, unexpected: set<Flag>)  // "missing flags: ... more flags than expected"

  /** The final comparison of lines 201-209: pass, or report the missing and unexpected flags. */
  function Compare(expected: set<Flag>, guest: set<Flag>, allSupport: set<Flag>, option: set<Flag>): (v: Verdict)
    ensures v == Pass || v.Mismatch?
    ensures v.Mismatch? ==> v.missing <= expected && v.missing !! guest
                            && v.unexpected <= guest && v.unexpected !! expected
                            && v.unexpected !! allSupport && v.unexpected !! option
                            && (forall f :: f in expected && f !in guest ==> f in v.missing)
                            && (forall f :: (f in guest && f !in expected && f !in allSupport
                                             && f !in option) ==> f in v.unexpected)
                            && (v.missing != {} || v.unexpected != {})
    ensures v == Pass <==> expected <= guest && guest <= expected + allSupport + option
  {
    var missing := MissingFlags(expected, guest);
    var unexpected := UnexpectedFlags(guest, expected, allSupport, option);
    if missing != {} || unexpected != {} then Mismatch(missing, unexpected) else Pass
  }

  /** Lines 188-209 once the flag sets are known: the lack-warning check, then the comparison. */
  function Judge(s: FlagSets, extraFlags: string, processOutput: string, guest: set<Flag>): (v: Verdict)
    requires forall f :: f in s.lack ==> IsToken(f)
    ensures v != NoHostModel
    ensures v.LackNotWarned? <==>
      Contains(extraFlags, "check") && exists f :: f in s.lack && !Contains(processOutput, f)
    ensures v.LackNotWarned? ==> forall f :: f in v.warned <==> f in s.lack && !Contains(processOutput, f)
    ensures !v.LackNotWarned? ==> v == Compare(s.expected, guest, s.allSupport, s.option)
  {
    var warned := LackWarnings(s.lack, processOutput);
    WarningsIffUnmentioned(s.lack, processOutput);
    if Contains(extraFlags, "check") && warned != {} then
      LackNotWarned(warned)
    else
      Compare(s.expected, guest, s.allSupport, s.option)
  }

  /** The test: choose the baseline, derive the flag sets, check warnings, compare. */
  function Run(p: Params): (v: Verdict)
    ensures v == NoHostModel <==> |p.hostCpuModels| == 0
    ensures |p.hostCpuModels| > 0 ==>
      var s := Reconcile(p, QemuModel(p.guestCpuModel, p.hostCpuModels).value);
      && (v.LackNotWarned? <==>
           Contains(p.extraFlags, "check") && exists f :: f in s.lack && !Contains(p.processOutput, f))
      && (v.LackNotWarned? ==> forall f :: f in v.warned <==> f in s.lack && !Contains(p.processOutput, f))
      && (v.Mismatch? ==> v.missing <= s.expected && v.missing !! p.guestFlags
                          && v.unexpected <= p.guestFlags && v.unexpected !! s.expected
                          && v.unexpected !! s.allSupport && v.unexpected !! s.option
                          && (forall f :: f in s.expected && f !in p.guestFlags ==> f in v.missing)
                          && (forall f :: (f in p.guestFlags && f !in s.expected && f !in s.allSupport
                                           && f !in s.option) ==> f in v.unexpected)
                          && (v.missing != {} || v.unexpected != {}))
      && (!v.LackNotWarned? ==>
           (v == Pass <==> s.expected <= p.guestFlags
                           && p.guestFlags <= s.expected + s.allSupport + s.option))
  {
    match QemuModel(p.guestCpuModel, p.hostCpuModels)
    case None => NoHostModel
    case Some(qemuModel) =>
      Judge(Reconcile(p, qemuModel), p.extraFlags, p.processOutput, p.guestFlags)
  }
}
