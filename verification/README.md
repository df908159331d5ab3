# flag_check: CPU flag reconciliation

A Dafny model of the flag-set reconciliation in the `flag_check` test of
tp-qemu (`qemu/tests/flag_check.py`). The test boots a guest with
`-cpu <model>,<extra flags>` and decides which CPU flags the guest should
expose:

- it picks a baseline CPU model: the guest's model if the host lists it,
  otherwise the host's first model;
- it reads that model's flags from the first dump-file chunk naming the model;
- it extracts `+flag` requests (kept only when the host has the flag) and
  `-flag` removals (likewise) from the extra-flags string;
- it forms `expected = (model ∪ add) − del − out`;
- it forms the flags the host lacks, `(expected ∪ all + requests) − host`;
- when the extra flags contain `check`, it demands a hypervisor warning
  naming every lacking flag;
- finally it compares the guest's flags: expected flags the guest misses,
  and guest flags that are neither expected, nor supported by the
  hypervisor, nor optional (`up` is optional on a one-CPU guest).

Files:

- `wrappers.dfy`: `Option`, for Python's `None`.
- `text.dfy` (module `Text`): the string operations the test relies on.
  These are substring search (`in`), `str.split()`, and `re.findall` of the
  patterns `\+(\w+)` / `\-(\w+)`. The last is modelled as an exact scanner,
  with `\w` = `[A-Za-z0-9_]`.
- `flag_check.dfy` (module `FlagCheck`): every step above, the flag sets
  they produce (`Reconcile`) and the verdict of a whole run (`Run`).

Two behaviours of the `\w+` extraction are proved rather than assumed.
A dotted flag is truncated: `+sse4.1` requests `sse4`.
A hyphen inside a requested flag is read partly as a removal:
`+tsc-deadline` yields the `+` match `tsc` and the `-` match `deadline`, so
`deadline` is removed whenever the host lists it and `tsc` is added
whenever the host lists it.

## Model

| member | source | states |
|---|---|---|
| Text.ContainsIffOccurs | qemu/tests/flag_check.py:58 | the substring test used for `cpumodel in model`, `"check" in extra_flags` and `flag not in process_output` holds exactly when the needle occurs at some position of the haystack |
| Text.Split | qemu/tests/flag_check.py:160-161 | `str.split()` yields only non-empty words without whitespace |
| Text.SplitExact | qemu/tests/flag_check.py:160-161 | every word `str.split()` yields is the maximal whitespace-free run starting at a position that follows whitespace or the start, and every such run is yielded |
| Text.SplitAcrossBlank | qemu/tests/flag_check.py:159 | appending `" " + flags` to the accumulated text appends exactly the words of `flags` |
| Text.SplitJoin | qemu/tests/flag_check.py:160-161 | splitting blank-joined words gives back those words (split is the inverse of join) |
| Text.FindAll | qemu/tests/flag_check.py:100 | every match of `sym(\w+)` is a non-empty `\w` word that occurs in the string right after `sym` |
| Text.FindAllExact | qemu/tests/flag_check.py:100 | every match is the maximal `\w` run right after some `sym` in the string; when `sym` is not itself a word character, the maximal run after every `sym` followed by a word character is matched |
| Text.FindAllFlags | qemu/tests/flag_check.py:94-100 | on a list `+w0,+w1,…,+wn` of words (commas only between entries), the extraction returns exactly `w0, w1, …, wn` in order |
| FlagCheck.ModelInfo | qemu/tests/flag_check.py:50-60 | the result is the first chunk containing the model name; it is `None` exactly when no chunk contains it |
| FlagCheck.QemuModel | qemu/tests/flag_check.py:143-147 | the baseline is the guest model when the host lists it, else the host's first model; it is always a host model; there is none exactly when the host lists no model |
| FlagCheck.AppendRegFlagsWords | qemu/tests/flag_check.py:154-159 | the accumulated text holds exactly the words of every register's flag list |
| FlagCheck.ModelSupportFlags | qemu/tests/flag_check.py:154-161 | a flag is a model flag exactly when the model's entry is present and non-empty and some register's flag list contains it; all are whitespace-free words |
| FlagCheck.KeepFlags | qemu/tests/flag_check.py:101-105 | a token is kept exactly when it is matched and either the lack check is on or the host has it |
| FlagCheck.ExtraFlags | qemu/tests/flag_check.py:91-106 | the extra flags are the matched `sym(\w+)` words, filtered by host support unless the lack check is on; each is a word that follows `sym` in the string |
| FlagCheck.FilteredExtraFlags | qemu/tests/flag_check.py:99-106 | the filtered set is a subset of the host flags and equals the unfiltered set intersected with them |
| FlagCheck.RequestedFlagsRoundTrip | qemu/tests/flag_check.py:184 | the unfiltered `+` flags of a list `+w0,+w1,…,+wn` (commas only between entries) are exactly the words written |
| FlagCheck.DottedFlagIsTruncated | qemu/tests/flag_check.py:94-100 | `+sse4.1` requests the flag `sse4`, because `\w` stops at the dot |
| FlagCheck.HyphenMinusMatch | qemu/tests/flag_check.py:180 | in `+head-tail` the `-` pattern finds exactly `tail` |
| FlagCheck.HyphenPlusMatch | qemu/tests/flag_check.py:178 | in `+head-tail` the `+` pattern finds exactly `head` |
| FlagCheck.HyphenatedFlagReadsAsRemoval | qemu/tests/flag_check.py:91-106 | in `+head-tail` the `+` pattern finds `head` and the `-` pattern finds `tail`; after the host filter, `tail` is deleted exactly when the host lists it and `head` is added exactly when the host lists it |
| FlagCheck.ExpectedFlags | qemu/tests/flag_check.py:181-182 | a flag is expected exactly when it is a model or added flag and is neither deleted nor out |
| FlagCheck.OptionFlags | qemu/tests/flag_check.py:173-176 | the configured list is kept as a prefix; `up` is present when `smp == '1'`; it is appended at most once and only when missing; nothing else is added |
| FlagCheck.LackFlags | qemu/tests/flag_check.py:184-186 | a flag lacks exactly when it is expected or requested with `+` and the host does not have it |
| FlagCheck.SplitWords | qemu/tests/flag_check.py:195 | `extend(flag.split())` collects only whitespace-free words and includes every whitespace-free flag |
| FlagCheck.SplitWordsExact | qemu/tests/flag_check.py:195 | a word is collected exactly when it is a word of some flag |
| FlagCheck.SplitWordsOfTokens | qemu/tests/flag_check.py:195 | for flags that are single words, the collected words are exactly those flags |
| FlagCheck.LackWarnings | qemu/tests/flag_check.py:191-196 | for single-word lacking flags, `miss_warn` lists exactly the lacking flags the process output does not mention |
| FlagCheck.AllSupportFlagsAsWritten | qemu/tests/flag_check.py:85-89 | as written, the support set holds exactly the one-character strings made of the characters of the captured groups: each member is such a character, and every character is present |
| FlagCheck.AllSupportFlags | qemu/tests/flag_check.py:85-89 | as intended, a flag is supported exactly when it is a word of some captured group |
| FlagCheck.QueriedFlagIsSupported | qemu/tests/flag_check.py:88 | for the query output `fpu vme`, `vme` is supported by the intended reading and not by the code as written |
| FlagCheck.SupportedFlagReportedAsWritten | qemu/tests/flag_check.py:200-204 | as written, every guest flag longer than one character that the hypervisor lists and that is neither expected nor optional is reported as unexpected; with the intended support set it is not |
| FlagCheck.MissingFlags | qemu/tests/flag_check.py:201 | the missing flags are exactly the expected flags the guest lacks; none are missing exactly when the guest shows every expected flag |
| FlagCheck.UnexpectedFlags | qemu/tests/flag_check.py:202-203 | the unexpected flags are exactly the guest flags outside the expected, supported and optional sets; there are none exactly when the guest's flags lie within their union |
| FlagCheck.Reconcile | qemu/tests/flag_check.py:151-186 | every flag set is pinned to the inputs: the model flags are those of the first dump chunk naming the chosen model, over the configured registers; a flag is added (removed) exactly when a `+` (`-`) match names it and the host has it; the out flags are exactly the words of `out_flags`; the requested flags are exactly the `+` matches; a flag is expected exactly when it is a model or added flag that is neither removed nor out; it lacks exactly when it is expected or requested and the host does not have it; it is optional exactly when it is a word of `option_flags` or it is `up` with `smp == '1'`; the support set is the corrected word set; lacking flags are single words |
| FlagCheck.WarningsIffUnmentioned | qemu/tests/flag_check.py:192-197 | for single-word lacking flags, some warning is due exactly when some lacking flag is absent from the process output |
| FlagCheck.Compare | qemu/tests/flag_check.py:200-209 | the comparison passes exactly when the guest shows every expected flag and nothing outside expected ∪ supported ∪ optional; otherwise it reports exactly the missing and exactly the unexpected flags, not both empty |
| FlagCheck.Judge | qemu/tests/flag_check.py:188-209 | with `check` in the extra flags, the lack check fails exactly when some lacking flag is unmentioned, listing exactly those; otherwise the result is the comparison |
| FlagCheck.Run | qemu/tests/flag_check.py:142-209 | a run has no baseline exactly when the host lists no model. With `check` requested, it fails on warnings exactly when some lacking flag is absent from the process output, listing exactly those. Otherwise it passes exactly when the guest shows every expected flag and nothing outside expected ∪ supported ∪ optional; a mismatch reports exactly the missing flags and exactly the unexpected flags, not both empty |

## Left out

- VM boot, login, `vm.verify_alive` and reading `/proc/cpuinfo` are harness I/O. The guest's flags are the input `guestFlags`. The case where the parser fails and returns `None` is not modelled.
- Running the hypervisor's query command, reading the dump file, and splitting it on `"x86"` are external processes and files. Their results are inputs: `supportGroups`, `dumpChunks`, `processOutput`, `hostFlags` and `hostCpuModels`.
- The regular expression of `qemu_support_flag` (`.*<reg>.*\((.*)\)\n`) is not modelled. It is the function parameter `supportFlag`, which gives the captured flag text for a model entry and a register, or `None`.
- `utils_misc.Flag` alias-aware equality is not modelled, because its definition is not available. Flags compare as plain strings.
- The order and duplicates of `miss_warn`, and the text of failure messages, are not modelled. Warnings are a set.
- Logging, `error.context` and the float `login_timeout` have no effect on the verdict.
- Missing configuration keys are not modelled: `params["main_vm"]` is read before any flag logic, and `params['smp']` is read at line 174, after the model lookup and the model's flags. A missing key raises `KeyError`; the model takes every value as an input.
- FlagCheck.Run: it uses the corrected support set `AllSupportFlags`, not the character set the code builds (see Findings).
- Text.Split: `SplitExact` states which words come out but not their order or multiplicity. Order is pinned only for blank-joined input by `SplitJoin`, and the model uses the words only as a set.
- Text.FindAll: `FindAllExact` states which words come out but not their order or multiplicity. Order is pinned only for `+w0,+w1,…` lists by `FindAllFlags`, and the model uses the matches only as a set. Completeness is stated only when `sym` is not a word character, which holds for `+` and `-`.
- FlagCheck.LackWarnings: its contract characterises the warnings only for whitespace-free lacking flags. `Reconcile` proves every lacking flag is one.

## Findings

| source | as written | input that shows it | evidently intended | confidence | as-written member | corrected member |
|---|---|---|---|---|---|---|
| qemu/tests/flag_check.py:88 | `flags += flag` extends the list with the characters of each captured group, so the support set holds one-character strings | query output group `"fpu vme"`: the set is `{"f","p","u"," ","v","m","e"}`, and a guest flag `vme` that is not expected is reported as unexpected | `flags += flag.split()`, a set of flag words | medium (not executed) | FlagCheck.SupportedFlagReportedAsWritten, with the witness FlagCheck.QueriedFlagIsSupported | FlagCheck.AllSupportFlags |
