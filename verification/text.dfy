/**
 The three pieces of Python 2 string handling the flag check relies on, over
 byte strings modelled as `string`:
 - `needle in hay` on strings (substring search),
 - `s.split()` with no argument (split on runs of whitespace, no empty words),
 - `re.findall(sym + r"(\w+)", s)` for a one-character, non-word prefix `sym`
   (the patterns `\+(\w+)` and `\-(\w+)`), where `\w` on a byte string
   without the LOCALE or UNICODE flag is `[A-Za-z0-9_]`.
 */
module Text {

  /** The characters `str.isspace` accepts, which separate words in `str.split()`. */
  predicate IsSpace(c: char) {
    c == ' ' || c == '\t' || c == '\n' || c == '\r' || c as int == 11 || c as int == 12
  }

  /** The characters the regular-expression class `\w` matches on a byte string. */
  predicate IsWordChar(c: char) {
    ('a' <= c <= 'z') || ('A' <= c <= 'Z') || ('0' <= c <= '9') || c == '_'
  }

  /** A non-empty word without whitespace: what `str.split()` yields. */
  predicate IsToken(s: string) {
    |s| > 0 && forall k :: 0 <= k < |s| ==> !IsSpace(s[k])
  }

  /** A non-empty run of `\w` characters: what the group of `\w+` captures. */
  predicate IsWord(s: string) {
    |s| > 0 && forall k :: 0 <= k < |s| ==> IsWordChar(s[k])
  }

  // ---------------------------------------------------------------------------
  // Substring search: Python's `needle in hay` on two strings.
  // ---------------------------------------------------------------------------

  predicate Contains(hay: string, needle: string)
    decreases |hay|
  {
    needle <= hay || (|hay| > 0 && Contains(hay[1..], needle))
  }

  /** `needle` occurs in `hay` starting at index `i`. */
  ghost predicate OccursAt(hay: string, needle: string, i: int) {
    0 <= i && i + |needle| <= |hay| && hay[i..i + |needle|] == needle
  }

  /** Every substring found by the scan `Contains` has a position. */
  lemma {:induction false} ContainsHasPosition(hay: string, needle: string) returns (i: nat)
    requires Contains(hay, needle)
    ensures OccursAt(hay, needle, i)
    decreases |hay|
  {
    if needle <= hay {
      i := 0;
      assert hay[..|needle|] == needle;
    } else {
      var j := ContainsHasPosition(hay[1..], needle);
      assert hay[1..][j..j + |needle|] == hay[j + 1..j + 1 + |needle|];
      i := j + 1;
    }
  }

  /** Every positioned occurrence is found by the scan `Contains`. */
  lemma {:induction false} PositionIsContained(hay: string, needle: string, i: nat)
    requires OccursAt(hay, needle, i)
    ensures Contains(hay, needle)
    decreases i
  {
    if i == 0 {
      assert needle <= hay;
    } else {
      assert hay[1..][i - 1..i - 1 + |needle|] == hay[i..i + |needle|];
      PositionIsContained(hay[1..], needle, i - 1);
    }
  }

  /** The scan `Contains` agrees with the positional definition of a substring. */
  lemma ContainsIffOccurs(hay: string, needle: string)
    ensures Contains(hay, needle) <==> exists i :: OccursAt(hay, needle, i)
  {
    if Contains(hay, needle) {
      var i := ContainsHasPosition(hay, needle);
    }
    forall i | OccursAt(hay, needle, i) ensures Contains(hay, needle) {
      PositionIsContained(hay, needle, i);
    }
  }

  /** An occurrence in a suffix of `hay` is an occurrence in `hay`. */
  lemma ContainsInSuffix(hay: string, k: nat, needle: string)
    requires k <= |hay|
    requires Contains(hay[k..], needle)
    ensures Contains(hay, needle)
  {
    var i := ContainsHasPosition(hay[k..], needle);
    assert hay[k..][i..i + |needle|] == hay[k + i..k + i + |needle|];
    PositionIsContained(hay, needle, k + i);
  }

  // ---------------------------------------------------------------------------
  // `str.split()` with no separator.
  // ---------------------------------------------------------------------------

  /** Length of the longest whitespace-free prefix of `s`. */
  function TokenLen(s: string): (n: nat)
    ensures n <= |s|
    ensures forall k :: 0 <= k < n ==> !IsSpace(s[k])
    ensures n < |s| ==> IsSpace(s[n])
  {
    if |s| == 0 || IsSpace(s[0]) then 0 else 1 + TokenLen(s[1..])
  }

  /** A word of `s.split()` starts at `i`: a non-blank at the start or right after a blank. */
  ghost predicate TokenStart(s: string, i: int) {
    0 <= i < |s| && !IsSpace(s[i]) && (i == 0 || IsSpace(s[i - 1]))
  }

  /** The longest whitespace-free run of `s` from index `i` on. */
  function TokenAt(s: string, i: nat): string
    requires i <= |s|
  {
    s[i..i + TokenLen(s[i..])]
  }

  /** The words of `s`, left to right, as `s.split()` returns them. */
  function Split(s: string): (r: seq<string>)
    ensures forall w :: w in r ==> IsToken(w)
    decreases |s|
  {
    if |s| == 0 then []
    else if IsSpace(s[0]) then Split(s[1..])
    else
      var n := TokenLen(s);
      [s[..n]] + Split(s[n..])
  }

  /**
   `s.split()` holds exactly the longest whitespace-free runs of `s`: each word
   is the run at some word start, and the run at every word start is a word.
   (The start condition is spelled out in the first clause so that the two
   clauses do not feed each other's quantifiers.)
   */
  lemma {:induction false} SplitExact(s: string)
    ensures forall w :: w in Split(s) ==>
      exists i {:trigger TokenAt(s, i)} :: 0 <= i < |s| && !IsSpace(s[i]) && (i == 0 || IsSpace(s[i - 1])) && w == TokenAt(s, i)
    ensures forall i {:trigger TokenStart(s, i)} :: TokenStart(s, i) ==> TokenAt(s, i) in Split(s)
    decreases |s|
  {
    if |s| == 0 {
    } else if IsSpace(s[0]) {
      SplitExact(s[1..]);
      LiftTokens(s, 1, s[1..], Split(s[1..]));
    } else {
      var n := TokenLen(s);
      SplitExact(s[n..]);
      LiftTokens(s, n, s[n..], Split(s[n..]));
      assert s[0..] == s;
      assert s[..n] == TokenAt(s, 0);
      assert TokenStart(s, 0);
    }
  }

  /** Index `j` of a suffix from a word boundary `k` is index `k + j` of `s`, for word starts and words. */
  lemma TokenShift(s: string, k: nat, j: nat)
    requires 0 < k && k + j <= |s|
    requires k == |s| || IsSpace(s[k - 1]) || IsSpace(s[k])
    ensures TokenStart(s[k..], j) <==> TokenStart(s, k + j)
    ensures TokenAt(s[k..], j) == TokenAt(s, k + j)
  {
    var t := s[k..];
    if j < |t| {
      assert t[j] == s[k + j];
      if j > 0 {
        assert t[j - 1] == s[k + j - 1];
      }
    }
    assert t[j..] == s[k + j..];
  }

  /** The words of a suffix that begins at a word boundary are the words of `s` from there on. */
  lemma LiftTokens(s: string, k: nat, t: string, found: seq<string>)
    requires 0 < k <= |s| && t == s[k..]
    requires k == |s| || IsSpace(s[k - 1]) || IsSpace(s[k])
    requires forall w :: w in found ==>
      exists j {:trigger TokenAt(t, j)} :: 0 <= j < |t| && !IsSpace(t[j]) && (j == 0 || IsSpace(t[j - 1])) && w == TokenAt(t, j)
    requires forall j {:trigger TokenStart(t, j)} :: TokenStart(t, j) ==> TokenAt(t, j) in found
    ensures forall w :: w in found ==>
      exists i {:trigger TokenAt(s, i)} :: 0 <= i < |s| && !IsSpace(s[i]) && (i == 0 || IsSpace(s[i - 1])) && w == TokenAt(s, i)
    ensures forall i {:trigger TokenStart(s, i)} :: k <= i && TokenStart(s, i) ==> TokenAt(s, i) in found
  {
    LiftTokensSound(s, k, t, found);
    LiftTokensComplete(s, k, t, found);
  }

  /** A word of a suffix that begins at a word boundary is a word of `s`. */
  lemma LiftTokensSound(s: string, k: nat, t: string, found: seq<string>)
    requires 0 < k <= |s| && t == s[k..]
    requires k == |s| || IsSpace(s[k - 1]) || IsSpace(s[k])
    requires forall w :: w in found ==>
      exists j {:trigger TokenAt(t, j)} :: 0 <= j < |t| && !IsSpace(t[j]) && (j == 0 || IsSpace(t[j - 1])) && w == TokenAt(t, j)
    ensures forall w :: w in found ==>
      exists i {:trigger TokenAt(s, i)} :: 0 <= i < |s| && !IsSpace(s[i]) && (i == 0 || IsSpace(s[i - 1])) && w == TokenAt(s, i)
  {
    forall w | w in found
      ensures exists i {:trigger TokenAt(s, i)} :: 0 <= i < |s| && !IsSpace(s[i]) && (i == 0 || IsSpace(s[i - 1])) && w == TokenAt(s, i)
    {
      var j :| 0 <= j < |t| && !IsSpace(t[j]) && (j == 0 || IsSpace(t[j - 1])) && w == TokenAt(t, j);
      assert TokenStart(t, j);
      TokenShift(s, k, j);
      assert TokenStart(s, k + j);
    }
  }

  /** Every word of `s` from a word boundary on is a word of the suffix there. */
  lemma LiftTokensComplete(s: string, k: nat, t: string, found: seq<string>)
    requires 0 < k <= |s| && t == s[k..]
    requires k == |s| || IsSpace(s[k - 1]) || IsSpace(s[k])
    requires forall j {:trigger TokenStart(t, j)} :: TokenStart(t, j) ==> TokenAt(t, j) in found
    ensures forall i {:trigger TokenStart(s, i)} :: k <= i && TokenStart(s, i) ==> TokenAt(s, i) in found
  {
    forall i | k <= i && TokenStart(s, i) ensures TokenAt(s, i) in found {
      TokenShift(s, k, i - k);
      assert TokenStart(t, i - k);
    }
  }

  /** `ws` joined by single blanks, as `" ".join(ws)`. */
  function Join(ws: seq<string>): string {
    if |ws| == 0 then ""
    else if |ws| == 1 then ws[0]
    else ws[0] + " " + Join(ws[1..])
  }

  /** A whitespace-free prefix ends where it ends, whatever follows a blank. */
  lemma TokenLenBeforeBlank(a: string, b: string)
    ensures TokenLen(a + " " + b) == TokenLen(a)
  {
    var s := a + " " + b;
    var m := TokenLen(a);
    var n := TokenLen(s);
    assert forall k :: 0 <= k < |a| ==> s[k] == a[k];
    assert IsSpace(s[m]);
  }

  /** Splitting a word on its own gives back that word. */
  lemma SplitToken(w: string)
    requires IsToken(w)
    ensures Split(w) == [w]
  {
    assert !IsSpace(w[0]);
    assert TokenLen(w) == |w|;
    assert w[..|w|] == w;
    assert w[|w|..] == [];
  }

  /** `(a + " " + b).split() == a.split() + b.split()`. */
  lemma {:induction false} SplitAcrossBlank(a: string, b: string)
    ensures Split(a + " " + b) == Split(a) + Split(b)
    decreases |a|
  {
    var s := a + " " + b;
    if |a| == 0 {
      assert s[1..] == b;
    } else if IsSpace(a[0]) {
      assert s[1..] == a[1..] + " " + b;
      SplitAcrossBlank(a[1..], b);
    } else {
      var n := TokenLen(a);
      TokenLenBeforeBlank(a, b);
      assert s[..n] == a[..n];
      assert s[n..] == a[n..] + " " + b;
      SplitAcrossBlank(a[n..], b);
    }
  }

  /** `" ".join(ws).split() == ws` for words without whitespace. */
  lemma {:induction false} SplitJoin(ws: seq<string>)
    requires forall i :: 0 <= i < |ws| ==> IsToken(ws[i])
    ensures Split(Join(ws)) == ws
    decreases |ws|
  {
    if |ws| == 0 {
    } else if |ws| == 1 {
      SplitToken(ws[0]);
    } else {
      SplitAcrossBlank(ws[0], Join(ws[1..]));
      SplitToken(ws[0]);
      SplitJoin(ws[1..]);
    }
  }

  // ---------------------------------------------------------------------------
  // `re.findall(sym + r"(\w+)", s)`.
  // ---------------------------------------------------------------------------

  /** Length of the longest `\w` prefix of `s`: how far greedy `\w+` reaches. */
  function WordLen(s: string): (n: nat)
    ensures n <= |s|
    ensures forall k :: 0 <= k < n ==> IsWordChar(s[k])
    ensures n < |s| ==> !IsWordChar(s[n])
  {
    if |s| == 0 || !IsWordChar(s[0]) then 0 else 1 + WordLen(s[1..])
  }

  /** A match of `sym(\w+)` can start at `i`: `sym` followed by a word character. */
  ghost predicate MatchStart(s: string, sym: char, i: int) {
    0 <= i && i + 1 < |s| && s[i] == sym && IsWordChar(s[i + 1])
  }

  /** The group greedy `\w+` captures right after index `i`. */
  function CaptureAt(s: string, i: nat): string
    requires i < |s|
  {
    s[i + 1..i + 1 + WordLen(s[i + 1..])]
  }

  /**
   The captured groups of every non-overlapping match of `sym(\w+)` in `s`,
   left to right. A match starts at each `sym` followed by a word character,
   takes the longest run of word characters after it, and the search resumes
   right after that run.
   */
  function FindAll(s: string, sym: char): (r: seq<string>)
    ensures forall t :: t in r ==> IsWord(t) && Contains(s, [sym] + t)
    decreases |s|
  {
    if |s| < 2 then []
    else if s[0] == sym && IsWordChar(s[1]) then
      var n := WordLen(s[1..]);
      var t := s[1..1 + n];
      var rest := FindAll(s[1 + n..], sym);
      assert [sym] + t <= s by {
        assert s[..1 + n] == [sym] + t;
      }
      LiftFound(s, 1 + n, sym, rest);
      [t] + rest
    else
      var rest := FindAll(s[1..], sym);
      LiftFound(s, 1, sym, rest);
      rest
  }

  /** Matches found in a suffix of `s` occur in `s`. */
  lemma LiftFound(s: string, k: nat, sym: char, found: seq<string>)
    requires k <= |s|
    requires forall t :: t in found ==> Contains(s[k..], [sym] + t)
    ensures forall t :: t in found ==> Contains(s, [sym] + t)
  {
    forall t | t in found ensures Contains(s, [sym] + t) {
      ContainsInSuffix(s, k, [sym] + t);
    }
  }

  /**
   Each group is the longest `\w` run after some `sym` followed by a word
   character; and when `sym` is not itself a word character (so no match can
   start inside another), every such `sym` yields its group. (The start
   condition is spelled out in the first clause so that the two clauses do
   not feed each other's quantifiers.)
   */
  lemma {:induction false} FindAllExact(s: string, sym: char)
    ensures forall t :: t in FindAll(s, sym) ==>
      exists i {:trigger CaptureAt(s, i)} :: 0 <= i && i + 1 < |s| && s[i] == sym && IsWordChar(s[i + 1]) && t == CaptureAt(s, i)
    ensures !IsWordChar(sym) ==>
      forall i {:trigger MatchStart(s, sym, i)} :: MatchStart(s, sym, i) ==> CaptureAt(s, i) in FindAll(s, sym)
    decreases |s|
  {
    if |s| < 2 {
    } else if s[0] == sym && IsWordChar(s[1]) {
      var n := WordLen(s[1..]);
      SplitMatchesAt(s, 1 + n, sym);
      assert s[1..1 + n] == CaptureAt(s, 0);
      assert MatchStart(s, sym, 0);
      assert forall i :: 0 < i < 1 + n ==> s[i] == s[1..][i - 1];
    } else {
      SplitMatchesAt(s, 1, sym);
    }
  }

  /** The exact description of the matches of `s[k..]`, carried over to `s`. */
  lemma {:induction false} SplitMatchesAt(s: string, k: nat, sym: char)
    requires 0 < k <= |s|
    ensures forall t :: t in FindAll(s[k..], sym) ==>
      exists i {:trigger CaptureAt(s, i)} :: 0 <= i && i + 1 < |s| && s[i] == sym && IsWordChar(s[i + 1]) && t == CaptureAt(s, i)
    ensures !IsWordChar(sym) ==>
      forall i {:trigger MatchStart(s, sym, i)} :: k <= i && MatchStart(s, sym, i) ==> CaptureAt(s, i) in FindAll(s[k..], sym)
    decreases |s|, 0
  {
    var u := s[k..];
    FindAllExact(u, sym);
    LiftMatches(s, k, u, sym, FindAll(u, sym));
  }

  /** The matches of a suffix of `s` are the matches of `s` that start in it. */
  lemma LiftMatches(s: string, k: nat, u: string, sym: char, found: seq<string>)
    requires k <= |s| && u == s[k..]
    requires forall t :: t in found ==>
      exists j {:trigger CaptureAt(u, j)} :: 0 <= j && j + 1 < |u| && u[j] == sym && IsWordChar(u[j + 1]) && t == CaptureAt(u, j)
    requires !IsWordChar(sym) ==>
      forall j {:trigger MatchStart(u, sym, j)} :: MatchStart(u, sym, j) ==> CaptureAt(u, j) in found
    ensures forall t :: t in found ==>
      exists i {:trigger CaptureAt(s, i)} :: 0 <= i && i + 1 < |s| && s[i] == sym && IsWordChar(s[i + 1]) && t == CaptureAt(s, i)
    ensures !IsWordChar(sym) ==>
      forall i {:trigger MatchStart(s, sym, i)} :: k <= i && MatchStart(s, sym, i) ==> CaptureAt(s, i) in found
  {
    forall t | t in found
      ensures exists i {:trigger CaptureAt(s, i)} :: 0 <= i && i + 1 < |s| && s[i] == sym && IsWordChar(s[i + 1]) && t == CaptureAt(s, i)
    {
      var j :| 0 <= j && j + 1 < |u| && u[j] == sym && IsWordChar(u[j + 1]) && t == CaptureAt(u, j);
      MatchShift(s, k, j, sym);
    }
    if !IsWordChar(sym) {
      forall i | k <= i && MatchStart(s, sym, i) ensures CaptureAt(s, i) in found {
        MatchShift(s, k, i - k, sym);
        assert MatchStart(u, sym, i - k);
      }
    }
  }

  /** Index `j` of `s[k..]` is index `k + j` of `s`, for match starts and captured groups. */
  lemma MatchShift(s: string, k: nat, j: nat, sym: char)
    requires k + j < |s|
    ensures MatchStart(s[k..], sym, j) <==> MatchStart(s, sym, k + j)
    ensures CaptureAt(s[k..], j) == CaptureAt(s, k + j)
  {
    assert s[k..][j + 1..] == s[k + j + 1..];
  }

  /** The flag list `sym w0,sym w1,…`, entries separated by commas. */
  function Flags(ws: seq<string>, sym: char): string {
    if |ws| == 0 then ""
    else if |ws| == 1 then [sym] + ws[0]
    else [sym] + ws[0] + "," + Flags(ws[1..], sym)
  }

  /** A greedy `\w+` stops at the first non-word character after a word. */
  lemma WordLenBeforeNonWord(w: string, rest: string)
    requires IsWord(w)
    requires |rest| > 0 ==> !IsWordChar(rest[0])
    ensures WordLen(w + rest) == |w|
  {
    var s := w + rest;
    assert forall k :: 0 <= k < |w| ==> s[k] == w[k];
    assert |rest| > 0 ==> s[|w|] == rest[0];
  }

  /** A `sym` followed by a whole word is one match; the search resumes after the word. */
  lemma FindAllMatch(sym: char, w: string, rest: string)
    requires IsWord(w)
    requires |rest| > 0 ==> !IsWordChar(rest[0])
    ensures FindAll([sym] + w + rest, sym) == [w] + FindAll(rest, sym)
  {
    var s := [sym] + w + rest;
    assert s[1..] == w + rest;
    WordLenBeforeNonWord(w, rest);
    var n := |w|;
    assert s[0] == sym && s[1] == w[0];
    FindAllAtMatch(s, sym);
    assert s[1..1 + n] == w;
    assert s[1 + n..] == rest;
  }

  /** At a match start, `FindAll` takes the greedy capture and resumes after it. */
  lemma FindAllAtMatch(s: string, sym: char)
    requires MatchStart(s, sym, 0)
    ensures FindAll(s, sym) == [CaptureAt(s, 0)] + FindAll(s[1 + WordLen(s[1..])..], sym)
  {
  }

  /** A character other than `sym` starts no match. */
  lemma FindAllSkip(sym: char, c: char, rest: string)
    requires c != sym
    ensures FindAll([c] + rest, sym) == FindAll(rest, sym)
  {
  }

  /** A stretch without `sym` starts no match. */
  lemma {:induction false} FindAllSkipPrefix(sym: char, prefix: string, rest: string)
    requires forall k :: 0 <= k < |prefix| ==> prefix[k] != sym
    ensures FindAll(prefix + rest, sym) == FindAll(rest, sym)
    decreases |prefix|
  {
    if |prefix| == 0 {
      assert prefix + rest == rest;
    } else {
      assert prefix + rest == [prefix[0]] + (prefix[1..] + rest);
      FindAllSkip(sym, prefix[0], prefix[1..] + rest);
      FindAllSkipPrefix(sym, prefix[1..], rest);
    }
  }

  /** Extracting the prefixed words from a flag list gives back the words. */
  lemma {:induction false} FindAllFlags(ws: seq<string>, sym: char)
    requires sym != ','
    requires forall i :: 0 <= i < |ws| ==> IsWord(ws[i])
    ensures FindAll(Flags(ws, sym), sym) == ws
    decreases |ws|
  {
    if |ws| == 1 {
      assert Flags(ws, sym) == [sym] + ws[0] + "";
      FindAllMatch(sym, ws[0], "");
    } else if |ws| > 1 {
      var rest := Flags(ws[1..], sym);
      assert Flags(ws, sym) == [sym] + ws[0] + ("," + rest);
      FindAllMatch(sym, ws[0], "," + rest);
      FindAllSkip(sym, ',', rest);
      FindAllFlags(ws[1..], sym);
    }
  }
}
