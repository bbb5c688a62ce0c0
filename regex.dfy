/**
  The six `String.prototype.match` calls of the status parser, for the two shapes of
  regular expression they use:

  - `Run(prefix, cls, suffix)`: a literal prefix, one capture group holding a non-empty
    greedy run of a character class, then a literal suffix, e.g. `Suhu: ([\d.]+) C`;
  - `Choice(prefix, alts)`: a literal prefix and a capture group that is an alternation of
    literals, e.g. `Mode: (Auto|Off)`.

  `Find` is the executable model (leftmost position, maximal run); `Matches`, `Preferred` and
  `LeftmostCapture` are the reference semantics of a backtracking regex engine, and
  `FindCorrect` proves the two agree.
*/
module Regex {
  import opened Wrappers

  /** `\d`: an ASCII decimal digit. */
  predicate IsDigit(c: char) {
    '0' <= c <= '9'
  }

  /** The character classes captured by the status patterns: `\d` and `[\d.]`. */
  datatype CharClass = Digit | DigitOrDot

  predicate InClass(c: char, cls: CharClass) {
    IsDigit(c) || (cls == DigitOrDot && c == '.')
  }

  predicate AllInClass(t: string, cls: CharClass) {
    forall i :: 0 <= i < |t| ==> InClass(t[i], cls)
  }

  datatype Pattern =
    | Run(prefix: string, cls: CharClass, suffix: string)
    | Choice(prefix: string, alts: seq<string>)

  /** A greedy run never has to give characters back: the suffix cannot begin with a
      character of the class. */
  predicate Backtrackless(pat: Pattern) {
    pat.Run? ==> pat.suffix == [] || !InClass(pat.suffix[0], pat.cls)
  }

  /** `lit` occurs in `s` starting at position `p`. */
  predicate LiteralAt(s: string, p: nat, lit: string) {
    p + |lit| <= |s| && s[p..p + |lit|] == lit
  }

  // ---------------------------------------------------------------------------------------
  // Reference semantics

  /** One way for `pat` to match `s` at position `p` with capture group `t`. */
  ghost predicate Matches(s: string, pat: Pattern, p: nat, t: string) {
    LiteralAt(s, p, pat.prefix) && LiteralAt(s, p + |pat.prefix|, t) &&
    match pat
    case Run(_, cls, suffix) =>
      t != [] && AllInClass(t, cls) && LiteralAt(s, p + |pat.prefix| + |t|, suffix)
    case Choice(_, alts) => t in alts
  }

  ghost predicate MatchesAt(s: string, pat: Pattern, p: nat) {
    exists t :: Matches(s, pat, p, t)
  }

  /** The match a backtracking engine reports at `p`: the longest run (greedy `+`), or the
      first alternative, in the order written, that matches. */
  ghost predicate Preferred(s: string, pat: Pattern, p: nat, t: string) {
    Matches(s, pat, p, t) &&
    match pat
    case Run(_, _, _) => forall u :: Matches(s, pat, p, u) ==> |u| <= |t|
    case Choice(prefix, alts) =>
      exists i :: 0 <= i < |alts| && alts[i] == t &&
        forall j :: 0 <= j < i ==> !LiteralAt(s, p + |prefix|, alts[j])
  }

  /** `t` is the group `s.match(pat)[1]`: the preferred match at the leftmost position where
      the pattern matches at all. */
  ghost predicate LeftmostCapture(s: string, pat: Pattern, t: string) {
    exists p: nat :: Preferred(s, pat, p, t) && forall q: nat, u :: q < p ==> !Matches(s, pat, q, u)
  }

  // ---------------------------------------------------------------------------------------
  // Executable model

  /** End of the maximal run of `cls` characters that starts at `i`. */
  function RunEnd(s: string, i: nat, cls: CharClass): (j: nat)
    requires i <= |s|
    ensures i <= j <= |s|
    ensures AllInClass(s[i..j], cls)
    ensures j == |s| || !InClass(s[j], cls)
    decreases |s| - i
  {
    if i < |s| && InClass(s[i], cls) then RunEnd(s, i + 1, cls) else i
  }

  /** Index of the first alternative, from `i` on, that occurs at `q`. */
  function FirstAlt(s: string, q: nat, alts: seq<string>, i: nat): (r: Option<nat>)
    requires i <= |alts|
    ensures r.Some? ==> i <= r.value < |alts| && LiteralAt(s, q, alts[r.value])
    ensures forall j :: i <= j < |alts| && (r.None? || j < r.value) ==> !LiteralAt(s, q, alts[j])
    decreases |alts| - i
  {
    if i == |alts| then None
    else if LiteralAt(s, q, alts[i]) then Some(i)
    else FirstAlt(s, q, alts, i + 1)
  }

  /** The group the engine captures when it tries `pat` at position `p`, if any. */
  function CaptureAt(s: string, pat: Pattern, p: nat): (r: Option<string>)
    requires p <= |s|
    ensures r.Some? ==> LiteralAt(s, p, pat.prefix) && LiteralAt(s, p + |pat.prefix|, r.value)
    ensures r.Some? && pat.Run? ==> r.value != [] && AllInClass(r.value, pat.cls)
    ensures r.Some? && pat.Choice? ==> r.value in pat.alts
  {
    if !LiteralAt(s, p, pat.prefix) then None
    else
      var start := p + |pat.prefix|;
      match pat
      case Run(_, cls, suffix) =>
        var j := RunEnd(s, start, cls);
        if start < j && LiteralAt(s, j, suffix) then Some(s[start..j]) else None
      case Choice(_, alts) =>
        match FirstAlt(s, start, alts, 0)
        case Some(i) => Some(alts[i])
        case None => None
  }

  /** The first position at or after `p` where `pat` matches. */
  function FirstMatch(s: string, pat: Pattern, p: nat): (r: Option<nat>)
    requires p <= |s|
    ensures r.Some? ==> p <= r.value <= |s| && CaptureAt(s, pat, r.value).Some?
    ensures forall q :: p <= q <= |s| && (r.None? || q < r.value) ==> CaptureAt(s, pat, q).None?
    decreases |s| - p
  {
    if CaptureAt(s, pat, p).Some? then Some(p)
    else if p == |s| then None
    else FirstMatch(s, pat, p + 1)
  }

  /** `s.match(pat)`: the capture group of the leftmost match, or `null`. */
  function Find(s: string, pat: Pattern): (r: Option<string>)
    ensures r.Some? && pat.Run? ==> r.value != [] && AllInClass(r.value, pat.cls)
    ensures r.Some? && pat.Choice? ==> r.value in pat.alts
  {
    match FirstMatch(s, pat, 0)
    case Some(p) => CaptureAt(s, pat, p)
    case None => None
  }

  // ---------------------------------------------------------------------------------------
  // The executable model agrees with the reference semantics

  /** Every run of `cls` characters starting at `i` ends no later than `RunEnd`. */
  lemma {:induction false} RunEndMaximal(s: string, i: nat, k: nat, cls: CharClass)
    requires i <= k <= |s| && AllInClass(s[i..k], cls)
    ensures k <= RunEnd(s, i, cls)
    decreases k - i
  {
    if i < k {
      assert s[i..k][0] == s[i];
      assert s[i + 1..k] == s[i..k][1..];
      RunEndMaximal(s, i + 1, k, cls);
    }
  }

  /** A greedy run pattern tried at one position: a capture is the longest match there, and
      no capture means no match at all there. */
  lemma RunCaptureAtCorrect(s: string, pat: Pattern, p: nat)
    requires p <= |s| && pat.Run? && Backtrackless(pat)
    ensures CaptureAt(s, pat, p).Some? ==> Preferred(s, pat, p, CaptureAt(s, pat, p).value)
    ensures CaptureAt(s, pat, p).None? ==> !MatchesAt(s, pat, p)
  {
    if LiteralAt(s, p, pat.prefix) {
      var start := p + |pat.prefix|;
      var j := RunEnd(s, start, pat.cls);
      if start < j && LiteralAt(s, j, pat.suffix) {
        assert CaptureAt(s, pat, p) == Some(s[start..j]);
        RunCaptureLongest(s, pat, p, s[start..j]);
      } else {
        assert CaptureAt(s, pat, p) == None;
        forall u | Matches(s, pat, p, u) ensures false {
          RunBoundsMatch(s, pat, p, u);
        }
      }
    } else {
      assert CaptureAt(s, pat, p) == None;
    }
  }

  lemma RunCaptureLongest(s: string, pat: Pattern, p: nat, t: string)
    requires pat.Run? && Backtrackless(pat) && LiteralAt(s, p, pat.prefix)
    requires var start := p + |pat.prefix|;
      var j := RunEnd(s, start, pat.cls);
      start < j && LiteralAt(s, j, pat.suffix) && t == s[start..j]
    ensures Preferred(s, pat, p, t)
  {
    var start := p + |pat.prefix|;
    var j := RunEnd(s, start, pat.cls);
    assert LiteralAt(s, start, t);
    assert Matches(s, pat, p, t);
    forall u | Matches(s, pat, p, u) ensures |u| <= |t| {
      RunBoundsMatch(s, pat, p, u);
    }
  }

  /** Any group a run pattern can match at `p` ends inside the maximal run, and at its end
      unless the suffix is empty. */
  lemma RunBoundsMatch(s: string, pat: Pattern, p: nat, u: string)
    requires pat.Run? && Backtrackless(pat) && Matches(s, pat, p, u)
    ensures var start := p + |pat.prefix|;
      var j := RunEnd(s, start, pat.cls);
      |u| <= j - start && (start + |u| == j || pat.suffix == [])
  {
    var start := p + |pat.prefix|;
    var j := RunEnd(s, start, pat.cls);
    assert s[start..start + |u|] == u;
    RunEndMaximal(s, start, start + |u|, pat.cls);
    var k := start + |u|;
    assert pat.suffix != [] ==> s[k] == s[k..k + |pat.suffix|][0] == pat.suffix[0];
    assert k < j ==> s[k] == s[start..j][|u|] && InClass(s[k], pat.cls);
  }

  /** An alternation tried at one position: a capture is the first alternative that occurs
      there, and no capture means no alternative occurs there. */
  lemma ChoiceCaptureAtCorrect(s: string, pat: Pattern, p: nat)
    requires p <= |s| && pat.Choice?
    ensures CaptureAt(s, pat, p).Some? ==> Preferred(s, pat, p, CaptureAt(s, pat, p).value)
    ensures CaptureAt(s, pat, p).None? ==> !MatchesAt(s, pat, p)
  {
    if LiteralAt(s, p, pat.prefix) {
      var start := p + |pat.prefix|;
      var r := FirstAlt(s, start, pat.alts, 0);
      if r.Some? {
        assert Matches(s, pat, p, pat.alts[r.value]);
      } else {
        assert !MatchesAt(s, pat, p);
      }
    }
  }

  lemma CaptureAtCorrect(s: string, pat: Pattern, p: nat)
    requires p <= |s| && Backtrackless(pat)
    ensures CaptureAt(s, pat, p).Some? ==> Preferred(s, pat, p, CaptureAt(s, pat, p).value)
    ensures CaptureAt(s, pat, p).None? ==> !MatchesAt(s, pat, p)
  {
    if pat.Run? {
      RunCaptureAtCorrect(s, pat, p);
    } else {
      ChoiceCaptureAtCorrect(s, pat, p);
    }
  }

  /** `Find` is what a backtracking engine computes: no result exactly when the pattern
      matches nowhere, and otherwise the preferred capture at the leftmost matching position. */
  lemma FindCorrect(s: string, pat: Pattern)
    requires Backtrackless(pat)
    ensures Find(s, pat).None? <==> forall p: nat, t :: !Matches(s, pat, p, t)
    ensures Find(s, pat).Some? ==> LeftmostCapture(s, pat, Find(s, pat).value)
  {
    var first := FirstMatch(s, pat, 0);
    var bound := if first.Some? then first.value else |s| + 1;
    forall q: nat, u | q < bound ensures !Matches(s, pat, q, u) {
      if q <= |s| {
        assert CaptureAt(s, pat, q).None?;
        CaptureAtCorrect(s, pat, q);
      }
    }
    if first.Some? {
      var p := first.value;
      var t := CaptureAt(s, pat, p).value;
      assert Find(s, pat) == Some(t);
      CaptureAtCorrect(s, pat, p);
      assert Preferred(s, pat, p, t);
      assert LeftmostCapture(s, pat, t);
    } else {
      assert Find(s, pat) == None;
      forall q: nat, u ensures !Matches(s, pat, q, u) {
        assert q < bound || !LiteralAt(s, q, pat.prefix);
      }
    }
  }
  // ---------------------------------------------------------------------------------------
  // Evaluating a search on a given text

  /** A run that stops before a character outside the class ends exactly there. */
  lemma RunEndAt(s: string, i: nat, k: nat, cls: CharClass)
    requires i <= k <= |s| && AllInClass(s[i..k], cls) && (k == |s| || !InClass(s[k], cls))
    ensures RunEnd(s, i, cls) == k
  {
    RunEndMaximal(s, i, k, cls);
  }

  /** One differing character rules a literal out at a position. */
  lemma MismatchAt(s: string, p: nat, lit: string, k: nat)
    requires k < |lit| && (p + k >= |s| || s[p + k] != lit[k])
    ensures !LiteralAt(s, p, lit)
  {
    if p + |lit| <= |s| {
      assert s[p..p + |lit|][k] == s[p + k];
    }
  }

  /** Where the pattern is tried, the prefix must occur character by character. */
  lemma LiteralAtChars(s: string, p: nat, lit: string)
    ensures LiteralAt(s, p, lit) ==> forall k :: 0 <= k < |lit| ==> s[p + k] == lit[k]
  {
    if LiteralAt(s, p, lit) {
      forall k | 0 <= k < |lit| ensures s[p + k] == lit[k] {
        assert s[p..p + |lit|][k] == s[p + k];
      }
    }
  }

  /** A capture at `p` with no earlier occurrence of the prefix is what `Find` reports. */
  lemma {:induction false} FirstMatchAt(s: string, pat: Pattern, from: nat, p: nat)
    requires from <= p <= |s| && CaptureAt(s, pat, p).Some?
    requires forall q :: from <= q < p ==> !LiteralAt(s, q, pat.prefix)
    ensures FirstMatch(s, pat, from) == Some(p)
    decreases p - from
  {
    if from < p {
      assert CaptureAt(s, pat, from).None?;
      FirstMatchAt(s, pat, from + 1, p);
    }
  }

  lemma FindAt(s: string, pat: Pattern, p: nat, t: string)
    requires p <= |s| && CaptureAt(s, pat, p) == Some(t)
    requires forall q :: 0 <= q < p ==> !LiteralAt(s, q, pat.prefix)
    ensures Find(s, pat) == Some(t)
  {
    FirstMatchAt(s, pat, 0, p);
  }

  /** A text where the pattern can be tried nowhere has no match. */
  lemma FindAbsent(s: string, pat: Pattern)
    requires forall q :: 0 <= q <= |s| ==> CaptureAt(s, pat, q).None?
    ensures Find(s, pat) == None
  {
  }

  /** A text that never contains the first character of the prefix has no match. */
  lemma FindAbsentByHead(s: string, pat: Pattern)
    requires pat.prefix != [] && forall q :: 0 <= q < |s| ==> s[q] != pat.prefix[0]
    ensures Find(s, pat) == None
  {
    forall q | 0 <= q <= |s| ensures CaptureAt(s, pat, q).None? {
      LiteralAtChars(s, q, pat.prefix);
      assert q < |s| ==> s[q] != pat.prefix[0];
    }
    FindAbsent(s, pat);
  }

  // ---------------------------------------------------------------------------------------
  // Determinism

  /** The engine's answer is unique: two leftmost preferred captures are the same string. */
  lemma LeftmostCaptureUnique(s: string, pat: Pattern, t1: string, t2: string)
    requires LeftmostCapture(s, pat, t1) && LeftmostCapture(s, pat, t2)
    ensures t1 == t2
  {
    var p1: nat :| Preferred(s, pat, p1, t1) && forall q: nat, u :: q < p1 ==> !Matches(s, pat, q, u);
    var p2: nat :| Preferred(s, pat, p2, t2) && forall q: nat, u :: q < p2 ==> !Matches(s, pat, q, u);
    assert Matches(s, pat, p1, t1) && Matches(s, pat, p2, t2);
    assert p1 == p2;
    PreferredUnique(s, pat, p1, t1, t2);
  }

  /** At one position the preferred match is unique. */
  lemma PreferredUnique(s: string, pat: Pattern, p: nat, t1: string, t2: string)
    requires Preferred(s, pat, p, t1) && Preferred(s, pat, p, t2)
    ensures t1 == t2
  {
    var start := p + |pat.prefix|;
    if pat.Run? {
      assert |t1| == |t2|;
      assert t1 == s[start..start + |t1|] == t2;
    } else {
      var alts := pat.alts;
      var i1 :| 0 <= i1 < |alts| && alts[i1] == t1 &&
        forall j :: 0 <= j < i1 ==> !LiteralAt(s, start, alts[j]);
      var i2 :| 0 <= i2 < |alts| && alts[i2] == t2 &&
        forall j :: 0 <= j < i2 ==> !LiteralAt(s, start, alts[j]);
      assert i1 == i2;
    }
  }

  /** `Find` returns exactly the engine's capture. */
  lemma FindIffLeftmostCapture(s: string, pat: Pattern, t: string)
    requires Backtrackless(pat)
    ensures Find(s, pat) == Some(t) <==> LeftmostCapture(s, pat, t)
  {
    FindCorrect(s, pat);
    if LeftmostCapture(s, pat, t) {
      var p: nat :| Preferred(s, pat, p, t) && forall q: nat, u :: q < p ==> !Matches(s, pat, q, u);
      assert Matches(s, pat, p, t);
      LeftmostCaptureUnique(s, pat, t, Find(s, pat).value);
    }
  }
}
