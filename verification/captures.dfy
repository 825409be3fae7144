/** `Regex::captures_iter` for the two patterns the video-filter parser
    uses, `w=(\d+):h=(\d+)` and `scale=(\d+):(\d+)`: a literal lead, a digit
    run, a literal separator, a digit run.  The search finds the leftmost
    match, resumes at its end, and repeats.  Since each separator starts
    with a non-digit, a match starting at a given position is unique and
    takes maximal digit runs.  Digits are ASCII digits. */
module Captures {
  import opened RustPrelude
  import opened Decimal

  /** The pattern `lead(\d+)sep(\d+)`. */
  datatype Pattern = Pattern(lead: string, sep: string)

  /** The two captured digit runs and the position just past the match. */
  datatype Capture = Capture(first: string, second: string, end: nat)

  /** Both captures are non-empty digit strings. */
  predicate WellFormed(c: Capture) {
    |c.first| > 0 && |c.second| > 0 && AllDigits(c.first) && AllDigits(c.second)
  }

  /** The length of the run of digits that starts at `i`. */
  function DigitRun(s: string, i: nat): (n: nat)
    requires i <= |s|
    ensures i + n <= |s|
    ensures forall k :: i <= k < i + n ==> IsDigit(s[k])
    ensures i + n == |s| || !IsDigit(s[i + n])
    decreases |s| - i
  {
    if i < |s| && IsDigit(s[i]) then 1 + DigitRun(s, i + 1) else 0
  }

  /** The literal `t` occurs in `s` at position `i`. */
  predicate HasAt(s: string, i: nat, t: string) {
    i + |t| <= |s| && s[i..i + |t|] == t
  }

  /** The match of `p` that starts at position `i`, if any. */
  function MatchAt(s: string, i: nat, p: Pattern): (m: Option<Capture>)
    requires i <= |s|
    ensures m.Some? ==> i < m.value.end <= |s| && WellFormed(m.value)
  {
    var a := i + |p.lead|;
    if HasAt(s, i, p.lead) then
      var n1 := DigitRun(s, a);
      var b := a + n1;
      var c := b + |p.sep|;
      if n1 > 0 && HasAt(s, b, p.sep) then
        var n2 := DigitRun(s, c);
        if n2 > 0 then
          assert AllDigits(s[a..b]) && AllDigits(s[c..c + n2]);
          Some(Capture(s[a..b], s[c..c + n2], c + n2))
        else None
      else None
    else None
  }

  /** The text a match covers spells the lead, the first capture, the
      separator and the second capture. */
  lemma MatchSpells(s: string, i: nat, p: Pattern)
    requires i <= |s|
    ensures var m := MatchAt(s, i, p);
            m.Some? ==> s[i..m.value.end] == p.lead + m.value.first + p.sep + m.value.second
  {
    var m := MatchAt(s, i, p);
    if m.Some? {
      var a := i + |p.lead|;
      assert a <= |s| && s[i..a] == p.lead by {
        assert HasAt(s, i, p.lead);
      }
      var b := a + DigitRun(s, a);
      var c := b + |p.sep|;
      assert c <= |s| && s[b..c] == p.sep by {
        assert HasAt(s, b, p.sep);
      }
      var e := c + DigitRun(s, c);
      assert m.value == Capture(s[a..b], s[c..e], e);
      SliceJoin(s, i, a, b, c, e);
    }
  }

  /** Four adjacent slices join into one. */
  lemma SliceJoin(s: string, i: nat, a: nat, b: nat, c: nat, e: nat)
    requires i <= a <= b <= c <= e <= |s|
    ensures s[i..e] == s[i..a] + s[a..b] + s[b..c] + s[c..e]
  {
    assert s[i..b] == s[i..a] + s[a..b];
    assert s[i..c] == s[i..b] + s[b..c];
    assert s[i..e] == s[i..c] + s[c..e];
  }

  /** A run of `n` digits from `i` on is covered by the digit run there. */
  lemma {:induction false} DigitRunCovers(s: string, i: nat, n: nat)
    requires i + n <= |s|
    requires forall k :: i <= k < i + n ==> IsDigit(s[k])
    ensures DigitRun(s, i) >= n
    decreases n
  {
    if n > 0 {
      DigitRunCovers(s, i + 1, n - 1);
    }
  }

  /** A maximal run of `n` digits from `i` on is the digit run there. */
  lemma DigitRunExact(s: string, i: nat, n: nat)
    requires i + n <= |s|
    requires AllDigits(s[i..i + n])
    requires i + n == |s| || !IsDigit(s[i + n])
    ensures DigitRun(s, i) == n
  {
    assert forall k :: i <= k < i + n ==> IsDigit(s[k]) by {
      forall k | i <= k < i + n ensures IsDigit(s[k]) {
        assert s[i..i + n][k - i] == s[k];
      }
    }
    DigitRunCovers(s, i, n);
  }

  /** A run of `n` digits from `i` on is at most the digit run there. */
  lemma DigitRunAtLeast(s: string, i: nat, n: nat)
    requires i + n <= |s|
    requires AllDigits(s[i..i + n])
    ensures DigitRun(s, i) >= n
  {
    assert forall k :: i <= k < i + n ==> IsDigit(s[k]) by {
      forall k | i <= k < i + n ensures IsDigit(s[k]) {
        assert s[i..i + n][k - i] == s[k];
      }
    }
    DigitRunCovers(s, i, n);
  }

  /** Conversely, where `s` spells the lead, a non-empty maximal digit run,
      the separator and a non-empty digit run, a match starts: its first
      capture is that maximal run and its second runs from the separator to
      the end of the match, covering at least the last run. */
  lemma MatchAtComplete(s: string, i: nat, p: Pattern, n1: nat, n2: nat)
    requires n1 > 0 && n2 > 0
    requires i + |p.lead| + n1 + |p.sep| + n2 <= |s|
    requires HasAt(s, i, p.lead)
    requires AllDigits(s[i + |p.lead|..i + |p.lead| + n1])
    requires !IsDigit(s[i + |p.lead| + n1])
    requires HasAt(s, i + |p.lead| + n1, p.sep)
    requires AllDigits(s[i + |p.lead| + n1 + |p.sep|..i + |p.lead| + n1 + |p.sep| + n2])
    ensures var m := MatchAt(s, i, p);
            var a := i + |p.lead|;
            var c := a + n1 + |p.sep|;
            && m.Some?
            && m.value.first == s[a..a + n1]
            && c + n2 <= m.value.end && m.value.second == s[c..m.value.end]
  {
    var a := i + |p.lead|;
    var c := a + n1 + |p.sep|;
    DigitRunExact(s, a, n1);
    DigitRunAtLeast(s, c, n2);
  }

  /** Some match of `p` starts at or after `i`. */
  ghost predicate MatchFrom(s: string, i: nat, p: Pattern) {
    exists j :: i <= j <= |s| && MatchAt(s, j, p).Some?
  }

  /** `captures_iter` from position `i` on. */
  function CapturesFrom(s: string, i: nat, p: Pattern): (r: seq<Capture>)
    requires i <= |s|
    ensures forall k :: 0 <= k < |r| ==> WellFormed(r[k])
    decreases |s| - i
  {
    if i == |s| then []
    else
      match MatchAt(s, i, p)
      case Some(c) => [c] + CapturesFrom(s, c.end, p)
      case None => CapturesFrom(s, i + 1, p)
  }

  /** The iteration yields nothing exactly when no match starts at or
      after `i`. */
  lemma {:induction false} NoCapturesIff(s: string, i: nat, p: Pattern)
    requires i <= |s|
    ensures CapturesFrom(s, i, p) == [] <==> !MatchFrom(s, i, p)
    decreases |s| - i
  {
    if i == |s| {
      assert MatchAt(s, i, p).None?;
    } else {
      match MatchAt(s, i, p)
      case Some(c) =>
        assert MatchAt(s, i, p).Some?;
      case None =>
        NoCapturesIff(s, i + 1, p);
        assert MatchFrom(s, i, p) ==> MatchFrom(s, i + 1, p) by {
          if MatchFrom(s, i, p) {
            var j :| i <= j <= |s| && MatchAt(s, j, p).Some?;
            assert j != i;
          }
        }
        assert MatchFrom(s, i + 1, p) ==> MatchFrom(s, i, p) by {
          if MatchFrom(s, i + 1, p) {
            var j :| i + 1 <= j <= |s| && MatchAt(s, j, p).Some?;
            assert i <= j;
          }
        }
    }
  }

  /** The last capture the iteration yields is a match of `p` in `s`
      after which no further match starts. */
  lemma {:induction false} LastCaptureIsLastMatch(s: string, i: nat, p: Pattern)
    requires i <= |s|
    requires CapturesFrom(s, i, p) != []
    ensures var caps := CapturesFrom(s, i, p);
            var last := caps[|caps| - 1];
            && (exists j :: i <= j <= |s| && MatchAt(s, j, p) == Some(last))
            && last.end <= |s|
            && !MatchFrom(s, last.end, p)
    decreases |s| - i
  {
    var caps := CapturesFrom(s, i, p);
    var last := caps[|caps| - 1];
    match MatchAt(s, i, p)
    case Some(c) =>
      var rest := CapturesFrom(s, c.end, p);
      assert caps == [c] + rest;
      if rest == [] {
        assert last == c;
        NoCapturesIff(s, c.end, p);
        assert MatchAt(s, i, p) == Some(last);
      } else {
        assert last == rest[|rest| - 1];
        LastCaptureIsLastMatch(s, c.end, p);
      }
    case None =>
      LastCaptureIsLastMatch(s, i + 1, p);
  }
}
