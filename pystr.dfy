/** The Python `str` methods the modelled code relies on: `strip()` with no
    argument, `removesuffix`, `join` and `split` with a one-character
    separator. Strings are sequences of code points. */
module PyStr {

  /** Python's `str.isspace()` for a single code point: the characters that
      `strip()` with no argument removes. */
  predicate IsSpace(c: char) {
    ('\t' <= c <= '\r') || ('\U{1C}' <= c <= '\U{1F}') || c == ' '
    || c == '\U{85}' || c == '\U{A0}' || c == '\U{1680}'
    || ('\U{2000}' <= c <= '\U{200A}') || c == '\U{2028}' || c == '\U{2029}'
    || c == '\U{202F}' || c == '\U{205F}' || c == '\U{3000}'
  }

  /** Every character of `s` is whitespace. */
  predicate AllSpace(s: string) {
    forall k :: 0 <= k < |s| ==> IsSpace(s[k])
  }

  /** Neither end of `s` is whitespace. */
  predicate Trimmed(s: string) {
    s == [] || (!IsSpace(s[0]) && !IsSpace(s[|s| - 1]))
  }

  /** The scan `strip()` makes from the left, starting at `i`: the first
      index at or after `i` that is not whitespace, or `|s|`. */
  function SkipForward(s: string, i: nat): (r: nat)
    requires i <= |s|
    ensures i <= r <= |s|
    decreases |s| - i
  {
    if i < |s| && IsSpace(s[i]) then SkipForward(s, i + 1) else i
  }

  /** The scan `strip()` makes from the right, from `j` down to `lo`: the
      smallest index `r` such that only whitespace lies in `[r, j)`. */
  function SkipBackward(s: string, lo: nat, j: nat): (r: nat)
    requires lo <= j <= |s|
    ensures lo <= r <= j
    decreases j
  {
    if j > lo && IsSpace(s[j - 1]) then SkipBackward(s, lo, j - 1) else j
  }

  /** The forward scan passes only whitespace and stops at a character
      that is not whitespace, or at the end. */
  lemma {:induction false} SkipForwardSpec(s: string, i: nat)
    requires i <= |s|
    ensures var r := SkipForward(s, i);
      (forall k :: i <= k < r ==> IsSpace(s[k])) && (r < |s| ==> !IsSpace(s[r]))
    decreases |s| - i
  {
    if i < |s| && IsSpace(s[i]) {
      SkipForwardSpec(s, i + 1);
    }
  }

  /** The backward scan passes only whitespace and stops just after a
      character that is not whitespace, or at `lo`. */
  lemma {:induction false} SkipBackwardSpec(s: string, lo: nat, j: nat)
    requires lo <= j <= |s|
    ensures var r := SkipBackward(s, lo, j);
      (forall k :: r <= k < j ==> IsSpace(s[k])) && (r > lo ==> !IsSpace(s[r - 1]))
    decreases j
  {
    if j > lo && IsSpace(s[j - 1]) {
      SkipBackwardSpec(s, lo, j - 1);
    }
  }

  /** Where the text kept by `strip()` starts and ends. */
  function StripStart(s: string): nat {
    SkipForward(s, 0)
  }

  function StripEnd(s: string): nat {
    SkipBackward(s, StripStart(s), |s|)
  }

  /** `s.strip()`: the characters between the two scans. */
  function Strip(s: string): string {
    s[StripStart(s)..StripEnd(s)]
  }

  /** What `strip()` leaves: `s` is some whitespace, then the result, then
      some more whitespace, and the result has whitespace at neither end. */
  lemma StripSpec(s: string)
    ensures var i, j := StripStart(s), StripEnd(s);
      i <= j <= |s| && Strip(s) == s[i..j] && AllSpace(s[..i]) && AllSpace(s[j..])
    ensures Trimmed(Strip(s))
  {
    var i, j := StripStart(s), StripEnd(s);
    SkipForwardSpec(s, 0);
    SkipBackwardSpec(s, i, |s|);
    assert forall k :: 0 <= k < i ==> s[..i][k] == s[k];
    assert forall k :: 0 <= k < |s| - j ==> s[j..][k] == s[j + k];
  }

  /** A forward scan stops at the first non-whitespace character. */
  lemma {:induction false} SkipForwardAt(s: string, i: nat, m: nat)
    requires i <= m <= |s|
    requires forall k :: i <= k < m ==> IsSpace(s[k])
    requires m == |s| || !IsSpace(s[m])
    ensures SkipForward(s, i) == m
    decreases m - i
  {
    if i < m {
      SkipForwardAt(s, i + 1, m);
    }
  }

  /** A backward scan stops just after the last non-whitespace character. */
  lemma {:induction false} SkipBackwardAt(s: string, lo: nat, j: nat, m: nat)
    requires lo <= m <= j <= |s|
    requires forall k :: m <= k < j ==> IsSpace(s[k])
    requires m == lo || !IsSpace(s[m - 1])
    ensures SkipBackward(s, lo, j) == m
    decreases j - m
  {
    if m < j {
      SkipBackwardAt(s, lo, j - 1, m);
    }
  }

  /** Nothing is left of whitespace alone. */
  lemma StripAllSpace(s: string)
    requires AllSpace(s)
    ensures Strip(s) == []
  {
    SkipForwardAt(s, 0, |s|);
    SkipBackwardAt(s, |s|, |s|, |s|);
  }

  /** The decomposition in StripSpec is unique: whatever whitespace
      surrounds a trimmed string, stripping gives back that string. */
  lemma StripUnique(a: string, t: string, b: string)
    requires AllSpace(a) && AllSpace(b) && Trimmed(t)
    ensures Strip(a + t + b) == t
  {
    var s := a + t + b;
    if t == [] {
      assert s == a + b;
      AllSpaceConcat(a, b);
      StripAllSpace(s);
    } else {
      var i, j := |a|, |a| + |t|;
      forall k | 0 <= k < i ensures IsSpace(s[k]) {
        assert s[k] == a[k];
      }
      assert s[i] == t[0];
      SkipForwardAt(s, 0, i);
      forall k | j <= k < |s| ensures IsSpace(s[k]) {
        assert s[k] == b[k - j];
      }
      assert s[j - 1] == t[|t| - 1];
      SkipBackwardAt(s, i, |s|, j);
      assert s[i..j] == t;
    }
  }

  /** Stripping twice is stripping once. */
  lemma StripIdempotent(s: string)
    ensures Strip(Strip(s)) == Strip(s)
  {
    var r := Strip(s);
    StripSpec(s);
    assert [] + r + [] == r;
    StripUnique([], r, []);
  }

  lemma {:induction false} AllSpaceConcat(a: string, b: string)
    requires AllSpace(a) && AllSpace(b)
    ensures AllSpace(a + b)
  {
  }

  lemma Regroup(a: string, p: string, r: string, q: string, b: string)
    ensures a + (p + r + q) + b == (a + p) + r + (q + b)
  {
  }

  /** Surrounding whitespace, newlines included, makes no difference. */
  lemma StripIgnoresPadding(a: string, s: string, b: string)
    requires AllSpace(a) && AllSpace(b)
    ensures Strip(a + s + b) == Strip(s)
  {
    var i, j := StripStart(s), StripEnd(s);
    StripSpec(s);
    var p, r, q := s[..i], s[i..j], s[j..];
    assert s == p + r + q;
    Regroup(a, p, r, q, b);
    AllSpaceConcat(a, p);
    AllSpaceConcat(q, b);
    StripUnique(a + p, r, q + b);
  }

  predicate EndsWith(s: string, suffix: string) {
    |suffix| <= |s| && s[|s| - |suffix|..] == suffix
  }

  /** `s.removesuffix(suffix)`: one occurrence of a non-empty suffix is cut
      off; otherwise `s` is returned as it is. */
  function RemoveSuffix(s: string, suffix: string): (r: string)
    ensures if suffix != [] && EndsWith(s, suffix) then r + suffix == s else r == s
  {
    if suffix != [] && EndsWith(s, suffix) then s[..|s| - |suffix|] else s
  }

  /** `sep.join(xs)`. */
  function Join(xs: seq<string>, sep: string): string {
    if |xs| == 0 then []
    else if |xs| == 1 then xs[0]
    else xs[0] + sep + Join(xs[1..], sep)
  }

  function TotalLength(xs: seq<string>): nat {
    if xs == [] then 0 else |xs[0]| + TotalLength(xs[1..])
  }

  /** Joining one more entry adds one separator and the entry at the end. */
  lemma {:induction false} JoinSnoc(xs: seq<string>, y: string, sep: string)
    ensures Join(xs + [y], sep) == if xs == [] then y else Join(xs, sep) + sep + y
  {
    if |xs| == 1 {
      assert xs + [y] == [xs[0], y];
      assert [xs[0], y][1..] == [y];
    } else if |xs| > 1 {
      assert (xs + [y])[1..] == xs[1..] + [y];
      JoinSnoc(xs[1..], y, sep);
    }
  }

  /** n entries are joined with exactly n - 1 separators. */
  lemma {:induction false} JoinLength(xs: seq<string>, sep: string)
    ensures xs != [] ==> |Join(xs, sep)| == TotalLength(xs) + (|xs| - 1) * |sep|
  {
    if |xs| == 1 {
      assert xs[1..] == [];
    } else if |xs| > 1 {
      JoinLength(xs[1..], sep);
    }
  }

  /** `s.split(sep)` for a one-character separator: there is always at
      least one piece and no piece contains the separator. */
  function Split(s: string, sep: char): (r: seq<string>)
    ensures |r| >= 1
    ensures forall i :: 0 <= i < |r| ==> sep !in r[i]
  {
    if s == [] then [[]]
    else
      var rest := Split(s[1..], sep);
      if s[0] == sep then [[]] + rest
      else [[s[0]] + rest[0]] + rest[1..]
  }

  /** Splitting and joining back with the same separator is the identity. */
  lemma {:induction false} SplitJoin(s: string, sep: char)
    ensures Join(Split(s, sep), [sep]) == s
  {
    if s != [] {
      var rest := Split(s[1..], sep);
      SplitJoin(s[1..], sep);
      if s[0] == sep {
        assert ([[]] + rest)[1..] == rest;
      } else {
        var r := [[s[0]] + rest[0]] + rest[1..];
        if |rest| == 1 {
          assert r == [[s[0]] + rest[0]];
        } else {
          assert r[1..] == rest[1..];
          assert Join(rest, [sep]) == rest[0] + [sep] + Join(rest[1..], [sep]);
        }
      }
    }
  }
}
