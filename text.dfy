/**
  The parts of Python's `str` that the reporter relies on, over `seq<char>`:
  the `in` operator, `split` on one character, `split(sep)[0]` on a longer
  separator, and `strip()` with no arguments.
*/
module Text {

  /** Python's `str.isspace()` for one character. */
  predicate IsSpace(c: char) {
    var n := c as int;
    n == 32 || 9 <= n <= 13 || 28 <= n <= 31 || n == 0x85 || n == 0xA0 || n == 0x1680
    || 0x2000 <= n <= 0x200A || n == 0x2028 || n == 0x2029 || n == 0x202F || n == 0x205F
    || n == 0x3000
  }

  /** No whitespace at either end. */
  predicate IsStripped(s: string) {
    s == [] || (!IsSpace(s[0]) && !IsSpace(s[|s| - 1]))
  }

  /** Every character is whitespace. */
  predicate AllSpace(s: string) {
    forall k :: 0 <= k < |s| ==> IsSpace(s[k])
  }

  /** `sub` occurs in `s` starting at position `i`. */
  predicate OccursAt(s: string, sub: string, i: int) {
    0 <= i && i + |sub| <= |s| && s[i..i + |sub|] == sub
  }

  /** `sub in s` for strings: `sub` occurs at some position of `s`. */
  predicate Contains(s: string, sub: string) {
    exists i | 0 <= i <= |s| - |sub| :: OccursAt(s, sub, i)
  }

  /** A string contains each of its slices, and every slice of a slice. */
  lemma SliceContained(s: string, i: nat, j: nat)
    requires i <= j <= |s|
    ensures Contains(s, s[i..j])
  {
    assert OccursAt(s, s[i..j], i);
  }

  /** A character that does not occur in `s` does not occur in anything contained in `s`. */
  lemma {:induction false} ContainedChars(s: string, sub: string, c: char)
    requires Contains(s, sub) && c !in s
    ensures c !in sub
  {
    var i :| 0 <= i <= |s| - |sub| && OccursAt(s, sub, i);
    forall k | 0 <= k < |sub| ensures sub[k] != c {
      assert sub[k] == s[i + k];
    }
  }

  /** Containment is transitive: what `sub` contains, `s` contains. */
  lemma {:induction false} ContainsTransitive(s: string, sub: string, t: string)
    requires Contains(s, sub) && Contains(sub, t)
    ensures Contains(s, t)
  {
    var i :| 0 <= i <= |s| - |sub| && OccursAt(s, sub, i);
    var j :| 0 <= j <= |sub| - |t| && OccursAt(sub, t, j);
    var u := s[i + j..i + j + |t|];
    forall k | 0 <= k < |t| ensures u[k] == t[k] {
      assert t[k] == sub[j + k];
      assert sub[j + k] == s[i + j + k];
    }
    assert u == t;
    assert OccursAt(s, t, i + j);
  }

  /** Helper for `Split`: the index of the first occurrence of `c`, where the first piece ends. */
  function IndexOf(s: string, c: char): (i: nat)
    requires c in s
    ensures i < |s| && s[i] == c && c !in s[..i]
  {
    if s[0] == c then 0
    else
      var i := 1 + IndexOf(s[1..], c);
      assert s[..i] == [s[0]] + s[1..][..i - 1];
      i
  }

  /** Python's `s.split(c)`: the pieces between the occurrences of `c`. */
  function Split(s: string, c: char): (parts: seq<string>)
    ensures |parts| >= 1
    ensures c in s <==> |parts| >= 2
    ensures forall k :: 0 <= k < |parts| ==> c !in parts[k]
    decreases |s|
  {
    if c in s then
      var i := IndexOf(s, c);
      [s[..i]] + Split(s[i + 1..], c)
    else
      [s]
  }

  /**
    The first piece of a split is the prefix of `s` up to the first `c`, or all of `s`
    when there is none.
  */
  lemma SplitFirstPiece(s: string, c: char) returns (n: nat)
    ensures n <= |s| && Split(s, c)[0] == s[..n] && c !in s[..n]
    ensures n == |s| || s[n] == c
  {
    if c in s {
      n := IndexOf(s, c);
    } else {
      n := |s|;
      assert s[..n] == s;
    }
  }

  /** Helper for the round-trip lemmas: the pieces joined with `c`, the inverse of `Split`. */
  function Join(parts: seq<string>, c: char): string
    requires |parts| >= 1
  {
    if |parts| == 1 then parts[0] else parts[0] + [c] + Join(parts[1..], c)
  }

  /** Splitting and joining again gives back the string. */
  lemma {:induction false} SplitJoin(s: string, c: char)
    ensures Join(Split(s, c), c) == s
    decreases |s|
  {
    if c in s {
      var i := IndexOf(s, c);
      SplitJoin(s[i + 1..], c);
      assert s == s[..i] + [c] + s[i + 1..];
    }
  }

  /** The first piece of `a + [c] + b` is `a` when `c` does not occur in `a`. */
  lemma SplitAtFirst(a: string, b: string, c: char)
    requires c !in a
    ensures Split(a + [c] + b, c) == [a] + Split(b, c)
  {
    var s := a + [c] + b;
    assert s[|a|] == c;
    var i := IndexOf(s, c);
    assert i <= |a| by {
      assert forall k :: 0 <= k < i ==> s[..i][k] == s[k];
    }
    assert i >= |a| by {
      assert forall k :: 0 <= k < |a| ==> s[k] == a[k];
    }
    assert s[..i] == a;
    assert s[i + 1..] == b;
  }

  /** Joining pieces free of `c` and splitting again gives back the pieces. */
  lemma {:induction false} JoinSplit(parts: seq<string>, c: char)
    requires |parts| >= 1
    requires forall k :: 0 <= k < |parts| ==> c !in parts[k]
    ensures Split(Join(parts, c), c) == parts
  {
    if |parts| > 1 {
      JoinSplit(parts[1..], c);
      SplitAtFirst(parts[0], Join(parts[1..], c), c);
      assert parts == [parts[0]] + parts[1..];
    }
  }

  /** Python's `s.split(sep)[0]`: the part of `s` before the first occurrence of `sep`. */
  function BeforeFirst(s: string, sep: string): (r: string)
    requires |sep| > 0
    ensures r <= s
    ensures !Contains(r, sep)
    ensures r == s || OccursAt(s, sep, |r|)
    ensures forall p :: 0 <= p < |r| ==> !OccursAt(s, sep, p)
    decreases |s|
  {
    if |s| < |sep| then
      s
    else if s[..|sep|] == sep then
      assert !Contains([], sep);
      []
    else
      var rest := BeforeFirst(s[1..], sep);
      BeforeFirstStep(s, sep, rest);
      [s[0]] + rest
  }

  /**
    When `s` does not start with `sep`, the part before the first occurrence is its
    first character followed by the part of its tail before the first occurrence.
  */
  lemma BeforeFirstStep(s: string, sep: string, rest: string)
    requires 0 < |sep| <= |s| && s[..|sep|] != sep
    requires rest <= s[1..] && !Contains(rest, sep) && (rest == s[1..] || OccursAt(s[1..], sep, |rest|))
    requires forall p :: 0 <= p < |rest| ==> !OccursAt(s[1..], sep, p)
    ensures [s[0]] + rest <= s
    ensures !Contains([s[0]] + rest, sep)
    ensures [s[0]] + rest == s || OccursAt(s, sep, |rest| + 1)
    ensures forall p :: 0 <= p < |rest| + 1 ==> !OccursAt(s, sep, p)
  {
    forall p | 0 < p < |rest| + 1 ensures !OccursAt(s, sep, p) {
      assert !OccursAt(s[1..], sep, p - 1);
      if p + |sep| <= |s| {
        assert s[1..][p - 1..p - 1 + |sep|] == s[p..p + |sep|];
      }
    }
    var r := [s[0]] + rest;
    forall i | 0 <= i <= |r| - |sep| ensures !OccursAt(r, sep, i) {
      if i == 0 {
        assert r[0..|sep|] == s[..|sep|];
      } else {
        assert r[i..i + |sep|] == rest[i - 1..i - 1 + |sep|];
        assert !OccursAt(rest, sep, i - 1);
      }
    }
    if OccursAt(s[1..], sep, |rest|) {
      OccursShift(s, sep, |rest|);
    } else {
      assert s == [s[0]] + s[1..];
    }
  }

  /** An occurrence in the tail of `s` is an occurrence in `s`, one position later. */
  lemma OccursShift(s: string, sub: string, i: nat)
    requires |s| > 0 && OccursAt(s[1..], sub, i)
    ensures OccursAt(s, sub, i + 1)
  {
    var u := s[i + 1..i + 1 + |sub|];
    forall k | 0 <= k < |sub| ensures u[k] == sub[k] {
      assert sub[k] == s[1..][i + k];
    }
    assert u == sub;
  }

  /** Python's `s.lstrip()`: the suffix left after dropping the leading whitespace. */
  function TrimStart(s: string): (r: string)
    ensures |r| <= |s| && r == s[|s| - |r|..]
    ensures AllSpace(s[..|s| - |r|])
    ensures r == [] || !IsSpace(r[0])
    decreases |s|
  {
    if |s| > 0 && IsSpace(s[0]) then
      var r := TrimStart(s[1..]);
      assert s[..|s| - |r|] == [s[0]] + s[1..][..|s[1..]| - |r|];
      r
    else
      s
  }

  /** Python's `s.rstrip()`: the prefix left after dropping the trailing whitespace. */
  function TrimEnd(s: string): (r: string)
    ensures |r| <= |s| && r == s[..|r|]
    ensures AllSpace(s[|r|..])
    ensures r == [] || !IsSpace(r[|r| - 1])
    decreases |s|
  {
    if |s| > 0 && IsSpace(s[|s| - 1]) then
      var r := TrimEnd(s[..|s| - 1]);
      assert s[|r|..] == s[..|s| - 1][|r|..] + [s[|s| - 1]];
      r
    else
      s
  }

  /** Python's `s.strip()`: no whitespace is left at either end, and the result is a slice of `s`. */
  function Strip(s: string): (r: string)
    ensures IsStripped(r)
    ensures Contains(s, r)
  {
    var t := TrimStart(s);
    var r := TrimEnd(t);
    assert OccursAt(s, r, |s| - |t|) by {
      assert s[|s| - |t|..|s| - |t| + |r|] == t[..|r|];
    }
    r
  }

  /**
    `Strip` removes exactly the maximal whitespace runs at both ends: it is the slice
    `s[i..j]` with only whitespace before `i` and after `j`.
  */
  lemma StripSpan(s: string) returns (i: nat, j: nat)
    ensures i <= j <= |s| && Strip(s) == s[i..j]
    ensures AllSpace(s[..i]) && AllSpace(s[j..])
  {
    var t := TrimStart(s);
    var r := TrimEnd(t);
    i, j := |s| - |t|, |s| - |t| + |r|;
    assert s[j..] == t[|r|..];
    assert s[i..j] == t[..|r|];
  }

  /** A string with no whitespace at either end is left alone. */
  lemma StripStripped(s: string)
    requires IsStripped(s)
    ensures Strip(s) == s
  {
  }
}
