/**
 * The few operations of Python's `str` that the chat front end and the
 * benchmark rely on, with Python's exact semantics over Unicode scalar values:
 * `sub in s`, `s.find(sub)`, `s.split(sep)`, `sep.join(parts)`,
 * `s.replace(pat, repl)`, `s.strip()` and the slice `s[:n]`.
 */
module PyStrings {

  /** `sub` occurs in `s` starting at index `i`. */
  predicate OccursAt(s: string, sub: string, i: int) {
    0 <= i && i + |sub| <= |s| && s[i..i + |sub|] == sub
  }

  /** Python's `sub in s` (true for the empty `sub`). */
  predicate Contains(s: string, sub: string) {
    exists i :: 0 <= i <= |s| && OccursAt(s, sub, i)
  }

  /** Python's `s.find(sub)`: the lowest index of an occurrence, or -1. */
  function IndexOf(s: string, sub: string): (r: int)
    ensures -1 <= r <= |s|
    ensures r < 0 <==> !Contains(s, sub)
    ensures 0 <= r ==> OccursAt(s, sub, r)
    ensures forall j :: 0 <= j < r ==> !OccursAt(s, sub, j)
    decreases |s|
  {
    if |s| < |sub| then
      -1
    else if s[..|sub|] == sub then
      assert OccursAt(s, sub, 0);
      0
    else
      var k := IndexOf(s[1..], sub);
      ShiftOccurrence(s, sub);
      if k < 0 then -1 else k + 1
  }

  /** An occurrence in `s[1..]` is an occurrence in `s` one place later. */
  lemma ShiftOccurrence(s: string, sub: string)
    requires |s| > 0
    ensures forall j :: 1 <= j ==> (OccursAt(s, sub, j) <==> OccursAt(s[1..], sub, j - 1))
    ensures forall j :: 0 <= j ==> (OccursAt(s[1..], sub, j) <==> OccursAt(s, sub, j + 1))
  {
    forall j | 1 <= j ensures OccursAt(s, sub, j) <==> OccursAt(s[1..], sub, j - 1) {
      if j + |sub| <= |s| {
        assert s[1..][j - 1..j - 1 + |sub|] == s[j..j + |sub|];
      }
    }
  }

  /** The first occurrence is the one with no occurrence before it. */
  lemma IndexOfIs(s: string, sub: string, r: int)
    requires OccursAt(s, sub, r)
    requires forall j :: 0 <= j < r ==> !OccursAt(s, sub, j)
    ensures IndexOf(s, sub) == r
  {
    var k := IndexOf(s, sub);
    assert Contains(s, sub);
    if k > r {
      assert false;
    }
  }

  /** Appending to `s` does not move the first occurrence of `sub` in it. */
  lemma IndexOfAppend(s: string, t: string, sub: string)
    requires Contains(s, sub)
    ensures Contains(s + t, sub)
    ensures IndexOf(s + t, sub) == IndexOf(s, sub)
  {
    var i := IndexOf(s, sub);
    assert (s + t)[i..i + |sub|] == s[i..i + |sub|];
    forall j | 0 <= j < i ensures !OccursAt(s + t, sub, j) {
      assert !OccursAt(s, sub, j);
      assert (s + t)[j..j + |sub|] == s[j..j + |sub|];
    }
    IndexOfIs(s + t, sub, i);
  }

  /** Cutting `s + t` inside `s`. */
  lemma SlicesOfAppend(s: string, t: string, i: int)
    requires 0 <= i <= |s|
    ensures (s + t)[..i] == s[..i]
    ensures (s + t)[i..] == s[i..] + t
  {
  }

  /** An occurrence inside the slice `s[a..b]` is an occurrence in `s`. */
  lemma SliceOccurrence(s: string, sub: string, a: int, b: int, j: int)
    requires 0 <= a <= b <= |s|
    requires OccursAt(s[a..b], sub, j)
    ensures OccursAt(s, sub, a + j)
  {
    forall k | 0 <= k < |sub| ensures s[a + j + k] == sub[k] {
      assert s[a..b][j..j + |sub|][k] == sub[k];
    }
    assert s[a + j..a + j + |sub|] == sub;
  }

  /** A string that does not contain `sub` has no slice that contains it. */
  lemma SliceKeepsAbsence(s: string, sub: string, a: int, b: int)
    requires 0 <= a <= b <= |s|
    requires !Contains(s, sub)
    ensures !Contains(s[a..b], sub)
  {
    if Contains(s[a..b], sub) {
      var j :| 0 <= j <= b - a && OccursAt(s[a..b], sub, j);
      SliceOccurrence(s, sub, a, b, j);
      assert false;
    }
  }

  /** `Contains` is transitive: a substring of a substring is a substring. */
  lemma {:induction false} SubstringKeepsAbsence(s: string, t: string, sub: string)
    requires Contains(s, t) && !Contains(s, sub)
    ensures !Contains(t, sub)
  {
    var a :| 0 <= a <= |s| && OccursAt(s, t, a);
    SliceKeepsAbsence(s, sub, a, a + |t|);
  }

  /**
   * Python's `s.split(sep)` for a non-empty separator: the pieces between
   * the non-overlapping occurrences of `sep`, scanning left to right.
   * (Python raises `ValueError` for an empty separator.)
   */
  function SplitOn(s: string, sep: string): (parts: seq<string>)
    requires sep != ""
    ensures |parts| >= 1
    ensures |parts| == 1 <==> !Contains(s, sep)
    ensures forall k :: 0 <= k < |parts| ==> !Contains(parts[k], sep)
    decreases |s|
  {
    var i := IndexOf(s, sep);
    if i < 0 then
      [s]
    else
      NoOccurrenceBefore(s, sep, i);
      [s[..i]] + SplitOn(s[i + |sep|..], sep)
  }

  /** No occurrence starts before `i`, so none lies inside `s[..i]`. */
  lemma NoOccurrenceBefore(s: string, sub: string, i: int)
    requires 0 <= i <= |s|
    requires forall j :: 0 <= j < i ==> !OccursAt(s, sub, j)
    requires sub != ""
    ensures !Contains(s[..i], sub)
  {
    if Contains(s[..i], sub) {
      var j :| 0 <= j <= i && OccursAt(s[..i], sub, j);
      SliceOccurrence(s, sub, 0, i, j);
      assert false;
    }
  }

  /** Python's `sep.join(parts)`. */
  function JoinWith(parts: seq<string>, sep: string): string
    decreases |parts|
  {
    if |parts| == 0 then ""
    else if |parts| == 1 then parts[0]
    else parts[0] + sep + JoinWith(parts[1..], sep)
  }

  /** Cutting `s` at `i` and `j` and gluing the three pieces gives `s`. */
  lemma Decompose(s: string, i: int, j: int)
    requires 0 <= i <= j <= |s|
    ensures s[..i] + s[i..j] + s[j..] == s
  {
    assert s[..i] + s[i..j] == s[..j];
    assert s[..j] + s[j..] == s;
  }

  /** A split with a separator in `s` is the piece before it and the split of the rest. */
  lemma SplitUnfold(s: string, sep: string)
    requires sep != "" && Contains(s, sep)
    ensures var i := IndexOf(s, sep);
      SplitOn(s, sep) == [s[..i]] + SplitOn(s[i + |sep|..], sep)
  {
  }

  /** Splitting and joining with the same separator gives the input back. */
  lemma {:induction false} SplitJoinRoundTrip(s: string, sep: string)
    requires sep != ""
    ensures JoinWith(SplitOn(s, sep), sep) == s
    decreases |s|
  {
    if Contains(s, sep) {
      var i := IndexOf(s, sep);
      var head, tail := s[..i], s[i + |sep|..];
      var rest := SplitOn(tail, sep);
      assert SplitOn(s, sep) == [head] + rest by {
        SplitUnfold(s, sep);
      }
      assert JoinWith([head] + rest, sep) == head + sep + JoinWith(rest, sep) by {
        JoinCons(head, rest, sep);
      }
      assert JoinWith(rest, sep) == tail by {
        SplitJoinRoundTrip(tail, sep);
      }
      assert s == head + sep + tail by {
        Decompose(s, i, i + |sep|);
      }
    }
  }

  /**
   * The first piece of a split is the longest prefix of `s` that stops
   * before the first separator: it is a prefix, it holds no separator, and
   * either it is all of `s` or a separator follows it.
   */
  lemma {:induction false} SplitHead(s: string, sep: string)
    requires sep != ""
    ensures var head := SplitOn(s, sep)[0];
      && head <= s
      && !Contains(head, sep)
      && (head == s || OccursAt(s, sep, |head|))
      && (Contains(s, sep) ==> |head| == IndexOf(s, sep))
  {
  }

  /**
   * Python's `s.replace(pat, repl)` for a non-empty pattern: one scan from
   * the left that replaces each non-overlapping occurrence and does not
   * look again at what it has written.
   */
  function ReplaceAll(s: string, pat: string, repl: string): string
    requires pat != ""
    decreases |s|
  {
    if |s| == 0 then ""
    else if OccursAt(s, pat, 0) then repl + ReplaceAll(s[|pat|..], pat, repl)
    else [s[0]] + ReplaceAll(s[1..], pat, repl)
  }

  /** The scan copies every character before the first occurrence. */
  lemma {:induction false} ReplaceCopiesPrefix(s: string, pat: string, repl: string, i: int)
    requires pat != "" && 0 <= i <= |s|
    requires forall j :: 0 <= j < i ==> !OccursAt(s, pat, j)
    ensures ReplaceAll(s, pat, repl) == s[..i] + ReplaceAll(s[i..], pat, repl)
    decreases i
  {
    if i > 0 {
      ShiftOccurrence(s, pat);
      ReplaceCopiesPrefix(s[1..], pat, repl, i - 1);
      assert s[1..][i - 1..] == s[i..];
      assert [s[0]] + s[1..][..i - 1] == s[..i];
    }
  }

  /** Replacing leaves a string without the pattern unchanged. */
  lemma {:induction false} ReplaceAbsent(s: string, pat: string, repl: string)
    requires pat != "" && !Contains(s, pat)
    ensures ReplaceAll(s, pat, repl) == s
  {
    ReplaceCopiesPrefix(s, pat, repl, |s|);
    assert s[..|s|] == s;
  }

  /** The scan replaces an occurrence at the front and goes on after it. */
  lemma ReplaceAtFront(s: string, pat: string, repl: string)
    requires pat != "" && OccursAt(s, pat, 0)
    ensures ReplaceAll(s, pat, repl) == repl + ReplaceAll(s[|pat|..], pat, repl)
  {
  }

  /** Joining a piece in front of a non-empty list of pieces. */
  lemma JoinCons(head: string, rest: seq<string>, sep: string)
    requires |rest| >= 1
    ensures JoinWith([head] + rest, sep) == head + sep + JoinWith(rest, sep)
  {
    assert ([head] + rest)[1..] == rest;
  }

  /** `s.replace(pat, repl) == repl.join(s.split(pat))`. */
  lemma {:induction false} ReplaceIsJoinOfSplit(s: string, pat: string, repl: string)
    requires pat != ""
    ensures ReplaceAll(s, pat, repl) == JoinWith(SplitOn(s, pat), repl)
    decreases |s|
  {
    var i := IndexOf(s, pat);
    if i < 0 {
      ReplaceAbsent(s, pat, repl);
    } else {
      var head, tail := s[..i], s[i + |pat|..];
      ReplaceCopiesPrefix(s, pat, repl, i);
      assert s[i..][|pat|..] == tail;
      assert s[i..][..|pat|] == s[i..i + |pat|];
      ReplaceAtFront(s[i..], pat, repl);
      SplitUnfold(s, pat);
      ReplaceIsJoinOfSplit(tail, pat, repl);
      JoinCons(head, SplitOn(tail, pat), repl);
    }
  }

  /**
   * Replacing one character by another changes nothing else: the length is
   * kept and each character is mapped on its own.
   */
  lemma {:induction false} ReplaceCharwise(s: string, a: char, b: char)
    ensures |ReplaceAll(s, [a], [b])| == |s|
    ensures forall k :: 0 <= k < |s| ==>
      ReplaceAll(s, [a], [b])[k] == (if s[k] == a then b else s[k])
    decreases |s|
  {
    if |s| > 0 {
      ReplaceCharwise(s[1..], a, b);
      assert OccursAt(s, [a], 0) <==> s[0] == a;
    }
  }

  /** The characters Python's `str.isspace()` accepts, which `strip()` removes. */
  predicate IsSpace(c: char) {
    var n := c as int;
    || 0x09 <= n <= 0x0D
    || 0x1C <= n <= 0x20
    || n == 0x85 || n == 0xA0 || n == 0x1680
    || 0x2000 <= n <= 0x200A
    || n == 0x2028 || n == 0x2029 || n == 0x202F || n == 0x205F || n == 0x3000
  }

  /** Python's `s.lstrip()`. */
  function StripLeft(s: string): (r: string)
    ensures |r| <= |s| && r == s[|s| - |r|..]
    ensures forall k :: 0 <= k < |s| - |r| ==> IsSpace(s[k])
    ensures r != [] ==> !IsSpace(r[0])
    decreases |s|
  {
    if |s| > 0 && IsSpace(s[0]) then StripLeft(s[1..]) else s
  }

  /** Python's `s.rstrip()`. */
  function StripRight(s: string): (r: string)
    ensures |r| <= |s| && r == s[..|r|]
    ensures forall k :: |r| <= k < |s| ==> IsSpace(s[k])
    ensures r != [] ==> !IsSpace(r[|r| - 1])
    decreases |s|
  {
    if |s| > 0 && IsSpace(s[|s| - 1]) then StripRight(s[..|s| - 1]) else s
  }

  /**
   * Python's `s.strip()`: `s` without its leading and trailing whitespace.
   * The result is a substring of `s` that neither starts nor ends with
   * whitespace, and everything cut off is whitespace.
   */
  function Strip(s: string): (r: string)
    ensures Contains(s, r)
    ensures r != [] ==> !IsSpace(r[0]) && !IsSpace(r[|r| - 1])
    ensures (forall k :: 0 <= k < |s| ==> IsSpace(s[k])) <==> r == []
    ensures exists i, j ::
      && 0 <= i <= j <= |s| && r == s[i..j]
      && (forall k :: 0 <= k < i ==> IsSpace(s[k]))
      && (forall k :: j <= k < |s| ==> IsSpace(s[k]))
  {
    var t := StripLeft(s);
    var r := StripRight(t);
    var i, j := |s| - |t|, |s| - |t| + |r|;
    assert s[i..][..|r|] == s[i..j];
    assert OccursAt(s, r, i);
    forall k | j <= k < |s| ensures IsSpace(s[k]) {
      assert s[k] == t[k - i];
    }
    r
  }

  /** Stripping twice is stripping once. */
  lemma StripIdempotent(s: string)
    ensures Strip(Strip(s)) == Strip(s)
  {
  }

  /** Python's slice `s[:n]` for `n >= 0`: the first `n` characters, or all of `s`. */
  function Prefix(s: string, n: nat): (r: string)
    ensures |r| == if |s| < n then |s| else n
    ensures r <= s
  {
    if |s| <= n then s else s[..n]
  }
}
