/**
 * The Python string operations the backend relies on, written out character
 * by character: `str.strip()`, `str.strip("#")`, `str.split("\n")`,
 * `"\n".join(...)`, `str.replace(p, "")`, `str.startswith` and `str(n)`.
 */
module Text {

  /** Python's `str.isspace()` on one character: the set `str.strip()` removes
      and the regular-expression class `\s` matches. */
  predicate IsSpace(c: char) {
    var n := c as int;
    (9 <= n <= 13) || (28 <= n <= 32) || n == 0x85 || n == 0xA0 || n == 0x1680
    || (0x2000 <= n <= 0x200A) || n == 0x2028 || n == 0x2029 || n == 0x202F
    || n == 0x205F || n == 0x3000
  }

  /** Drops the longest prefix whose characters all satisfy `drop`. */
  function TrimStart(s: string, drop: char -> bool): (r: string)
    ensures |r| <= |s| && r == s[|s| - |r|..]
    ensures |r| > 0 ==> !drop(r[0])
    ensures forall i :: 0 <= i < |s| - |r| ==> drop(s[i])
  {
    if |s| > 0 && drop(s[0]) then
      var r := TrimStart(s[1..], drop);
      assert s[1..][|s| - 1 - |r|..] == s[|s| - |r|..];
      assert forall i :: 1 <= i < |s| ==> s[i] == s[1..][i - 1];
      r
    else s
  }

  /** Drops the longest suffix whose characters all satisfy `drop`. */
  function TrimEnd(s: string, drop: char -> bool): (r: string)
    ensures |r| <= |s| && r == s[..|r|]
    ensures |r| > 0 ==> !drop(r[|r| - 1])
    ensures forall i :: |r| <= i < |s| ==> drop(s[i])
    ensures |s| > 0 && !drop(s[0]) ==> |r| > 0
  {
    if |s| > 0 && drop(s[|s| - 1]) then
      var r := TrimEnd(s[..|s| - 1], drop);
      assert s[..|s| - 1][..|r|] == s[..|r|];
      assert forall i :: 0 <= i < |s| - 1 ==> s[i] == s[..|s| - 1][i];
      r
    else s
  }

  /** `r` sits in `s` starting at position `i`. */
  predicate IsSliceAt(r: string, s: string, i: int) {
    0 <= i <= |s| - |r| && r == s[i..i + |r|]
  }

  /** `r` is a contiguous piece of `s`. */
  ghost predicate IsSlice(r: string, s: string) {
    exists i :: IsSliceAt(r, s, i)
  }

  /** Neither end of `s` is whitespace. */
  predicate IsStripped(s: string) {
    |s| == 0 || (!IsSpace(s[0]) && !IsSpace(s[|s| - 1]))
  }

  predicate AllSpace(s: string) {
    forall i :: 0 <= i < |s| ==> IsSpace(s[i])
  }

  /** Python's `s.strip()`. */
  function Strip(s: string): (r: string)
    ensures IsStripped(r)
    ensures |r| <= |s|
    decreases |s|
  {
    if |s| > 0 && IsSpace(s[0]) then Strip(s[1..])
    else if |s| > 0 && IsSpace(s[|s| - 1]) then Strip(s[..|s| - 1])
    else s
  }

  /** What `strip()` keeps is a contiguous piece of its argument, and it is
      empty exactly when the argument is all whitespace. */
  lemma {:induction false} StripSlice(s: string)
    ensures IsSlice(Strip(s), s)
    ensures Strip(s) == "" <==> AllSpace(s)
    decreases |s|
  {
    var r := Strip(s);
    if |s| > 0 && IsSpace(s[0]) {
      StripSlice(s[1..]);
      var k :| IsSliceAt(r, s[1..], k);
      assert IsSliceAt(r, s, k + 1);
      assert AllSpace(s) <==> AllSpace(s[1..]) by {
        assert forall i :: 1 <= i < |s| ==> s[i] == s[1..][i - 1];
      }
    } else if |s| > 0 && IsSpace(s[|s| - 1]) {
      StripSlice(s[..|s| - 1]);
      var k :| IsSliceAt(r, s[..|s| - 1], k);
      assert IsSliceAt(r, s, k);
      assert AllSpace(s) <==> AllSpace(s[..|s| - 1]) by {
        assert forall i :: 0 <= i < |s| - 1 ==> s[i] == s[..|s| - 1][i];
      }
    } else {
      assert IsSliceAt(s, s, 0);
    }
  }

  /** Python's `s.strip("#")`: hash signs removed from both ends, nothing else. */
  function StripHashes(s: string): (r: string)
    ensures |r| <= |s|
    ensures |r| == 0 || (r[0] != '#' && r[|r| - 1] != '#')
    decreases |s|
  {
    if |s| > 0 && s[0] == '#' then StripHashes(s[1..])
    else if |s| > 0 && s[|s| - 1] == '#' then StripHashes(s[..|s| - 1])
    else s
  }

  lemma {:induction false} StripStripped(s: string)
    requires IsStripped(s)
    ensures Strip(s) == s
  {
  }

  /** A string that does not start with whitespace keeps its first character. */
  lemma {:induction false} StripFirst(s: string)
    requires |s| > 0 && !IsSpace(s[0])
    ensures |Strip(s)| > 0 && Strip(s)[0] == s[0]
    decreases |s|
  {
    if |s| > 1 && IsSpace(s[|s| - 1]) {
      StripFirst(s[..|s| - 1]);
    }
  }

  /** Stripping twice is stripping once. */
  lemma StripIdempotent(s: string)
    ensures Strip(Strip(s)) == Strip(s)
  {
    StripStripped(Strip(s));
  }

  /** Whitespace added at either end does not survive `strip()`. */
  lemma StripPadded(a: string, s: string, b: string)
    requires AllSpace(a) && AllSpace(b)
    ensures Strip(a + s + b) == Strip(s)
  {
    StripSpaceSuffix(a + s, b);
    StripSpacePrefix(a, s);
  }

  lemma {:induction false} StripSpacePrefix(a: string, s: string)
    requires AllSpace(a)
    ensures Strip(a + s) == Strip(s)
  {
    if |a| > 0 {
      assert (a + s)[0] == a[0];
      assert (a + s)[1..] == a[1..] + s;
      StripSpacePrefix(a[1..], s);
    } else {
      assert a + s == s;
    }
  }

  lemma {:induction false} StripSpaceSuffix(s: string, b: string)
    requires AllSpace(b)
    ensures Strip(s + b) == Strip(s)
    decreases |s| + |b|
  {
    if |b| == 0 {
      assert s + b == s;
    } else if |s| == 0 {
      assert s + b == b;
      StripSlice(b);
    } else if IsSpace(s[0]) {
      assert (s + b)[0] == s[0];
      assert (s + b)[1..] == s[1..] + b;
      StripSpaceSuffix(s[1..], b);
    } else {
      var b' := b[..|b| - 1];
      assert (s + b)[0] == s[0];
      assert (s + b)[|s + b| - 1] == b[|b| - 1];
      assert (s + b)[..|s + b| - 1] == s + b';
      StripSpaceSuffix(s, b');
    }
  }

  function StartsWith(s: string, prefix: string): bool {
    |prefix| <= |s| && s[..|prefix|] == prefix
  }

  /** The number of copies of `c` that `s` starts with. */
  function LeadingCount(s: string, c: char): (n: nat)
    ensures n <= |s|
    ensures forall i :: 0 <= i < n ==> s[i] == c
    ensures n < |s| ==> s[n] != c
  {
    if |s| > 0 && s[0] == c then 1 + LeadingCount(s[1..], c) else 0
  }

  /* ---------------------------------------------------------------------- */
  /* Splitting on and joining with one separator character.                  */

  /** Python's `s.split(sep)` for a one-character separator. */
  function Split(s: string, sep: char): (r: seq<string>)
    ensures |r| >= 1
    ensures forall i :: 0 <= i < |r| ==> sep !in r[i]
  {
    if |s| == 0 then [""]
    else if s[0] == sep then [""] + Split(s[1..], sep)
    else
      var t := Split(s[1..], sep);
      [[s[0]] + t[0]] + t[1..]
  }

  /** Python's `sep.join(parts)`. */
  function Join(parts: seq<string>, sep: string): string {
    if |parts| == 0 then ""
    else if |parts| == 1 then parts[0]
    else parts[0] + sep + Join(parts[1..], sep)
  }

  /** A join holds a character only if a part or the separator does. */
  lemma {:induction false} JoinFree(parts: seq<string>, sep: string, c: char)
    requires c !in sep && forall i :: 0 <= i < |parts| ==> c !in parts[i]
    ensures c !in Join(parts, sep)
  {
    if |parts| > 1 {
      JoinFree(parts[1..], sep, c);
    }
  }

  /** Joining the pieces of a split gives back the string. */
  lemma {:induction false} JoinSplit(s: string, sep: char)
    ensures Join(Split(s, sep), [sep]) == s
  {
    if |s| > 0 {
      JoinSplit(s[1..], sep);
      var t := Split(s[1..], sep);
      if s[0] == sep {
        assert s == [sep] + s[1..];
      } else if |t| == 1 {
        assert s == [s[0]] + s[1..];
      } else {
        assert Split(s, sep)[1..] == t[1..];
        assert s == [s[0]] + s[1..];
      }
    }
  }

  /** Splitting a join of separator-free pieces gives back the pieces. */
  lemma {:induction false} SplitJoin(parts: seq<string>, sep: char)
    requires |parts| >= 1
    requires forall i :: 0 <= i < |parts| ==> sep !in parts[i]
    ensures Split(Join(parts, [sep]), sep) == parts
  {
    if |parts| == 1 {
      SplitFree(parts[0], sep);
    } else {
      SplitJoin(parts[1..], sep);
      SplitAppend(parts[0], Join(parts[1..], [sep]), sep);
      SplitFree(parts[0], sep);
      assert parts[0] + [sep] + Join(parts[1..], [sep]) == Join(parts, [sep]);
      assert parts == [parts[0]] + parts[1..];
    }
  }

  lemma {:induction false} SplitFree(s: string, sep: char)
    requires sep !in s
    ensures Split(s, sep) == [s]
  {
    if |s| > 0 {
      SplitFree(s[1..], sep);
      assert s == [s[0]] + s[1..];
    }
  }

  /** A separator splits the line sequence exactly where it stands. */
  lemma {:induction false} SplitAppend(a: string, b: string, sep: char)
    ensures Split(a + [sep] + b, sep) == Split(a, sep) + Split(b, sep)
  {
    if |a| == 0 {
      assert a + [sep] + b == [sep] + b;
      assert ([sep] + b)[1..] == b;
    } else {
      assert (a + [sep] + b)[1..] == a[1..] + [sep] + b;
      assert (a + [sep] + b)[0] == a[0];
      SplitAppend(a[1..], b, sep);
    }
  }

  /* ---------------------------------------------------------------------- */
  /* Python's `s.replace(p, "")`.                                             */

  /** Removes every non-overlapping occurrence of `p`, scanning left to right,
      as `str.replace(p, "")` does. */
  function RemoveAll(s: string, p: string): string
    requires |p| > 0
    decreases |s|
  {
    if |s| < |p| then s
    else if s[..|p|] == p then RemoveAll(s[|p|..], p)
    else [s[0]] + RemoveAll(s[1..], p)
  }

  predicate OccursAt(s: string, p: string, i: int) {
    0 <= i && i + |p| <= |s| && s[i..i + |p|] == p
  }

  ghost predicate Contains(s: string, p: string) {
    exists i :: OccursAt(s, p, i)
  }

  const Fence: string := "```"

  /** No backtick anywhere in `s`. */
  predicate NoTicks(s: string) {
    forall i :: 0 <= i < |s| ==> s[i] != '`'
  }

  /** A pattern that starts with a backtick cannot match inside a backtick-free
      prefix, so removing it only affects what follows. */
  lemma {:induction false} RemoveAllTickFree(s: string, t: string, p: string)
    requires |p| > 0 && p[0] == '`' && NoTicks(s)
    ensures RemoveAll(s + t, p) == s + RemoveAll(t, p)
    decreases |s|
  {
    if |s| == 0 {
      assert s + t == t;
    } else if |s + t| >= |p| {
      assert (s + t)[0] == s[0];
      assert (s + t)[..|p|] != p;
      assert (s + t)[1..] == s[1..] + t;
      RemoveAllTickFree(s[1..], t, p);
      assert [s[0]] + (s[1..] + RemoveAll(t, p)) == s + RemoveAll(t, p);
    }
  }

  /** Removing every fence leaves a run of backticks at the front whose length
      is the original run's length modulo three. */
  lemma {:induction false} RemoveFenceLeadingRun(s: string)
    ensures LeadingCount(RemoveAll(s, Fence), '`') == LeadingCount(s, '`') % 3
    decreases |s|
  {
    if |s| < 3 {
      assert RemoveAll(s, Fence) == s;
    } else if s[..3] == Fence {
      RemoveFenceLeadingRun(s[3..]);
      FenceRunDropped(s);
    } else {
      RemoveFenceLeadingRun(s[1..]);
      FenceRunKept(s);
    }
  }

  /** A leading fence is removed, taking three backticks off the run. */
  lemma FenceRunDropped(s: string)
    requires |s| >= 3 && s[..3] == Fence
    requires LeadingCount(RemoveAll(s[3..], Fence), '`') == LeadingCount(s[3..], '`') % 3
    ensures LeadingCount(RemoveAll(s, Fence), '`') == LeadingCount(s, '`') % 3
  {
    RemoveAllSkip(s, Fence);
    LeadingFence(s);
    var x := LeadingCount(s[3..], '`');
    assert LeadingCount(RemoveAll(s, Fence), '`') == x % 3;
    assert LeadingCount(s, '`') == 3 + x;
    ModThreeShift(x);
  }

  lemma ModThreeShift(x: nat)
    ensures (3 + x) % 3 == x % 3
  {
  }

  /** Where no fence starts, the first character is kept. */
  lemma FenceRunKept(s: string)
    requires |s| >= 3 && s[..3] != Fence
    requires LeadingCount(RemoveAll(s[1..], Fence), '`') == LeadingCount(s[1..], '`') % 3
    ensures LeadingCount(RemoveAll(s, Fence), '`') == LeadingCount(s, '`') % 3
  {
    RemoveAllStep(s, Fence);
    var rest := RemoveAll(s[1..], Fence);
    if s[0] != '`' {
      assert ([s[0]] + rest)[0] == s[0];
      assert LeadingCount(RemoveAll(s, Fence), '`') == 0;
      assert LeadingCount(s, '`') == 0;
    } else {
      assert s[1] != '`' || s[2] != '`' by {
        assert s[..3][0] == s[0] && s[..3][1] == s[1] && s[..3][2] == s[2];
      }
      LoneTicks(s, rest);
    }
  }

  /** Where an occurrence starts, `replace` drops it. */
  lemma RemoveAllSkip(s: string, p: string)
    requires |p| > 0 && |s| >= |p| && s[..|p|] == p
    ensures RemoveAll(s, p) == RemoveAll(s[|p|..], p)
  {
  }

  lemma LeadingFence(s: string)
    requires |s| >= 3 && s[..3] == Fence
    ensures LeadingCount(s, '`') == 3 + LeadingCount(s[3..], '`')
  {
    assert s[0] == '`' && s[1] == '`' && s[2] == '`' by {
      assert s[..3][0] == s[0] && s[..3][1] == s[1] && s[..3][2] == s[2];
    }
    assert s[1..][0] == s[1] && s[1..][1..][0] == s[2];
    assert s[1..][1..][1..] == s[3..];
  }

  /** Where no occurrence starts, `replace` keeps the first character. */
  lemma RemoveAllStep(s: string, p: string)
    requires |p| > 0 && |s| >= |p| && s[..|p|] != p
    ensures RemoveAll(s, p) == [s[0]] + RemoveAll(s[1..], p)
  {
  }

  lemma LeadingCountCons(c: char, t: string)
    ensures LeadingCount([c] + t, c) == 1 + LeadingCount(t, c)
  {
    assert ([c] + t)[0] == c;
    assert ([c] + t)[1..] == t;
  }

  /** A run of one or two backticks before a non-fence survives removal whole. */
  lemma LoneTicks(s: string, rest: string)
    requires |s| >= 3 && s[0] == '`' && (s[1] != '`' || s[2] != '`')
    requires LeadingCount(rest, '`') == LeadingCount(s[1..], '`') % 3
    ensures LeadingCount(['`'] + rest, '`') == LeadingCount(s, '`') % 3
  {
    var t := s[1..];
    LeadingCountCons('`', rest);
    assert s == ['`'] + t;
    LeadingCountCons('`', t);
    assert t[0] == s[1];
    if s[1] != '`' {
      assert LeadingCount(t, '`') == 0;
    } else {
      assert t == ['`'] + t[1..];
      LeadingCountCons('`', t[1..]);
      assert t[1..][0] == s[2];
      assert LeadingCount(t[1..], '`') == 0;
    }
  }

  /** After `replace("```", "")` no fence is left: removal never joins two
      partial runs of backticks into a new fence. */
  lemma {:induction false} RemoveFenceLeavesNone(s: string)
    ensures !Contains(RemoveAll(s, Fence), Fence)
    decreases |s|
  {
    var r := RemoveAll(s, Fence);
    if |s| < 3 {
      assert |r| < 3;
    } else if s[..3] == Fence {
      RemoveFenceLeavesNone(s[3..]);
    } else {
      var rest := RemoveAll(s[1..], Fence);
      RemoveFenceLeavesNone(s[1..]);
      assert r == [s[0]] + rest;
      RemoveFenceLeadingRun(s);
      assert s[0] != '`' || s[1] != '`' || s[2] != '`';
      assert LeadingCount(s, '`') < 3;
      forall i | 0 <= i && i + 3 <= |r|
        ensures !OccursAt(r, Fence, i)
      {
        if i > 0 {
          assert r[i..i + 3] == rest[i - 1..i + 2];
          assert !OccursAt(rest, Fence, i - 1);
        } else {
          var n := LeadingCount(r, '`');
          assert n < 3 && n < |r|;
          assert r[n] != '`';
          assert r[..3][n] == r[n];
        }
      }
    }
  }

  /** A piece cut out of a fence-free string is fence-free. */
  lemma SliceNoFence(s: string, i: int, j: int)
    requires 0 <= i <= j <= |s|
    requires !Contains(s, Fence)
    ensures !Contains(s[i..j], Fence)
  {
    forall k | 0 <= k && k + 3 <= j - i
      ensures !OccursAt(s[i..j], Fence, k)
    {
      var piece := s[i..j][k..k + 3];
      assert forall m :: 0 <= m < 3 ==> piece[m] == s[i + k + m];
      assert piece == s[i + k..i + k + 3];
      assert !OccursAt(s, Fence, i + k);
    }
  }

  /* ---------------------------------------------------------------------- */
  /* Python's `str(n)` for a natural number.                                 */

  function Digit(d: nat): (c: char)
    requires d < 10
  {
    ['0', '1', '2', '3', '4', '5', '6', '7', '8', '9'][d]
  }

  /** The decimal spelling of `n`, without leading zeros. */
  function NatToString(n: nat): (r: string)
    ensures |r| >= 1
    ensures n < 10 <==> |r| == 1
    ensures r[0] != '0' || n == 0
  {
    if n < 10 then [Digit(n)] else NatToString(n / 10) + [Digit(n % 10)]
  }

  lemma DigitInjective(a: nat, b: nat)
    requires a < 10 && b < 10 && Digit(a) == Digit(b)
    ensures a == b
  {
  }

  /** Distinct numbers are spelled differently, so renumbered ids never clash. */
  lemma {:induction false} NatToStringInjective(a: nat, b: nat)
    requires NatToString(a) == NatToString(b)
    ensures a == b
  {
    var ra, rb := NatToString(a), NatToString(b);
    if a < 10 || b < 10 {
      assert a < 10 && b < 10;
      DigitInjective(a, b);
    } else {
      assert ra[|ra| - 1] == Digit(a % 10) && rb[|rb| - 1] == Digit(b % 10);
      DigitInjective(a % 10, b % 10);
      assert ra[..|ra| - 1] == NatToString(a / 10);
      assert rb[..|rb| - 1] == NatToString(b / 10);
      NatToStringInjective(a / 10, b / 10);
    }
  }
}
