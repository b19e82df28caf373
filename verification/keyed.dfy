/**
 * The one deduplication rule every merge in the backend uses: a list gains
 * the incoming items whose natural key was not among its own keys when the
 * merge of that list began. The key set is a snapshot, so two incoming items
 * that share a key the list did not have are both appended.
 */
module Keyed {

  /** `a` is a prefix of `b`: what an append-only list keeps. */
  predicate IsPrefix<T(==)>(a: seq<T>, b: seq<T>) {
    |a| <= |b| && b[..|a|] == a
  }

  lemma PrefixOfPrefix<T>(a: seq<T>, b: seq<T>, c: seq<T>)
    requires IsPrefix(a, b) && IsPrefix(b, c)
    ensures IsPrefix(a, c)
  {
    assert c[..|a|] == c[..|b|][..|a|];
  }

  /** `{key(x) for x in xs}`. */
  function Keys<T(==,!new)>(xs: seq<T>, key: T -> string): set<string> {
    set x | x in xs :: key(x)
  }

  /** The incoming items whose key is not in `seen`, in their original order. */
  function Unseen<T(==,!new)>(incoming: seq<T>, seen: set<string>, key: T -> string): (r: seq<T>)
    ensures |r| <= |incoming|
    ensures forall x :: x in r <==> x in incoming && key(x) !in seen
  {
    if |incoming| == 0 then []
    else
      var rest := Unseen(incoming[1..], seen, key);
      assert forall x :: x in incoming <==> x == incoming[0] || x in incoming[1..];
      if key(incoming[0]) in seen then rest else [incoming[0]] + rest
  }

  /** The list after the loop `for x in incoming: if key(x) not in seen: list.append(x)`,
      where `seen` was computed from the list before the loop. */
  function AppendNew<T(==,!new)>(existing: seq<T>, incoming: seq<T>, key: T -> string): (r: seq<T>)
    ensures |existing| <= |r| <= |existing| + |incoming|
    ensures r[..|existing|] == existing
    ensures forall x :: x in r[|existing|..] <==> x in incoming && key(x) !in Keys(existing, key)
  {
    existing + Unseen(incoming, Keys(existing, key), key)
  }

  /** Nothing is unseen when every incoming key has been seen. */
  lemma {:induction false} UnseenNone<T(!new)>(incoming: seq<T>, seen: set<string>, key: T -> string)
    requires forall x :: x in incoming ==> key(x) in seen
    ensures Unseen(incoming, seen, key) == []
  {
    if |incoming| > 0 {
      assert incoming[0] in incoming;
      assert forall x :: x in incoming[1..] ==> x in incoming;
      UnseenNone(incoming[1..], seen, key);
    }
  }

  /** Everything is unseen when no incoming key has been seen, duplicates included. */
  lemma {:induction false} UnseenAll<T(!new)>(incoming: seq<T>, seen: set<string>, key: T -> string)
    requires forall x :: x in incoming ==> key(x) !in seen
    ensures Unseen(incoming, seen, key) == incoming
  {
    if |incoming| > 0 {
      assert incoming[0] in incoming;
      assert forall x :: x in incoming[1..] ==> x in incoming;
      UnseenAll(incoming[1..], seen, key);
      assert incoming == [incoming[0]] + incoming[1..];
    }
  }

  /** Appending the same incoming list a second time adds nothing. */
  lemma AppendNewIdempotent<T(!new)>(existing: seq<T>, incoming: seq<T>, key: T -> string)
    ensures AppendNew(AppendNew(existing, incoming, key), incoming, key) == AppendNew(existing, incoming, key)
  {
    var once := AppendNew(existing, incoming, key);
    forall x | x in incoming
      ensures key(x) in Keys(once, key)
    {
      if key(x) in Keys(existing, key) {
        var y :| y in existing && key(y) == key(x);
        assert y in once by {
          var k :| 0 <= k < |existing| && existing[k] == y;
          assert once[k] == y;
        }
      } else {
        assert x in once[|existing|..];
      }
    }
    UnseenNone(incoming, Keys(once, key), key);
  }

  /** When none of the incoming keys is known yet, the whole incoming list is
      appended, including items that share a key with each other. */
  lemma AppendNewAllFresh<T(!new)>(existing: seq<T>, incoming: seq<T>, key: T -> string)
    requires forall x :: x in incoming ==> key(x) !in Keys(existing, key)
    ensures AppendNew(existing, incoming, key) == existing + incoming
  {
    UnseenAll(incoming, Keys(existing, key), key);
  }

  /** No two items of the list share a key. */
  ghost predicate DistinctKeys<T>(xs: seq<T>, key: T -> string) {
    forall i, j :: 0 <= i < j < |xs| ==> key(xs[i]) != key(xs[j])
  }

  /** Filtering keeps keys distinct. */
  lemma {:induction false} UnseenDistinct<T(!new)>(incoming: seq<T>, seen: set<string>, key: T -> string)
    requires DistinctKeys(incoming, key)
    ensures DistinctKeys(Unseen(incoming, seen, key), key)
  {
    if |incoming| > 0 {
      var tail := incoming[1..];
      assert DistinctKeys(tail, key) by {
        forall i, j | 0 <= i < j < |tail| ensures key(tail[i]) != key(tail[j]) {
          assert tail[i] == incoming[i + 1] && tail[j] == incoming[j + 1];
        }
      }
      UnseenDistinct(tail, seen, key);
      var rest := Unseen(tail, seen, key);
      if key(incoming[0]) !in seen {
        var r := [incoming[0]] + rest;
        forall j | 1 <= j < |r| ensures key(r[0]) != key(r[j]) {
          assert r[j] in rest;
          var m :| 0 <= m < |tail| && tail[m] == r[j];
          assert tail[m] == incoming[m + 1];
        }
        forall i, j | 0 <= i < j < |r| ensures key(r[i]) != key(r[j]) {
          if i > 0 {
            assert r[i] == rest[i - 1] && r[j] == rest[j - 1];
          }
        }
      }
    }
  }

  /** If the list and the incoming items each have distinct keys, so does
      the list after the merge. */
  lemma AppendNewDistinct<T(!new)>(existing: seq<T>, incoming: seq<T>, key: T -> string)
    requires DistinctKeys(existing, key) && DistinctKeys(incoming, key)
    ensures DistinctKeys(AppendNew(existing, incoming, key), key)
  {
    var seen := Keys(existing, key);
    var added := Unseen(incoming, seen, key);
    UnseenDistinct(incoming, seen, key);
    var r := existing + added;
    forall i, j | 0 <= i < j < |r| ensures key(r[i]) != key(r[j]) {
      if j < |existing| {
        assert r[i] == existing[i] && r[j] == existing[j];
      } else if i >= |existing| {
        assert r[i] == added[i - |existing|] && r[j] == added[j - |existing|];
      } else {
        assert r[i] == existing[i] && r[j] == added[j - |existing|];
        assert r[i] in existing;
        assert r[j] in added;
      }
    }
  }

  /* ---------------------------------------------------------------------- */
  /* Order and multiplicity.                                                  */

  /** Two increasing sequences with the same elements are equal. */
  lemma {:induction false} IncreasingSame(a: seq<nat>, b: seq<nat>)
    requires forall x, y :: 0 <= x < y < |a| ==> a[x] < a[y]
    requires forall x, y :: 0 <= x < y < |b| ==> b[x] < b[y]
    requires forall n :: n in a <==> n in b
    ensures a == b
    decreases |a| + |b|
  {
    if |a| > 0 {
      assert a[0] in a;
    }
    if |b| > 0 {
      assert b[0] in b;
    }
    if |a| > 0 {
      assert a[0] in b && b[0] in a;
      assert a[0] == b[0] by {
        var x :| 0 <= x < |b| && b[x] == a[0];
        var y :| 0 <= y < |a| && a[y] == b[0];
        assert a[0] <= a[y] && b[0] <= b[x];
      }
      forall n ensures n in a[1..] <==> n in b[1..] {
        if n in a[1..] {
          var x :| 1 <= x < |a| && a[x] == n;
          assert n in a && n != b[0];
          var y :| 0 <= y < |b| && b[y] == n;
          assert b[1..][y - 1] == n;
        }
        if n in b[1..] {
          var y :| 1 <= y < |b| && b[y] == n;
          assert n in b && n != a[0];
          var x :| 0 <= x < |a| && a[x] == n;
          assert a[1..][x - 1] == n;
        }
      }
      IncreasingSame(a[1..], b[1..]);
    }
  }

  /** `r` lists the items of `xs` at the positions `pos`, which increase
      strictly: `r` is a subsequence of `xs` in its order. */
  ghost predicate Picks<T>(r: seq<T>, xs: seq<T>, pos: seq<nat>) {
    && |pos| == |r|
    && (forall i :: 0 <= i < |pos| ==> pos[i] < |xs| && r[i] == xs[pos[i]])
    && (forall i, j :: 0 <= i < j < |pos| ==> pos[i] < pos[j])
  }

  /** Two subsequences of `xs` taken at the same set of positions are equal. */
  lemma PicksSame<T>(r1: seq<T>, r2: seq<T>, xs: seq<T>, p1: seq<nat>, p2: seq<nat>)
    requires Picks(r1, xs, p1) && Picks(r2, xs, p2)
    requires forall k :: 0 <= k < |xs| ==> (k in p1 <==> k in p2)
    ensures r1 == r2
  {
    forall n ensures n in p1 <==> n in p2 {
      if n in p1 {
        var i :| 0 <= i < |p1| && p1[i] == n;
      }
      if n in p2 {
        var i :| 0 <= i < |p2| && p2[i] == n;
      }
    }
    IncreasingSame(p1, p2);
  }

  /** The positions one further on. */
  function Shifted(pos: seq<nat>): (r: seq<nat>)
    ensures |r| == |pos| && forall i :: 0 <= i < |pos| ==> r[i] == pos[i] + 1
  {
    seq(|pos|, i requires 0 <= i < |pos| => pos[i] + 1)
  }

  /** The positions of a subsequence of `[x] + xs` built from one of `xs`:
      those of `xs` one further on, after position 0 when `x` is kept. */
  function ConsPositions(keep: bool, pos: seq<nat>): seq<nat> {
    if keep then [0] + Shifted(pos) else Shifted(pos)
  }

  /** Dropping the head: the positions move one on. */
  lemma PicksSkip<T>(x: T, xs: seq<T>, r: seq<T>, pos: seq<nat>)
    requires Picks(r, xs, pos)
    ensures Picks(r, [x] + xs, Shifted(pos))
    ensures 0 !in Shifted(pos)
    ensures forall k :: 1 <= k <= |xs| ==> (k in Shifted(pos) <==> k - 1 in pos)
  {
    var p := Shifted(pos);
    forall i | 0 <= i < |pos| ensures p[i] < |[x] + xs| && r[i] == ([x] + xs)[p[i]] {
      assert ([x] + xs)[pos[i] + 1] == xs[pos[i]];
    }
    forall k | 1 <= k <= |xs| ensures k in p <==> k - 1 in pos {
      if k in p {
        var i :| 0 <= i < |p| && p[i] == k;
      }
      if k - 1 in pos {
        var i :| 0 <= i < |pos| && pos[i] == k - 1;
        assert p[i] == k;
      }
    }
  }

  /** Keeping the head: position 0 comes first. */
  lemma PicksKeep<T>(x: T, xs: seq<T>, r: seq<T>, pos: seq<nat>)
    requires Picks(r, xs, pos)
    ensures Picks([x] + r, [x] + xs, [0] + Shifted(pos))
    ensures 0 in [0] + Shifted(pos)
    ensures forall k :: 1 <= k <= |xs| ==> (k in [0] + Shifted(pos) <==> k - 1 in pos)
  {
    PicksSkip(x, xs, r, pos);
    var p := [0] + Shifted(pos);
    assert p[0] == 0;
    forall i | 1 <= i < |p| ensures p[i] == Shifted(pos)[i - 1] && ([x] + r)[i] == r[i - 1] {
    }
    forall k | 1 <= k <= |xs| ensures k in p <==> k in Shifted(pos) {
      if k in p {
        var i :| 0 <= i < |p| && p[i] == k;
        assert Shifted(pos)[i - 1] == k;
      }
    }
  }

  lemma PicksCons<T>(x: T, xs: seq<T>, r: seq<T>, pos: seq<nat>, keep: bool)
    requires Picks(r, xs, pos)
    ensures Picks(if keep then [x] + r else r, [x] + xs, ConsPositions(keep, pos))
    ensures 0 in ConsPositions(keep, pos) <==> keep
    ensures forall k :: 1 <= k <= |xs| ==> (k in ConsPositions(keep, pos) <==> k - 1 in pos)
  {
    if keep {
      PicksKeep(x, xs, r, pos);
    } else {
      PicksSkip(x, xs, r, pos);
    }
  }

  /** `r` holds, in their order and once each, exactly the items of
      `incoming` whose key is not in `seen`. */
  ghost predicate UnseenOf<T>(r: seq<T>, incoming: seq<T>, seen: set<string>, key: T -> string) {
    exists pos :: Picks(r, incoming, pos) && forall k :: 0 <= k < |incoming| ==> (k in pos <==> key(incoming[k]) !in seen)
  }

  /** `Unseen` is the one list that `UnseenOf` describes. */
  lemma UnseenCharacterised<T(!new)>(incoming: seq<T>, seen: set<string>, key: T -> string, r: seq<T>)
    ensures UnseenOf(r, incoming, seen, key) <==> r == Unseen(incoming, seen, key)
  {
    UnseenOrder(incoming, seen, key);
    if UnseenOf(r, incoming, seen, key) {
      var u := Unseen(incoming, seen, key);
      var p1 :| Picks(r, incoming, p1) && forall k :: 0 <= k < |incoming| ==> (k in p1 <==> key(incoming[k]) !in seen);
      var p2 :| Picks(u, incoming, p2) && forall k :: 0 <= k < |incoming| ==> (k in p2 <==> key(incoming[k]) !in seen);
      PicksSame(r, u, incoming, p1, p2);
    }
  }

  lemma {:induction false} UnseenOrder<T(!new)>(incoming: seq<T>, seen: set<string>, key: T -> string)
    ensures UnseenOf(Unseen(incoming, seen, key), incoming, seen, key)
  {
    if |incoming| == 0 {
      assert Picks([], incoming, []);
    } else {
      UnseenOrder(incoming[1..], seen, key);
      var p :| Picks(Unseen(incoming[1..], seen, key), incoming[1..], p)
        && forall k :: 0 <= k < |incoming[1..]| ==> (k in p <==> key(incoming[1..][k]) !in seen);
      UnseenStep(incoming, seen, key, p);
    }
  }

  /** One step of `UnseenOrder`: from the positions kept in the tail to those
      kept in the whole list. */
  lemma UnseenStep<T(!new)>(incoming: seq<T>, seen: set<string>, key: T -> string, p: seq<nat>)
    requires |incoming| > 0
    requires Picks(Unseen(incoming[1..], seen, key), incoming[1..], p)
    requires forall k :: 0 <= k < |incoming[1..]| ==> (k in p <==> key(incoming[1..][k]) !in seen)
    ensures UnseenOf(Unseen(incoming, seen, key), incoming, seen, key)
  {
    var x := incoming[0];
    var tail := incoming[1..];
    var rest := Unseen(tail, seen, key);
    assert [x] + tail == incoming;
    if key(x) !in seen {
      PicksKeep(x, tail, rest, p);
      var q := [0] + Shifted(p);
      assert Unseen(incoming, seen, key) == [x] + rest;
      UnseenPositions(incoming, seen, key, p, q);
    } else {
      PicksSkip(x, tail, rest, p);
      var q := Shifted(p);
      assert Unseen(incoming, seen, key) == rest;
      UnseenPositions(incoming, seen, key, p, q);
    }
  }

  /** The kept positions of the whole list, from those of its tail. */
  lemma UnseenPositions<T>(incoming: seq<T>, seen: set<string>, key: T -> string, p: seq<nat>, q: seq<nat>)
    requires |incoming| > 0
    requires forall k :: 0 <= k < |incoming[1..]| ==> (k in p <==> key(incoming[1..][k]) !in seen)
    requires 0 in q <==> key(incoming[0]) !in seen
    requires forall k :: 1 <= k <= |incoming[1..]| ==> (k in q <==> k - 1 in p)
    ensures forall k :: 0 <= k < |incoming| ==> (k in q <==> key(incoming[k]) !in seen)
  {
    forall k | 1 <= k < |incoming| ensures k in q <==> key(incoming[k]) !in seen {
      assert incoming[k] == incoming[1..][k - 1];
    }
  }

  /** What `AppendNew` adds is the incoming items with a key the list lacked,
      in their order and once each. */
  lemma AppendNewOrder<T(!new)>(existing: seq<T>, incoming: seq<T>, key: T -> string)
    ensures UnseenOf(AppendNew(existing, incoming, key)[|existing|..], incoming, Keys(existing, key), key)
  {
    UnseenOrder(incoming, Keys(existing, key), key);
    assert AppendNew(existing, incoming, key)[|existing|..] == Unseen(incoming, Keys(existing, key), key);
  }
}
