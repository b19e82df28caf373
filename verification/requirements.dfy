/**
 * `RequirementsDocument` and its `update` merge, as written twice in the
 * extraction modules. The two copies differ only in the key that decides
 * whether an incoming requirement is a duplicate: the description in the
 * deduplicating extractor, the id in the older one. Both take the set of
 * categories once, when `update` is called, and the key set of a group once,
 * before that group's requirements are appended.
 */
module Requirements {
  import opened Text
  import Keyed

  /** A requirement of the deduplicating extractor. */
  datatype Requirement = Requirement(
    id: string,
    description: string,
    reference: string,
    category: string,
    classification: string,
    where: string,
    when: string,
    level: string)

  /** A requirement of the older extractor, and of the client: no `level`. */
  datatype BasicRequirement = BasicRequirement(
    id: string,
    description: string,
    reference: string,
    category: string,
    classification: string,
    where: string,
    when: string)

  datatype Group<R> = Group(description: string, category: string, requirements: seq<R>)

  /** `RequirementsDocument.groups`. */
  type Document<R> = seq<Group<R>>

  function DedupKey(r: Requirement): string { r.description }
  function BasicKey(r: BasicRequirement): string { r.id }

  /** `{group.category for group in self.groups}`. */
  function Categories<R>(doc: Document<R>): set<string> {
    set j | 0 <= j < |doc| :: doc[j].category
  }

  /** The position `next(g for g in self.groups if g.category == c)` finds. */
  function FirstWith<R>(doc: Document<R>, c: string): (k: nat)
    requires c in Categories(doc)
    ensures k < |doc| && doc[k].category == c
    ensures forall j :: 0 <= j < k ==> doc[j].category != c
  {
    if doc[0].category == c then 0
    else
      assert c in Categories(doc[1..]) by {
        var j :| 0 <= j < |doc| && doc[j].category == c;
        assert doc[1..][j - 1] == doc[j];
      }
      1 + FirstWith(doc[1..], c)
  }

  /** The update of one existing group by an incoming group of the same
      category: the incoming requirements whose key the group did not have
      are appended, and a non-empty incoming description replaces the old one. */
  function MergeGroup<R(==,!new)>(existing: Group<R>, incoming: Group<R>, key: R -> string): (r: Group<R>)
    ensures r.category == existing.category
    ensures incoming.description != "" ==> r.description == incoming.description
    ensures incoming.description == "" ==> r.description == existing.description
    ensures Keyed.IsPrefix(existing.requirements, r.requirements)
    ensures forall x :: x in r.requirements[|existing.requirements|..] <==>
              x in incoming.requirements && key(x) !in Keyed.Keys(existing.requirements, key)
  {
    Group(if incoming.description != "" then incoming.description else existing.description,
          existing.category,
          Keyed.AppendNew(existing.requirements, incoming.requirements, key))
  }

  /** The loop of `update` over the incoming groups, with `snapshot` the
      categories the document had when the call began. */
  function UpdateFrom<R(==,!new)>(doc: Document<R>, incoming: seq<Group<R>>, snapshot: set<string>, key: R -> string): (r: Document<R>)
    requires snapshot <= Categories(doc)
    ensures snapshot <= Categories(r)
    decreases |incoming|
  {
    if |incoming| == 0 then doc
    else
      var g := incoming[0];
      if g.category !in snapshot then
        assert Categories(doc) <= Categories(doc + [g]) by {
          forall c | c in Categories(doc) ensures c in Categories(doc + [g]) {
            var j :| 0 <= j < |doc| && doc[j].category == c;
            assert (doc + [g])[j] == doc[j];
          }
        }
        UpdateFrom(doc + [g], incoming[1..], snapshot, key)
      else
        var k := FirstWith(doc, g.category);
        var next := doc[k := MergeGroup(doc[k], g, key)];
        SameCategories(doc, next);
        UpdateFrom(next, incoming[1..], snapshot, key)
  }

  /** `RequirementsDocument.update`. */
  function Update<R(==,!new)>(doc: Document<R>, other: Document<R>, key: R -> string): (r: Document<R>)
    ensures Categories(doc) <= Categories(r)
  {
    UpdateFrom(doc, other, Categories(doc), key)
  }

  /** The deduplicating extractor's `update`: requirements keyed by description. */
  function MergeDeduped(doc: Document<Requirement>, other: Document<Requirement>): Document<Requirement> {
    Update(doc, other, DedupKey)
  }

  /** The older extractor's `update`: requirements keyed by id. */
  function MergeBasic(doc: Document<BasicRequirement>, other: Document<BasicRequirement>): Document<BasicRequirement> {
    Update(doc, other, BasicKey)
  }

  /** The incoming groups whose category is not in `snapshot`, in order. */
  function NewGroups<R>(incoming: seq<Group<R>>, snapshot: set<string>): (r: seq<Group<R>>)
    ensures |r| <= |incoming|
  {
    if |incoming| == 0 then []
    else if incoming[0].category !in snapshot then [incoming[0]] + NewGroups(incoming[1..], snapshot)
    else NewGroups(incoming[1..], snapshot)
  }

  /* ---------------------------------------------------------------------- */
  /* Facts about positions and categories.                                    */

  ghost predicate SameShape<R>(a: Document<R>, b: Document<R>) {
    |a| == |b| && forall j :: 0 <= j < |a| ==> a[j].category == b[j].category
  }

  lemma SameCategories<R>(a: Document<R>, b: Document<R>)
    requires SameShape(a, b)
    ensures Categories(a) == Categories(b)
  {
    forall c | c in Categories(a) ensures c in Categories(b) {
      var j :| 0 <= j < |a| && a[j].category == c;
    }
    forall c | c in Categories(b) ensures c in Categories(a) {
      var j :| 0 <= j < |b| && b[j].category == c;
    }
  }

  /** The first position with a category is determined by its defining property. */
  lemma FirstWithIs<R>(doc: Document<R>, c: string, k: nat)
    requires k < |doc| && doc[k].category == c
    requires forall j :: 0 <= j < k ==> doc[j].category != c
    ensures c in Categories(doc)
    ensures FirstWith(doc, c) == k
  {
    var m := FirstWith(doc, c);
    assert !(m < k);
    assert !(k < m);
  }

  /** Only categories matter to `FirstWith`. */
  lemma FirstWithSameShape<R>(a: Document<R>, b: Document<R>, c: string)
    requires SameShape(a, b) && c in Categories(a)
    ensures c in Categories(b) && FirstWith(a, c) == FirstWith(b, c)
  {
    FirstWithIs(b, c, FirstWith(a, c));
  }

  /** A category already present is found at the same place after an append. */
  lemma FirstWithAppend<R>(doc: Document<R>, g: Group<R>, c: string)
    requires c in Categories(doc)
    ensures c in Categories(doc + [g]) && FirstWith(doc + [g], c) == FirstWith(doc, c)
  {
    var k := FirstWith(doc, c);
    assert (doc + [g])[k] == doc[k];
    FirstWithIs(doc + [g], c, k);
  }

  /** A category found in a prefix is found there in the whole document. */
  lemma FirstWithPrefix<R>(doc: Document<R>, n: nat, c: string)
    requires n <= |doc| && c in Categories(doc[..n])
    ensures c in Categories(doc) && FirstWith(doc, c) == FirstWith(doc[..n], c) < n
  {
    var k := FirstWith(doc[..n], c);
    assert doc[k] == doc[..n][k];
    FirstWithIs(doc, c, k);
  }

  /* ---------------------------------------------------------------------- */
  /* The shape of an update.                                                  */

  /** Group `j` of `doc` is the one an incoming group of its category merges into. */
  ghost predicate Touched<R>(doc: Document<R>, j: int, incoming: seq<Group<R>>)
    requires 0 <= j < |doc|
  {
    exists g :: g in incoming && g.category == doc[j].category && j == FirstWith(doc, doc[j].category)
  }

  /** The groups present at the start keep their place and category and only
      gain requirements at the end; a group is changed only when it is the
      first one with the category of some incoming group; and the incoming
      groups of new categories are appended, whole and in order, at the end. */
  lemma UpdateShape<R(!new)>(doc: Document<R>, other: Document<R>, key: R -> string)
    ensures var r := Update(doc, other, key);
      && |r| == |doc| + |NewGroups(other, Categories(doc))|
      && r[|doc|..] == NewGroups(other, Categories(doc))
      && (forall j :: 0 <= j < |doc| ==> r[j].category == doc[j].category)
      && (forall j :: 0 <= j < |doc| ==> Keyed.IsPrefix(doc[j].requirements, r[j].requirements))
      && (forall j :: 0 <= j < |doc| && !Touched(doc, j, other) ==> r[j] == doc[j])
  {
    assert doc[..|doc|] == doc;
    UpdateFromShape(doc, other, Categories(doc), key, |doc|, doc, other);
    var r := Update(doc, other, key);
    assert Tracks(r, |doc|, doc, other);
    assert forall j :: 0 <= j < |doc| ==> r[j] == r[..|doc|][j];
  }

  /** What holds of the partly updated document `cur` against the original
      `doc` (its first `n` groups), while the groups of `all` are merged in. */
  ghost predicate Tracks<R>(cur: Document<R>, n: nat, doc: Document<R>, all: seq<Group<R>>) {
    && n <= |cur| && |doc| == n
    && SameShape(cur[..n], doc)
    && (forall j :: 0 <= j < n ==> Keyed.IsPrefix(doc[j].requirements, cur[j].requirements))
    && (forall j :: 0 <= j < n && !Touched(doc, j, all) ==> cur[j] == doc[j])
  }

  lemma TracksAppend<R>(cur: Document<R>, n: nat, doc: Document<R>, all: seq<Group<R>>, g: Group<R>)
    requires Tracks(cur, n, doc, all)
    ensures Tracks(cur + [g], n, doc, all) && (cur + [g])[n..] == cur[n..] + [g]
  {
    var next := cur + [g];
    assert next[..n] == cur[..n];
    assert forall j :: 0 <= j < n ==> next[j] == cur[j];
  }

  lemma TracksMerge<R(!new)>(cur: Document<R>, n: nat, doc: Document<R>, all: seq<Group<R>>, g: Group<R>, key: R -> string)
    requires Tracks(cur, n, doc, all) && g in all && g.category in Categories(doc)
    ensures g.category in Categories(cur)
    ensures var k := FirstWith(cur, g.category);
      && k < n
      && Tracks(cur[k := MergeGroup(cur[k], g, key)], n, doc, all)
      && cur[k := MergeGroup(cur[k], g, key)][n..] == cur[n..]
  {
    SameCategories(cur[..n], doc);
    FirstWithPrefix(cur, n, g.category);
    var k := FirstWith(cur, g.category);
    FirstWithSameShape(cur[..n], doc, g.category);
    var merged := MergeGroup(cur[k], g, key);
    var next := cur[k := merged];
    assert next[..n] == cur[..n][k := merged];
    assert SameShape(next[..n], doc);
    forall j | 0 <= j < n
      ensures Keyed.IsPrefix(doc[j].requirements, next[j].requirements)
    {
      if j == k {
        Keyed.PrefixOfPrefix(doc[j].requirements, cur[j].requirements, merged.requirements);
      }
    }
    assert Touched(doc, k, all) by {
      assert g in all && g.category == doc[k].category && k == FirstWith(doc, doc[k].category);
    }
    assert next[n..] == cur[n..];
  }

  lemma {:induction false} UpdateFromShape<R(!new)>(cur: Document<R>, rest: seq<Group<R>>, snapshot: set<string>,
                                                    key: R -> string, n: nat, doc: Document<R>, all: seq<Group<R>>)
    requires Tracks(cur, n, doc, all)
    requires forall g :: g in rest ==> g in all
    requires snapshot == Categories(doc)
    ensures snapshot <= Categories(cur)
    ensures var r := UpdateFrom(cur, rest, snapshot, key);
      && |r| == |cur| + |NewGroups(rest, snapshot)|
      && r[n..] == cur[n..] + NewGroups(rest, snapshot)
      && Tracks(r, n, doc, all)
    decreases |rest|
  {
    SameCategories(cur[..n], doc);
    PrefixCategories(cur, n);
    if |rest| == 0 {
      assert cur[n..] + [] == cur[n..];
    } else {
      var g := rest[0];
      assert forall h :: h in rest[1..] ==> h in rest;
      if g.category !in snapshot {
        TracksAppend(cur, n, doc, all, g);
        UpdateFromShape(cur + [g], rest[1..], snapshot, key, n, doc, all);
        assert NewGroups(rest, snapshot) == [g] + NewGroups(rest[1..], snapshot);
        Associative(cur[n..], [g], NewGroups(rest[1..], snapshot));
      } else {
        TracksMerge(cur, n, doc, all, g, key);
        var k := FirstWith(cur, g.category);
        UpdateFromShape(cur[k := MergeGroup(cur[k], g, key)], rest[1..], snapshot, key, n, doc, all);
      }
    }
  }

  lemma PrefixCategories<R>(cur: Document<R>, n: nat)
    requires n <= |cur|
    ensures Categories(cur[..n]) <= Categories(cur)
  {
    forall c | c in Categories(cur[..n]) ensures c in Categories(cur) {
      var j :| 0 <= j < n && cur[..n][j].category == c;
      assert cur[j] == cur[..n][j];
    }
  }

  lemma Associative<T>(a: seq<T>, b: seq<T>, c: seq<T>)
    ensures (a + b) + c == a + (b + c)
  {
  }

  /* ---------------------------------------------------------------------- */
  /* One incoming group.                                                      */

  /** A partial holding one group of a new category adds it at the end. */
  lemma UpdateOneNew<R(!new)>(doc: Document<R>, g: Group<R>, key: R -> string)
    requires g.category !in Categories(doc)
    ensures Update(doc, [g], key) == doc + [g]
  {
    var snapshot := Categories(doc);
    assert [g][1..] == [];
    CategoriesSnoc(doc, g);
    assert UpdateFrom(doc, [g], snapshot, key) == UpdateFrom(doc + [g], [], snapshot, key);
  }

  /** A partial holding one group of a known category merges it into the first
      group of that category and touches nothing else. */
  lemma UpdateOneKnown<R(!new)>(doc: Document<R>, g: Group<R>, key: R -> string)
    requires g.category in Categories(doc)
    ensures var k := FirstWith(doc, g.category);
      Update(doc, [g], key) == doc[k := MergeGroup(doc[k], g, key)]
  {
    var snapshot := Categories(doc);
    assert [g][1..] == [];
    var k := FirstWith(doc, g.category);
    var next := doc[k := MergeGroup(doc[k], g, key)];
    SameCategories(doc, next);
    assert UpdateFrom(doc, [g], snapshot, key) == UpdateFrom(next, [], snapshot, key);
  }

  /* ---------------------------------------------------------------------- */
  /* Every incoming group.                                                    */

  /** Group `g` after each group of `incoming` with category `c` has been
      merged into it, in order. */
  function MergeAll<R(==,!new)>(g: Group<R>, incoming: seq<Group<R>>, c: string, key: R -> string): Group<R>
    decreases |incoming|
  {
    if |incoming| == 0 then g
    else MergeAll(if incoming[0].category == c then MergeGroup(g, incoming[0], key) else g, incoming[1..], c, key)
  }

  /** No earlier group of `doc` has the category of group `j`. */
  ghost predicate FirstOfCategory<R>(doc: Document<R>, j: int)
    requires 0 <= j < |doc|
  {
    forall m :: 0 <= m < j ==> doc[m].category != doc[j].category
  }

  /** The loop leaves the first group of a category present at its start
      where it is, with every incoming group of that category merged into it. */
  lemma {:induction false} UpdateFromAt<R(!new)>(cur: Document<R>, rest: seq<Group<R>>, snapshot: set<string>, key: R -> string, j: nat)
    requires snapshot <= Categories(cur)
    requires j < |cur| && cur[j].category in snapshot && FirstOfCategory(cur, j)
    ensures j < |UpdateFrom(cur, rest, snapshot, key)|
    ensures UpdateFrom(cur, rest, snapshot, key)[j] == MergeAll(cur[j], rest, cur[j].category, key)
    decreases |rest|
  {
    if |rest| > 0 {
      var g := rest[0];
      var c := cur[j].category;
      if g.category !in snapshot {
        var next := cur + [g];
        assert next[j] == cur[j];
        assert Categories(cur) <= Categories(next) by {
          CategoriesSnoc(cur, g);
        }
        assert FirstOfCategory(next, j) by {
          forall m | 0 <= m < j ensures next[m].category != c {
            assert next[m] == cur[m];
          }
        }
        UpdateFromAt(next, rest[1..], snapshot, key, j);
      } else {
        var k := FirstWith(cur, g.category);
        var next := cur[k := MergeGroup(cur[k], g, key)];
        SameCategories(cur, next);
        if g.category == c {
          FirstWithIs(cur, c, j);
        }
        assert next[j] == if g.category == c then MergeGroup(cur[j], g, key) else cur[j];
        UpdateFromAt(next, rest[1..], snapshot, key, j);
      }
    }
  }

  /** Whatever the incoming groups, the first group of each category already
      present ends up with every incoming group of its category merged into
      it, one after another in their order. */
  lemma UpdateTouched<R(!new)>(doc: Document<R>, other: Document<R>, key: R -> string)
    ensures forall j :: 0 <= j < |doc| && FirstOfCategory(doc, j) ==>
      j < |Update(doc, other, key)| && Update(doc, other, key)[j] == MergeAll(doc[j], other, doc[j].category, key)
  {
    forall j | 0 <= j < |doc| && FirstOfCategory(doc, j)
      ensures j < |Update(doc, other, key)| && Update(doc, other, key)[j] == MergeAll(doc[j], other, doc[j].category, key)
    {
      UpdateFromAt(doc, other, Categories(doc), key, j);
    }
  }

  /** A fold over groups none of which has category `c` changes nothing. */
  lemma {:induction false} MergeAllNone<R(!new)>(g: Group<R>, incoming: seq<Group<R>>, c: string, key: R -> string)
    requires forall m :: 0 <= m < |incoming| ==> incoming[m].category != c
    ensures MergeAll(g, incoming, c, key) == g
    decreases |incoming|
  {
    if |incoming| > 0 {
      MergeAllNone(g, incoming[1..], c, key);
    }
  }

  /** A fold over groups only one of which has category `c` merges that one. */
  lemma {:induction false} MergeAllOne<R(!new)>(g: Group<R>, incoming: seq<Group<R>>, c: string, key: R -> string, i: nat)
    requires i < |incoming| && incoming[i].category == c
    requires forall m :: 0 <= m < |incoming| && m != i ==> incoming[m].category != c
    ensures MergeAll(g, incoming, c, key) == MergeGroup(g, incoming[i], key)
    decreases |incoming|
  {
    if i == 0 {
      MergeAllNone(MergeGroup(g, incoming[0], key), incoming[1..], c, key);
    } else {
      MergeAllOne(g, incoming[1..], c, key, i - 1);
    }
  }

  /** When the incoming groups have distinct categories, each one of a known
      category is merged, alone, into the first group of that category. */
  lemma UpdateTouchedOnce<R(!new)>(doc: Document<R>, other: Document<R>, key: R -> string)
    requires DistinctCategories(other)
    ensures forall i :: 0 <= i < |other| && other[i].category in Categories(doc) ==>
      FirstWith(doc, other[i].category) < |Update(doc, other, key)|
      && Update(doc, other, key)[FirstWith(doc, other[i].category)]
         == MergeGroup(doc[FirstWith(doc, other[i].category)], other[i], key)
  {
    UpdateTouched(doc, other, key);
    forall i | 0 <= i < |other| && other[i].category in Categories(doc)
      ensures FirstWith(doc, other[i].category) < |Update(doc, other, key)|
      ensures Update(doc, other, key)[FirstWith(doc, other[i].category)]
              == MergeGroup(doc[FirstWith(doc, other[i].category)], other[i], key)
    {
      var k := FirstWith(doc, other[i].category);
      assert FirstOfCategory(doc, k);
      MergeAllOne(doc[k], other, other[i].category, key, i);
    }
  }

  lemma CategoriesSnoc<R>(doc: Document<R>, g: Group<R>)
    ensures Categories(doc + [g]) == Categories(doc) + {g.category}
  {
    assert (doc + [g])[|doc|] == g;
    assert forall j :: 0 <= j < |doc| ==> (doc + [g])[j] == doc[j];
  }

  /** The category set is a snapshot: two incoming groups of the same new
      category are both appended, and the document ends up with two groups of
      that category. */
  lemma UpdateTwiceNewCategory<R(!new)>(doc: Document<R>, g1: Group<R>, g2: Group<R>, key: R -> string)
    requires g1.category == g2.category && g1.category !in Categories(doc)
    ensures Update(doc, [g1, g2], key) == doc + [g1, g2]
  {
    var snapshot := Categories(doc);
    assert [g1, g2][1..] == [g2];
    assert [g2][1..] == [];
    CategoriesSnoc(doc, g1);
    CategoriesSnoc(doc + [g1], g2);
    assert UpdateFrom(doc, [g1, g2], snapshot, key) == UpdateFrom(doc + [g1], [g2], snapshot, key);
    assert UpdateFrom(doc + [g1], [g2], snapshot, key) == UpdateFrom(doc + [g1] + [g2], [], snapshot, key);
    assert doc + [g1] + [g2] == doc + [g1, g2];
  }

  /** The key set of a group is a snapshot too: when none of the incoming keys
      is known, every incoming requirement is appended, duplicates included. */
  lemma MergeGroupAllFresh<R(!new)>(existing: Group<R>, incoming: Group<R>, key: R -> string)
    requires forall x :: x in incoming.requirements ==> key(x) !in Keyed.Keys(existing.requirements, key)
    ensures MergeGroup(existing, incoming, key).requirements == existing.requirements + incoming.requirements
  {
    Keyed.AppendNewAllFresh(existing.requirements, incoming.requirements, key);
  }

  /** The requirements a group merge appends are the incoming ones with a key
      the group lacked, in their order and once each. */
  lemma MergeGroupOrder<R(!new)>(existing: Group<R>, incoming: Group<R>, key: R -> string)
    ensures Keyed.UnseenOf(MergeGroup(existing, incoming, key).requirements[|existing.requirements|..],
                           incoming.requirements, Keyed.Keys(existing.requirements, key), key)
  {
    Keyed.AppendNewOrder(existing.requirements, incoming.requirements, key);
  }

  /** Merging the same group again changes nothing. */
  lemma MergeGroupIdempotent<R(!new)>(x: Group<R>, g: Group<R>, key: R -> string)
    ensures MergeGroup(MergeGroup(x, g, key), g, key) == MergeGroup(x, g, key)
  {
    Keyed.AppendNewIdempotent(x.requirements, g.requirements, key);
  }

  /** A group merged into itself is unchanged. */
  lemma MergeGroupSelf<R(!new)>(g: Group<R>, key: R -> string)
    ensures MergeGroup(g, g, key) == g
  {
    forall x | x in g.requirements ensures key(x) in Keyed.Keys(g.requirements, key) {
    }
    Keyed.UnseenNone(g.requirements, Keyed.Keys(g.requirements, key), key);
  }

  /* ---------------------------------------------------------------------- */
  /* Idempotence.                                                             */

  /** No two groups share a category. */
  ghost predicate DistinctCategories<R>(gs: seq<Group<R>>) {
    forall i, j :: 0 <= i < j < |gs| ==> gs[i].category != gs[j].category
  }

  /** Merging `g` into `doc` would change nothing. */
  ghost predicate Absorbed<R(!new)>(doc: Document<R>, g: Group<R>, key: R -> string) {
    && g.category in Categories(doc)
    && MergeGroup(doc[FirstWith(doc, g.category)], g, key) == doc[FirstWith(doc, g.category)]
  }

  /** If the incoming groups have pairwise distinct categories, applying the
      same partial a second time leaves the document as the first time left it. */
  lemma UpdateIdempotent<R(!new)>(doc: Document<R>, other: Document<R>, key: R -> string)
    requires DistinctCategories(other)
    ensures Update(Update(doc, other, key), other, key) == Update(doc, other, key)
  {
    var once := Update(doc, other, key);
    assert [] + other == other;
    FirstPass(doc, other, Categories(doc), key, []);
    SecondPass(once, other, Categories(once), key);
  }

  /** Categories of a list of groups. */
  function CategoriesOf<R>(gs: seq<Group<R>>): set<string> {
    set j | 0 <= j < |gs| :: gs[j].category
  }

  /** After the first pass every incoming group is absorbed by the result. */
  lemma {:induction false} FirstPass<R(!new)>(cur: Document<R>, rest: seq<Group<R>>, snapshot: set<string>,
                                              key: R -> string, done: seq<Group<R>>)
    requires snapshot <= Categories(cur)
    requires Categories(cur) <= snapshot + CategoriesOf(done)
    requires forall m :: 0 <= m < |done| ==> Absorbed(cur, done[m], key)
    requires DistinctCategories(done + rest)
    ensures forall m :: 0 <= m < |done + rest| ==> Absorbed(UpdateFrom(cur, rest, snapshot, key), (done + rest)[m], key)
    decreases |rest|
  {
    if |rest| == 0 {
      assert done + rest == done;
    } else {
      var g := rest[0];
      assert done + rest == (done + [g]) + rest[1..];
      forall m | 0 <= m < |done| ensures done[m].category != g.category {
        assert (done + rest)[m] == done[m] && (done + rest)[|done|] == g;
      }
      if g.category !in snapshot {
        var next := cur + [g];
        FirstPassAppend(cur, snapshot, key, done, g);
        FirstPass(next, rest[1..], snapshot, key, done + [g]);
      } else {
        var k := FirstWith(cur, g.category);
        FirstPassMerge(cur, snapshot, key, done, g);
        FirstPass(cur[k := MergeGroup(cur[k], g, key)], rest[1..], snapshot, key, done + [g]);
      }
    }
  }

  lemma FirstPassAppend<R(!new)>(cur: Document<R>, snapshot: set<string>, key: R -> string, done: seq<Group<R>>, g: Group<R>)
    requires snapshot <= Categories(cur)
    requires Categories(cur) <= snapshot + CategoriesOf(done)
    requires forall m :: 0 <= m < |done| ==> Absorbed(cur, done[m], key)
    requires forall m :: 0 <= m < |done| ==> done[m].category != g.category
    requires g.category !in snapshot
    ensures snapshot <= Categories(cur + [g])
    ensures Categories(cur + [g]) <= snapshot + CategoriesOf(done + [g])
    ensures forall m :: 0 <= m < |done + [g]| ==> Absorbed(cur + [g], (done + [g])[m], key)
  {
    var next := cur + [g];
    assert g.category !in CategoriesOf(done);
    assert g.category !in Categories(cur);
    forall j | 0 <= j < |cur| ensures next[j] == cur[j] { }
    assert Categories(next) == Categories(cur) + {g.category} by {
      assert next[|cur|] == g;
    }
    assert CategoriesOf(done + [g]) == CategoriesOf(done) + {g.category} by {
      assert forall m :: 0 <= m < |done| ==> (done + [g])[m] == done[m];
      assert (done + [g])[|done|] == g;
    }
    forall m | 0 <= m < |done + [g]| ensures Absorbed(next, (done + [g])[m], key) {
      if m < |done| {
        var h := done[m];
        assert (done + [g])[m] == h;
        FirstWithAppend(cur, g, h.category);
      } else {
        assert (done + [g])[m] == g;
        FirstWithIs(next, g.category, |cur|);
        MergeGroupSelf(g, key);
      }
    }
  }

  lemma FirstPassMerge<R(!new)>(cur: Document<R>, snapshot: set<string>, key: R -> string, done: seq<Group<R>>, g: Group<R>)
    requires snapshot <= Categories(cur)
    requires Categories(cur) <= snapshot + CategoriesOf(done)
    requires forall m :: 0 <= m < |done| ==> Absorbed(cur, done[m], key)
    requires forall m :: 0 <= m < |done| ==> done[m].category != g.category
    requires g.category in snapshot
    ensures var next := cur[FirstWith(cur, g.category) := MergeGroup(cur[FirstWith(cur, g.category)], g, key)];
      && snapshot <= Categories(next)
      && Categories(next) <= snapshot + CategoriesOf(done + [g])
      && forall m :: 0 <= m < |done + [g]| ==> Absorbed(next, (done + [g])[m], key)
  {
    var k := FirstWith(cur, g.category);
    var next := cur[k := MergeGroup(cur[k], g, key)];
    assert SameShape(cur, next);
    SameCategories(cur, next);
    assert CategoriesOf(done) <= CategoriesOf(done + [g]) by {
      assert forall m :: 0 <= m < |done| ==> (done + [g])[m] == done[m];
    }
    forall m | 0 <= m < |done + [g]| ensures Absorbed(next, (done + [g])[m], key) {
      if m < |done| {
        var h := done[m];
        assert (done + [g])[m] == h;
        FirstWithSameShape(cur, next, h.category);
        var p := FirstWith(cur, h.category);
        assert cur[p].category == h.category;
        assert p != k;
      } else {
        assert (done + [g])[m] == g;
        FirstWithSameShape(cur, next, g.category);
        MergeGroupIdempotent(cur[k], g, key);
      }
    }
  }

  /** Merging groups that are all absorbed changes nothing. */
  lemma {:induction false} SecondPass<R(!new)>(doc: Document<R>, rest: seq<Group<R>>, snapshot: set<string>, key: R -> string)
    requires snapshot == Categories(doc)
    requires forall m :: 0 <= m < |rest| ==> Absorbed(doc, rest[m], key)
    ensures UpdateFrom(doc, rest, snapshot, key) == doc
    decreases |rest|
  {
    if |rest| > 0 {
      var g := rest[0];
      assert Absorbed(doc, g, key);
      var k := FirstWith(doc, g.category);
      assert doc[k := MergeGroup(doc[k], g, key)] == doc;
      assert forall m :: 0 <= m < |rest[1..]| ==> rest[1..][m] == rest[m + 1];
      SecondPass(doc, rest[1..], snapshot, key);
    }
  }

  /* ---------------------------------------------------------------------- */
  /* Invariants a merge keeps.                                                */

  lemma {:induction false} NewGroupsFacts<R>(incoming: seq<Group<R>>, snapshot: set<string>)
    ensures forall g :: g in NewGroups(incoming, snapshot) ==> g in incoming && g.category !in snapshot
    ensures DistinctCategories(incoming) ==> DistinctCategories(NewGroups(incoming, snapshot))
    decreases |incoming|
  {
    if |incoming| > 0 {
      var tail := incoming[1..];
      NewGroupsFacts(tail, snapshot);
      assert forall g :: g in tail ==> g in incoming;
      if DistinctCategories(incoming) {
        assert DistinctCategories(tail) by {
          forall i, j | 0 <= i < j < |tail| ensures tail[i].category != tail[j].category {
            assert tail[i] == incoming[i + 1] && tail[j] == incoming[j + 1];
          }
        }
        var rest := NewGroups(tail, snapshot);
        if incoming[0].category !in snapshot {
          var r := [incoming[0]] + rest;
          forall i, j | 0 <= i < j < |r| ensures r[i].category != r[j].category {
            if i == 0 {
              assert r[j] in rest;
              var m :| 0 <= m < |tail| && tail[m] == r[j];
              assert tail[m] == incoming[m + 1];
            } else {
              assert r[i] == rest[i - 1] && r[j] == rest[j - 1];
            }
          }
        }
      }
    }
  }

  /** If the document and the partial each have one group per category, so
      does the merged document: a category new to the document is added once. */
  lemma UpdateKeepsDistinctCategories<R(!new)>(doc: Document<R>, other: Document<R>, key: R -> string)
    requires DistinctCategories(doc) && DistinctCategories(other)
    ensures DistinctCategories(Update(doc, other, key))
  {
    var r := Update(doc, other, key);
    var added := NewGroups(other, Categories(doc));
    UpdateShape(doc, other, key);
    NewGroupsFacts(other, Categories(doc));
    forall i, j | 0 <= i < j < |r| ensures r[i].category != r[j].category {
      if j < |doc| {
        assert r[i].category == doc[i].category && r[j].category == doc[j].category;
      } else if i >= |doc| {
        assert r[i] == added[i - |doc|] && r[j] == added[j - |doc|];
      } else {
        assert r[i].category == doc[i].category;
        assert r[j] == added[j - |doc|];
        assert r[j] in added;
      }
    }
  }

  /** `b` keeps everything of `a`: every group of `a`, at the same position
      and with the same category, and every requirement of it, in order. */
  ghost predicate Extends<R>(a: Document<R>, b: Document<R>) {
    && |a| <= |b|
    && forall j :: 0 <= j < |a| ==> b[j].category == a[j].category && Keyed.IsPrefix(a[j].requirements, b[j].requirements)
  }

  /** A merge never loses a group or a requirement. */
  lemma UpdateExtends<R(!new)>(doc: Document<R>, other: Document<R>, key: R -> string)
    ensures Extends(doc, Update(doc, other, key))
  {
    UpdateShape(doc, other, key);
  }

  lemma ExtendsTransitive<R>(a: Document<R>, b: Document<R>, c: Document<R>)
    requires Extends(a, b) && Extends(b, c)
    ensures Extends(a, c)
  {
    forall j | 0 <= j < |a| ensures Keyed.IsPrefix(a[j].requirements, c[j].requirements) {
      var x, y, z := a[j].requirements, b[j].requirements, c[j].requirements;
      assert z[..|x|] == z[..|y|][..|x|];
    }
  }

  /** No group holds two requirements with the same key. */
  ghost predicate DistinctWithin<R>(doc: Document<R>, key: R -> string) {
    forall j :: 0 <= j < |doc| ==> Keyed.DistinctKeys(doc[j].requirements, key)
  }

  /** If no group of the document or of the partial repeats a key, no group
      of the merged document does either. */
  lemma UpdateKeepsDistinctKeys<R(!new)>(doc: Document<R>, other: Document<R>, key: R -> string)
    requires DistinctWithin(doc, key) && DistinctWithin(other, key)
    ensures DistinctWithin(Update(doc, other, key), key)
  {
    UpdateFromKeepsDistinctKeys(doc, other, Categories(doc), key);
  }

  lemma {:induction false} UpdateFromKeepsDistinctKeys<R(!new)>(cur: Document<R>, rest: seq<Group<R>>, snapshot: set<string>, key: R -> string)
    requires snapshot <= Categories(cur)
    requires DistinctWithin(cur, key) && DistinctWithin(rest, key)
    ensures DistinctWithin(UpdateFrom(cur, rest, snapshot, key), key)
    decreases |rest|
  {
    if |rest| > 0 {
      var g := rest[0];
      var tail := rest[1..];
      assert DistinctWithin(tail, key) by {
        forall j | 0 <= j < |tail| ensures Keyed.DistinctKeys(tail[j].requirements, key) {
          assert tail[j] == rest[j + 1];
        }
      }
      assert Keyed.DistinctKeys(g.requirements, key);
      if g.category !in snapshot {
        var next := cur + [g];
        CategoriesSnoc(cur, g);
        assert DistinctWithin(next, key) by {
          forall j | 0 <= j < |next| ensures Keyed.DistinctKeys(next[j].requirements, key) {
            if j < |cur| { assert next[j] == cur[j]; }
          }
        }
        UpdateFromKeepsDistinctKeys(next, tail, snapshot, key);
      } else {
        var k := FirstWith(cur, g.category);
        var next := cur[k := MergeGroup(cur[k], g, key)];
        Keyed.AppendNewDistinct(cur[k].requirements, g.requirements, key);
        assert SameShape(cur, next);
        SameCategories(cur, next);
        UpdateFromKeepsDistinctKeys(next, tail, snapshot, key);
      }
    }
  }

  /* ---------------------------------------------------------------------- */
  /* Renumbering, after the last chunk of the deduplicating extractor.        */

  /** Every requirement of the document, group by group. */
  function AllRequirements<R>(doc: Document<R>): seq<R> {
    if |doc| == 0 then [] else doc[0].requirements + AllRequirements(doc[1..])
  }

  /** Requirements relabelled in order with the ids `idOf(first)`,
      `idOf(first + 1)`, ...; the renumbering uses `idOf = str`. */
  function Relabel(reqs: seq<Requirement>, first: nat, idOf: nat -> string): (r: seq<Requirement>)
    ensures |r| == |reqs|
  {
    if |reqs| == 0 then [] else [reqs[0].(id := idOf(first))] + Relabel(reqs[1..], first + 1, idOf)
  }

  /** Position `k` of a relabelled list carries id `idOf(first + k)` and is
      otherwise unchanged. */
  lemma {:induction false} RelabelAt(reqs: seq<Requirement>, first: nat, k: nat, idOf: nat -> string)
    requires k < |reqs|
    ensures Relabel(reqs, first, idOf)[k] == reqs[k].(id := idOf(first + k))
    decreases k
  {
    if k > 0 {
      RelabelAt(reqs[1..], first + 1, k - 1, idOf);
    }
  }

  lemma {:induction false} RelabelAppend(a: seq<Requirement>, b: seq<Requirement>, first: nat, idOf: nat -> string)
    ensures Relabel(a + b, first, idOf) == Relabel(a, first, idOf) + Relabel(b, first + |a|, idOf)
    decreases |a|
  {
    if |a| == 0 {
      assert a + b == b;
    } else {
      var x := a[0].(id := idOf(first));
      var ab := a + b;
      assert ab[0] == a[0];
      assert ab[1..] == a[1..] + b;
      assert Relabel(ab, first, idOf) == [x] + Relabel(a[1..] + b, first + 1, idOf);
      assert Relabel(a, first, idOf) == [x] + Relabel(a[1..], first + 1, idOf);
      RelabelAppend(a[1..], b, first + 1, idOf);
      Associative([x], Relabel(a[1..], first + 1, idOf), Relabel(b, first + |a|, idOf));
    }
  }

  /** The nested renumbering loop with the counter at `first` when it reaches
      `doc[0]`. */
  function RenumberFrom(doc: Document<Requirement>, first: nat, idOf: nat -> string): (r: Document<Requirement>)
    ensures |r| == |doc|
    decreases |doc|
  {
    if |doc| == 0 then []
    else [doc[0].(requirements := Relabel(doc[0].requirements, first, idOf))] + RenumberFrom(doc[1..], first + |doc[0].requirements|, idOf)
  }

  lemma {:induction false} RenumberFlat(doc: Document<Requirement>, first: nat, idOf: nat -> string)
    ensures AllRequirements(RenumberFrom(doc, first, idOf)) == Relabel(AllRequirements(doc), first, idOf)
    decreases |doc|
  {
    if |doc| > 0 {
      var n := |doc[0].requirements|;
      var head, tail := doc[0].requirements, AllRequirements(doc[1..]);
      RenumberCons(doc, first, idOf);
      RenumberFlat(doc[1..], first + n, idOf);
      RelabelAppend(head, tail, first, idOf);
      assert AllRequirements(doc) == head + tail;
    }
  }

  /** Renumbering keeps each group's description, category and size. */
  lemma {:induction false} RenumberShape(doc: Document<Requirement>, first: nat, j: nat, idOf: nat -> string)
    requires j < |doc|
    ensures var r := RenumberFrom(doc, first, idOf);
      && r[j].description == doc[j].description
      && r[j].category == doc[j].category
      && |r[j].requirements| == |doc[j].requirements|
    decreases j
  {
    if j > 0 {
      RenumberShape(doc[1..], first + |doc[0].requirements|, j - 1, idOf);
    }
  }

  lemma RenumberCons(doc: Document<Requirement>, first: nat, idOf: nat -> string)
    requires |doc| > 0
    ensures AllRequirements(RenumberFrom(doc, first, idOf))
         == Relabel(doc[0].requirements, first, idOf) + AllRequirements(RenumberFrom(doc[1..], first + |doc[0].requirements|, idOf))
  {
    var g := doc[0].(requirements := Relabel(doc[0].requirements, first, idOf));
    var rest := RenumberFrom(doc[1..], first + |doc[0].requirements|, idOf);
    var r := RenumberFrom(doc, first, idOf);
    assert r[0] == g && r[1..] == rest;
  }

  /** The renumbering after the last chunk: the groups keep their
      descriptions, categories and sizes, and the requirements, read group by
      group, are the old ones with ids "1", "2", ... in that order. */
  function Renumber(doc: Document<Requirement>): (r: Document<Requirement>)
    ensures |r| == |doc|
    ensures forall j :: 0 <= j < |r| ==>
      && r[j].description == doc[j].description
      && r[j].category == doc[j].category
      && |r[j].requirements| == |doc[j].requirements|
    ensures |AllRequirements(r)| == |AllRequirements(doc)|
    ensures forall k :: 0 <= k < |AllRequirements(r)| ==>
      AllRequirements(r)[k] == AllRequirements(doc)[k].(id := NatToString(k + 1))
  {
    RenumberFlat(doc, 1, NatToString);
    forall j | 0 <= j < |doc| ensures
      var r := RenumberFrom(doc, 1, NatToString);
      && r[j].description == doc[j].description
      && r[j].category == doc[j].category
      && |r[j].requirements| == |doc[j].requirements|
    {
      RenumberShape(doc, 1, j, NatToString);
    }
    var all := AllRequirements(doc);
    forall k | 0 <= k < |all| ensures Relabel(all, 1, NatToString)[k] == all[k].(id := NatToString(k + 1)) {
      RelabelAt(all, 1, k, NatToString);
    }
    RenumberFrom(doc, 1, NatToString)
  }

  /** After renumbering no two requirements share an id. */
  lemma RenumberDistinctIds(doc: Document<Requirement>)
    ensures var all := AllRequirements(Renumber(doc));
      forall i, j :: 0 <= i < j < |all| ==> all[i].id != all[j].id
  {
    var all := AllRequirements(Renumber(doc));
    forall i, j | 0 <= i < j < |all| ensures all[i].id != all[j].id {
      IdsDiffer(all[i].id, all[j].id, i + 1, j + 1);
    }
  }

  lemma IdsDiffer(a: string, b: string, m: nat, n: nat)
    requires a == NatToString(m) && b == NatToString(n) && m != n
    ensures a != b
  {
    if a == b {
      NatToStringInjective(m, n);
    }
  }
}
