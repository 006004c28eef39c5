/**
 * What enrichment builds when every parent is enriched before its replies
 * and ids are unique: each record's directChildIds are exactly its replies
 * and its allChildIds exactly its descendants, both in enrichment order;
 * each id sits in the map its parentId selects; the size is the record count.
 */
module Threading {
  import opened Util
  import opened Models
  import opened CommentModelEnriched
  import opened CommentsByIdFactory
  import opened CommentTransformer
  import opened Sorting
  import JsMaps

  /** The id and the parentId of the record at position i. */
  function IdAt(o: seq<Comment>, i: nat): CommentId
    requires i < |o|
  {
    o[i].id
  }

  function ParentAt(o: seq<Comment>, i: nat): Option<CommentId>
    requires i < |o|
  {
    o[i].parentId
  }

  /**
   * No two records share an id. The two predicates below are stated over
   * IdAt and ParentAt so that they are used only where a proof asks for
   * them, through DistinctAt and ParentBefore.
   */
  ghost predicate DistinctIds(o: seq<Comment>) {
    forall i, j {:trigger IdAt(o, i), IdAt(o, j)} :: 0 <= i < j < |o| ==> IdAt(o, i) != IdAt(o, j)
  }

  /** A record whose parent is in o comes after that parent. */
  ghost predicate ParentsFirst(o: seq<Comment>) {
    forall i, j {:trigger IdAt(o, i), ParentAt(o, j)} ::
      0 <= i < |o| && 0 <= j < |o| && ParentAt(o, j) == Some(IdAt(o, i)) ==> i < j
  }

  lemma DistinctAt(o: seq<Comment>, i: nat, j: nat)
    requires DistinctIds(o) && i < |o| && j < |o|
    ensures o[i].id == o[j].id <==> i == j
  {
    if i < j {
      assert IdAt(o, i) != IdAt(o, j);
    } else if j < i {
      assert IdAt(o, j) != IdAt(o, i);
    }
  }

  lemma ParentBefore(o: seq<Comment>, i: nat, j: nat)
    requires ParentsFirst(o) && i < |o| && j < |o|
    ensures o[j].parentId == Some(o[i].id) ==> i < j
  {
    if o[j].parentId == Some(o[i].id) {
      assert ParentAt(o, j) == Some(IdAt(o, i));
    }
  }

  /** Dropping the last record keeps the ids distinct. */
  lemma DistinctIdsFront(s: seq<Comment>)
    requires DistinctIds(s) && s != []
    ensures DistinctIds(s[..|s| - 1])
  {
    var front := s[..|s| - 1];
    forall i, j | 0 <= i < j < |front|
      ensures IdAt(front, i) != IdAt(front, j)
    {
      DistinctAt(s, i, j);
    }
  }

  /** The position of a record with the given id among the first n. */
  function FindId(o: seq<Comment>, n: nat, id: CommentId): (r: Option<nat>)
    requires n <= |o|
    ensures r.Some? ==> r.value < n && o[r.value].id == id
    ensures r.None? ==> forall i :: 0 <= i < n ==> o[i].id != id
    decreases n
  {
    if n == 0 then None
    else if o[n - 1].id == id then Some(n - 1)
    else FindId(o, n - 1, id)
  }

  /** The position of o[j]'s parent among the records before it. */
  function ParentIndex(o: seq<Comment>, j: nat): (r: Option<nat>)
    requires j < |o|
    ensures r.Some? ==> r.value < j && o[j].parentId == Some(o[r.value].id)
    ensures r.None? && o[j].parentId.Some? ==> forall i :: 0 <= i < j ==> o[i].id != o[j].parentId.value
  {
    if o[j].parentId.None? then None else FindId(o, j, o[j].parentId.value)
  }

  /** The positions of o[j]'s ancestors: its parent, that one's parent, and so on. */
  ghost function Ancestors(o: seq<Comment>, j: nat): set<nat>
    requires j < |o|
    decreases j
  {
    match ParentIndex(o, j)
    case None => {}
    case Some(a) => {a} + Ancestors(o, a)
  }

  /** The number of ancestors of o[j]. */
  function Depth(o: seq<Comment>, j: nat): nat
    requires j < |o|
    decreases j
  {
    match ParentIndex(o, j)
    case None => 0
    case Some(a) => 1 + Depth(o, a)
  }

  /** Ancestors come before their descendants, so a chain is never longer than its position. */
  lemma {:induction false} AncestorsBefore(o: seq<Comment>, j: nat)
    requires j < |o|
    ensures forall a :: a in Ancestors(o, j) ==> a < j
    ensures Depth(o, j) <= j
    decreases j
  {
    if ParentIndex(o, j).Some? {
      AncestorsBefore(o, ParentIndex(o, j).value);
    }
  }

  /** A record has no more ancestors than records before it. */
  lemma DepthBefore(o: seq<Comment>, j: nat)
    requires j < |o|
    ensures Depth(o, j) <= j
  {
    AncestorsBefore(o, j);
  }

  /** The ids of the first m records whose parentId is o[i]'s id, in order. */
  function Replies(o: seq<Comment>, m: nat, i: nat): seq<CommentId>
    requires m <= |o| && i < |o|
  {
    if m == 0 then []
    else Replies(o, m - 1, i) + (if o[m - 1].parentId == Some(o[i].id) then [o[m - 1].id] else [])
  }

  /** The ids of the first m records that have o[i] as an ancestor, in order. */
  ghost function Descendants(o: seq<Comment>, m: nat, i: nat): seq<CommentId>
    requires m <= |o| && i < |o|
  {
    if m == 0 then []
    else Descendants(o, m - 1, i) + (if i in Ancestors(o, m - 1) then [o[m - 1].id] else [])
  }

  /** Replies lists exactly the ids of the records that name o[i] as their parent. */
  lemma {:induction false} RepliesMeaning(o: seq<Comment>, m: nat, i: nat)
    requires m <= |o| && i < |o|
    ensures forall x :: x in Replies(o, m, i) <==> exists j :: 0 <= j < m && o[j].id == x && o[j].parentId == Some(o[i].id)
    decreases m
  {
    if m > 0 {
      RepliesMeaning(o, m - 1, i);
    }
  }

  /** Descendants lists exactly the ids of the records that have o[i] among their ancestors. */
  lemma {:induction false} DescendantsMeaning(o: seq<Comment>, m: nat, i: nat)
    requires m <= |o| && i < |o|
    ensures forall x :: x in Descendants(o, m, i) <==> exists j :: 0 <= j < m && o[j].id == x && i in Ancestors(o, j)
    decreases m
  {
    if m > 0 {
      DescendantsMeaning(o, m - 1, i);
    }
  }

  /** Nothing before o[i] replies to it or descends from it. */
  lemma {:induction false} NothingEarlierDescends(o: seq<Comment>, m: nat, i: nat)
    requires ParentsFirst(o) && i < |o| && m <= i + 1
    ensures Replies(o, m, i) == [] && Descendants(o, m, i) == []
    decreases m
  {
    if m > 0 {
      NothingEarlierDescends(o, m - 1, i);
      AncestorsBefore(o, m - 1);
      NoReplyBefore(o, m - 1, i);
    }
  }

  /** A record never replies to itself or to a record after it. */
  lemma NoReplyBefore(o: seq<Comment>, j: nat, i: nat)
    requires ParentsFirst(o) && j <= i < |o|
    ensures o[j].parentId != Some(o[i].id)
  {
    ParentBefore(o, i, j);
  }

  /** The record enrichment should leave for o[i] after the first m records. */
  ghost function Expected(o: seq<Comment>, m: nat, i: nat): Enriched
    requires m <= |o| && i < |o|
  {
    Enriched(o[i], Replies(o, m, i), Descendants(o, m, i))
  }

  /** Every stored id is the id of one of the first m records. */
  ghost predicate Known(p: Partitions, o: seq<Comment>, m: nat)
    requires m <= |o|
  {
    forall x :: x in p.child.entries || x in p.root.entries ==> exists i :: 0 <= i < m && o[i].id == x
  }

  /** The index holds what enrichment of the first m records should leave. */
  ghost predicate Mirrors(p: Partitions, o: seq<Comment>, m: nat)
    requires m <= |o|
  {
    && p.Valid()
    && p.Size() == m
    && Known(p, o, m)
    && (forall i :: 0 <= i < m ==> Holds(p, o, m, i))
  }

  /** o[i] is stored as enrichment of the first m records should leave it, in the map its parentId selects. */
  ghost predicate Holds(p: Partitions, o: seq<Comment>, m: nat, i: nat)
    requires m <= |o| && i < |o|
  {
    && p.Lookup(o[i].id) == Some(Expected(o, m, i))
    && (o[i].id in p.child.entries <==> IsTruthy(o[i].parentId))
    && (o[i].id in p.root.entries <==> !IsTruthy(o[i].parentId))
  }

  ghost predicate SameKeys(p: Partitions, q: Partitions) {
    && p.root.keys == q.root.keys && p.child.keys == q.child.keys
    && p.root.entries.Keys == q.root.entries.Keys && p.child.entries.Keys == q.child.entries.Keys
  }

  /** Whether o[m]'s parent is o[i] depends only on positions. */
  lemma ParentIndexMeaning(o: seq<Comment>, m: nat, i: nat)
    requires DistinctIds(o) && i < m < |o|
    ensures o[m].parentId == Some(o[i].id) <==> ParentIndex(o, m) == Some(i)
  {
    if o[m].parentId == Some(o[i].id) {
      var k := FindId(o, m, o[i].id);
      assert k.Some? && o[k.value].id == o[i].id;
      DistinctAt(o, k.value, i);
    }
  }

  /** One visit of the walk. */
  lemma WalkVisits(q: Partitions, pid: CommentId, x: CommentId, fuel: nat, next: Partitions, up: Option<CommentId>, f: nat, r: Partitions)
    requires fuel == f + 1 && q.Lookup(pid).Some?
    requires next == q.Replace(pid, AssignChildId(q.Lookup(pid).value, x))
    requires up == q.Lookup(pid).value.comment.parentId
    requires r == Walk(next, up, x, f)
    ensures r == Walk(q, Some(pid), x, fuel)
  {
  }

  /** Rewriting the record of o[a] in an index of distinct ids leaves the records of the others alone. */
  lemma ReplaceOne(q: Partitions, o: seq<Comment>, m: nat, a: nat, e: Enriched)
    requires DistinctIds(o) && a < m <= |o| && q.Valid()
    requires q.Lookup(o[a].id).Some?
    ensures forall i :: 0 <= i < m ==> q.Replace(o[a].id, e).Lookup(o[i].id) == if i == a then Some(e) else q.Lookup(o[i].id)
  {
    ReplaceFacts(q, o[a].id, e);
    forall i | 0 <= i < m
      ensures q.Replace(o[a].id, e).Lookup(o[i].id) == if i == a then Some(e) else q.Lookup(o[i].id)
    {
      DistinctAt(o, i, a);
    }
  }

  /** The walk ends at a nil parentId and at an id the resolver does not find. */
  lemma WalkEnds(q: Partitions, pid: Option<CommentId>, x: CommentId, fuel: nat)
    requires pid.None? || q.Lookup(pid.value).None?
    ensures Walk(q, pid, x, fuel) == q
  {
  }

  /** The walk only rewrites stored records: the index stays valid and keeps its keys, in order. */
  lemma {:induction false} WalkKeepsKeys(q: Partitions, pid: Option<CommentId>, x: CommentId, fuel: nat)
    requires q.Valid()
    ensures Walk(q, pid, x, fuel).Valid()
    ensures SameKeys(Walk(q, pid, x, fuel), q)
    decreases fuel
  {
    if fuel > 0 && pid.Some? && q.Lookup(pid.value).Some? {
      var parent := q.Lookup(pid.value).value;
      ReplaceFacts(q, pid.value, AssignChildId(parent, x));
      WalkKeepsKeys(q.Replace(pid.value, AssignChildId(parent, x)), parent.comment.parentId, x, fuel - 1);
    }
  }

  /** An id stored in neither map is not found. */
  lemma UnknownNotFound(q: Partitions, o: seq<Comment>, m: nat, id: CommentId)
    requires m <= |o| && Known(q, o, m)
    requires forall i :: 0 <= i < m ==> o[i].id != id
    ensures q.Lookup(id).None?
  {
    assert !exists i :: 0 <= i < m && o[i].id == id;
  }

  lemma KnownSameKeys(p: Partitions, q: Partitions, o: seq<Comment>, m: nat)
    requires m <= |o| && Known(q, o, m) && SameKeys(p, q)
    ensures Known(p, o, m)
  {
    forall x | x in p.child.entries || x in p.root.entries
      ensures exists i :: 0 <= i < m && o[i].id == x
    {
      assert x in q.child.entries.Keys || x in q.root.entries.Keys;
    }
  }

  /** When o[a]'s parent is not among the records before it, it is among none of the first m. */
  lemma NoParentBefore(o: seq<Comment>, m: nat, a: nat)
    requires ParentsFirst(o) && a < m <= |o|
    requires ParentIndex(o, a).None? && o[a].parentId.Some?
    ensures forall i :: 0 <= i < m ==> o[i].id != o[a].parentId.value
  {
    var pid := o[a].parentId.value;
    forall i | 0 <= i < m
      ensures o[i].id != pid
    {
      ParentBefore(o, i, a);
    }
  }

  /** A visit to o[a] followed by the visits to b and the positions in s appends x once at each of them. */
  lemma ChainsCompose(q: Partitions, next: Partitions, r: Partitions, o: seq<Comment>, m: nat, a: nat, b: nat, s: set<nat>, t: set<nat>, x: CommentId)
    requires m <= |o| && a != b && a !in s && t == {a} + ({b} + s)
    requires forall i :: 0 <= i < m ==> q.Lookup(o[i].id).Some?
    requires forall i :: 0 <= i < m ==>
      next.Lookup(o[i].id) == Some(if i == a then AssignChildId(q.Lookup(o[i].id).value, x) else q.Lookup(o[i].id).value)
    requires forall i :: 0 <= i < m ==>
      r.Lookup(o[i].id) == Some(if i == b || i in s then AssignChildId(next.Lookup(o[i].id).value, x) else next.Lookup(o[i].id).value)
    ensures forall i :: 0 <= i < m ==>
      r.Lookup(o[i].id) == Some(if i in t then AssignChildId(q.Lookup(o[i].id).value, x) else q.Lookup(o[i].id).value)
  {
  }

  /**
   * The walk from o[a] appends x to the allChildIds of o[a] and of each of
   * its ancestors, and leaves every other record and every key alone.
   */
  lemma {:induction false} WalkAppends(q: Partitions, o: seq<Comment>, m: nat, a: nat, x: CommentId, fuel: nat)
      returns (r: Partitions)
    requires DistinctIds(o) && ParentsFirst(o)
    requires a < m <= |o|
    requires q.Valid() && Known(q, o, m)
    requires forall i :: 0 <= i < m ==> q.Lookup(o[i].id).Some? && q.Lookup(o[i].id).value.comment == o[i]
    requires fuel > Depth(o, a)
    ensures r == Walk(q, Some(o[a].id), x, fuel)
    ensures forall i :: 0 <= i < m ==>
      r.Lookup(o[i].id) ==
      Some(if i in {a} + Ancestors(o, a) then AssignChildId(q.Lookup(o[i].id).value, x) else q.Lookup(o[i].id).value)
    decreases a
  {
    var next := VisitStep(q, o, m, a, x);
    if ParentIndex(o, a).None? {
      r := WalkTop(q, next, o, m, a, x, fuel);
    } else {
      var b := ParentStep(o, a);
      var f: nat := fuel - 1;
      r := WalkAppends(next, o, m, b, x, f);
      WalkVisits(q, o[a].id, x, fuel, next, Some(o[b].id), f, r);
      ChainsCompose(q, next, r, o, m, a, b, Ancestors(o, b), {a} + Ancestors(o, a), x);
    }
  }

  /** One step up the chain: o[a]'s parent sits at b, before a, and o[a]'s ancestors are b and b's. */
  lemma ParentStep(o: seq<Comment>, a: nat) returns (b: nat)
    requires a < |o| && ParentIndex(o, a).Some?
    ensures b == ParentIndex(o, a).value && b < a && o[a].parentId == Some(o[b].id)
    ensures Ancestors(o, a) == {b} + Ancestors(o, b) && a !in Ancestors(o, b)
    ensures Depth(o, a) == 1 + Depth(o, b)
  {
    b := ParentIndex(o, a).value;
    AncestorsBefore(o, b);
  }

  /** One visit of the walk at o[a]: only that record changes, and every record keeps its comment. */
  lemma VisitStep(q: Partitions, o: seq<Comment>, m: nat, a: nat, x: CommentId) returns (next: Partitions)
    requires DistinctIds(o) && a < m <= |o|
    requires q.Valid() && Known(q, o, m)
    requires forall i :: 0 <= i < m ==> q.Lookup(o[i].id).Some? && q.Lookup(o[i].id).value.comment == o[i]
    ensures next == q.Replace(o[a].id, AssignChildId(q.Lookup(o[a].id).value, x))
    ensures next.Valid() && Known(next, o, m)
    ensures forall i :: 0 <= i < m ==>
      next.Lookup(o[i].id) == Some(if i == a then AssignChildId(q.Lookup(o[i].id).value, x) else q.Lookup(o[i].id).value)
    ensures forall i :: 0 <= i < m ==> next.Lookup(o[i].id).Some? && next.Lookup(o[i].id).value.comment == o[i]
  {
    var visited := q.Lookup(o[a].id).value;
    next := q.Replace(o[a].id, AssignChildId(visited, x));
    ReplaceFacts(q, o[a].id, AssignChildId(visited, x));
    ReplaceOne(q, o, m, a, AssignChildId(visited, x));
    KnownSameKeys(next, q, o, m);
  }

  /** At a record whose parent is not stored the walk appends x there and stops. */
  lemma WalkTop(q: Partitions, next: Partitions, o: seq<Comment>, m: nat, a: nat, x: CommentId, fuel: nat) returns (r: Partitions)
    requires ParentsFirst(o) && a < m <= |o| && ParentIndex(o, a).None? && fuel > 0
    requires q.Lookup(o[a].id).Some? && q.Lookup(o[a].id).value.comment == o[a]
    requires next == q.Replace(o[a].id, AssignChildId(q.Lookup(o[a].id).value, x))
    requires Known(next, o, m) && forall i :: 0 <= i < m ==> q.Lookup(o[i].id).Some?
    requires forall i :: 0 <= i < m ==>
      next.Lookup(o[i].id) == Some(if i == a then AssignChildId(q.Lookup(o[i].id).value, x) else q.Lookup(o[i].id).value)
    ensures r == Walk(q, Some(o[a].id), x, fuel)
    ensures forall i :: 0 <= i < m ==>
      r.Lookup(o[i].id) ==
      Some(if i in {a} + Ancestors(o, a) then AssignChildId(q.Lookup(o[i].id).value, x) else q.Lookup(o[i].id).value)
  {
    assert Ancestors(o, a) == {};
    if o[a].parentId.Some? {
      NoParentBefore(o, m, a);
      UnknownNotFound(next, o, m, o[a].parentId.value);
    }
    var f: nat := fuel - 1;
    WalkEnds(next, o[a].parentId, x, f);
    r := next;
    WalkVisits(q, o[a].id, x, fuel, next, o[a].parentId, f, r);
  }

  /** The push into the parent's directChildIds turns each reply list into the one that counts o[m]. */
  lemma LinkPhase(p: Partitions, o: seq<Comment>, m: nat) returns (linked: Partitions)
    requires DistinctIds(o) && ParentsFirst(o) && m < |o| && Mirrors(p, o, m)
    requires o[m].parentId.Some?
    ensures linked == LinkToParent(p, o[m].parentId.value, o[m].id)
    ensures linked.Valid() && SameKeys(linked, p) && Known(linked, o, m)
    ensures forall i :: 0 <= i < m ==>
      linked.Lookup(o[i].id) == Some(Enriched(o[i], Replies(o, m + 1, i), Descendants(o, m, i)))
    ensures ParentIndex(o, m).None? ==> linked == p && p.Lookup(o[m].parentId.value).None?
  {
    var pid := o[m].parentId.value;
    linked := LinkToParent(p, pid, o[m].id);
    if ParentIndex(o, m).None? {
      UnknownNotFound(p, o, m, pid);
      assert linked == p;
      forall i | 0 <= i < m
        ensures linked.Lookup(o[i].id) == Some(Enriched(o[i], Replies(o, m + 1, i), Descendants(o, m, i)))
      {
        assert Holds(p, o, m, i);
        assert Replies(o, m + 1, i) == Replies(o, m, i);
      }
    } else {
      var a := ParentIndex(o, m).value;
      assert pid == o[a].id;
      assert Holds(p, o, m, a);
      var e := Expected(o, m, a).(directChildIds := Replies(o, m, a) + [o[m].id]);
      assert linked == p.Replace(o[a].id, e);
      ReplaceFacts(p, pid, e);
      ReplaceOne(p, o, m, a, e);
      KnownSameKeys(linked, p, o, m);
      forall i | 0 <= i < m
        ensures linked.Lookup(o[i].id) == Some(Enriched(o[i], Replies(o, m + 1, i), Descendants(o, m, i)))
      {
        ParentIndexMeaning(o, m, i);
        assert Holds(p, o, m, i);
        if i != a {
          assert Replies(o, m + 1, i) == Replies(o, m, i);
        }
      }
    }
  }

  lemma DescendantsStep(o: seq<Comment>, m: nat, i: nat)
    requires m < |o| && i < |o|
    ensures Descendants(o, m + 1, i) == Descendants(o, m, i) + (if i in Ancestors(o, m) then [o[m].id] else [])
  {
  }

  /** Appending o[m]'s id to the records of its ancestors completes their descendant lists. */
  lemma DescendantsGrow(o: seq<Comment>, m: nat, linked: Partitions, w: Partitions, s: set<nat>)
    requires m < |o| && s == Ancestors(o, m)
    requires forall i :: 0 <= i < m ==>
      linked.Lookup(o[i].id) == Some(Enriched(o[i], Replies(o, m + 1, i), Descendants(o, m, i)))
    requires forall i :: 0 <= i < m ==>
      w.Lookup(o[i].id) ==
      Some(if i in s then AssignChildId(linked.Lookup(o[i].id).value, o[m].id) else linked.Lookup(o[i].id).value)
    ensures forall i :: 0 <= i < m ==> w.Lookup(o[i].id) == Some(Expected(o, m + 1, i))
  {
    forall i | 0 <= i < m
      ensures w.Lookup(o[i].id) == Some(Expected(o, m + 1, i))
    {
      DescendantsStep(o, m, i);
      var d := linked.Lookup(o[i].id).value;
      assert d == Enriched(o[i], Replies(o, m + 1, i), Descendants(o, m, i));
      if i in s {
        assert w.Lookup(o[i].id) == Some(AssignChildId(d, o[m].id));
        assert AssignChildId(d, o[m].id) == Enriched(o[i], Replies(o, m + 1, i), Descendants(o, m, i) + [o[m].id]);
        assert Descendants(o, m + 1, i) == Descendants(o, m, i) + [o[m].id];
        assert w.Lookup(o[i].id) == Some(Expected(o, m + 1, i));
      } else {
        assert w.Lookup(o[i].id) == Some(d);
        assert Descendants(o, m + 1, i) == Descendants(o, m, i);
        assert w.Lookup(o[i].id) == Some(Expected(o, m + 1, i));
      }
      assert Expected(o, m + 1, i) == Enriched(o[i], Replies(o, m + 1, i), Descendants(o, m + 1, i));
    }
  }

  /** The walk from o[m]'s parent turns each descendant list into the one that counts o[m]. */
  lemma WalkPhase(p: Partitions, o: seq<Comment>, m: nat, linked: Partitions) returns (w: Partitions)
    requires DistinctIds(o) && ParentsFirst(o) && m < |o|
    requires p.Valid() && p.Size() == m && o[m].parentId.Some?
    requires linked.Valid() && SameKeys(linked, p) && Known(linked, o, m)
    requires forall i :: 0 <= i < m ==>
      linked.Lookup(o[i].id) == Some(Enriched(o[i], Replies(o, m + 1, i), Descendants(o, m, i)))
    requires ParentIndex(o, m).None? ==> linked == p && p.Lookup(o[m].parentId.value).None?
    ensures w == Walk(linked, o[m].parentId, o[m].id, m + 1)
    ensures forall i :: 0 <= i < m ==> w.Lookup(o[i].id) == Some(Expected(o, m + 1, i))
  {
    if ParentIndex(o, m).None? {
      w := WalkUnlinked(p, o, m, linked);
    } else {
      var a := ParentIndex(o, m).value;
      StoredComments(o, m, linked);
      DepthBefore(o, a);
      w := WalkAppends(linked, o, m, a, o[m].id, m + 1);
      SameStart(linked, o, m, a);
      DescendantsAfterWalk(o, m, a, linked, w);
    }
  }

  /** Every record stored with its replies and descendants is stored with its comment. */
  lemma StoredComments(o: seq<Comment>, m: nat, linked: Partitions)
    requires m < |o|
    requires forall i :: 0 <= i < m ==>
      linked.Lookup(o[i].id) == Some(Enriched(o[i], Replies(o, m + 1, i), Descendants(o, m, i)))
    ensures forall i :: 0 <= i < m ==> linked.Lookup(o[i].id).Some? && linked.Lookup(o[i].id).value.comment == o[i]
  {
  }

  /** The walk from o[m]'s parentId is the walk from the record at its parent's position. */
  lemma SameStart(linked: Partitions, o: seq<Comment>, m: nat, a: nat)
    requires m < |o| && ParentIndex(o, m) == Some(a)
    ensures Walk(linked, o[m].parentId, o[m].id, m + 1) == Walk(linked, Some(o[a].id), o[m].id, m + 1)
  {
  }

  /** The walk keeps the index valid, its keys and so the records it knows. */
  lemma WalkKeepsIndex(p: Partitions, o: seq<Comment>, m: nat, linked: Partitions)
    requires m < |o| && linked.Valid() && SameKeys(linked, p) && Known(linked, o, m)
    ensures Walk(linked, o[m].parentId, o[m].id, m + 1).Valid()
    ensures SameKeys(Walk(linked, o[m].parentId, o[m].id, m + 1), p)
    ensures Known(Walk(linked, o[m].parentId, o[m].id, m + 1), o, m)
  {
    var w := Walk(linked, o[m].parentId, o[m].id, m + 1);
    WalkKeepsKeys(linked, o[m].parentId, o[m].id, m + 1);
    KnownSameKeys(w, linked, o, m);
  }

  /** The walk from o[m]'s parent, which sits at position a, turns each descendant list into the one that counts o[m]. */
  lemma DescendantsAfterWalk(o: seq<Comment>, m: nat, a: nat, linked: Partitions, w: Partitions)
    requires m < |o| && ParentIndex(o, m) == Some(a)
    requires forall i :: 0 <= i < m ==>
      linked.Lookup(o[i].id) == Some(Enriched(o[i], Replies(o, m + 1, i), Descendants(o, m, i)))
    requires forall i :: 0 <= i < m ==>
      w.Lookup(o[i].id) ==
      Some(if i in {a} + Ancestors(o, a) then AssignChildId(linked.Lookup(o[i].id).value, o[m].id) else linked.Lookup(o[i].id).value)
    ensures forall i :: 0 <= i < m ==> w.Lookup(o[i].id) == Some(Expected(o, m + 1, i))
  {
    assert Ancestors(o, m) == {a} + Ancestors(o, a);
    DescendantsGrow(o, m, linked, w, {a} + Ancestors(o, a));
  }

  /** With no earlier parent the walk stops at once, and no descendant list changes. */
  lemma WalkUnlinked(p: Partitions, o: seq<Comment>, m: nat, linked: Partitions) returns (w: Partitions)
    requires m < |o| && o[m].parentId.Some? && ParentIndex(o, m).None?
    requires linked == p && p.Lookup(o[m].parentId.value).None?
    requires forall i :: 0 <= i < m ==>
      linked.Lookup(o[i].id) == Some(Enriched(o[i], Replies(o, m + 1, i), Descendants(o, m, i)))
    ensures w == linked && w == Walk(linked, o[m].parentId, o[m].id, m + 1)
    ensures forall i :: 0 <= i < m ==> w.Lookup(o[i].id) == Some(Expected(o, m + 1, i))
  {
    WalkEnds(linked, o[m].parentId, o[m].id, m + 1);
    w := linked;
    assert Ancestors(o, m) == {};
    forall i | 0 <= i < m
      ensures w.Lookup(o[i].id) == Some(Expected(o, m + 1, i))
    {
      assert Descendants(o, m + 1, i) == Descendants(o, m, i);
    }
  }

  /** A root record is nobody's reply or descendant: every earlier record keeps its lists. */
  lemma RootKeepsLists(p: Partitions, o: seq<Comment>, m: nat)
    requires m < |o| && o[m].parentId.None? && Mirrors(p, o, m)
    ensures forall i :: 0 <= i < m ==> p.Lookup(o[i].id) == Some(Expected(o, m + 1, i))
  {
    assert ParentIndex(o, m).None? && Ancestors(o, m) == {};
    forall i | 0 <= i < m
      ensures p.Lookup(o[i].id) == Some(Expected(o, m + 1, i))
    {
      assert Holds(p, o, m, i);
      DescendantsStep(o, m, i);
      assert Replies(o, m + 1, i) == Replies(o, m, i);
      assert Descendants(o, m + 1, i) == Descendants(o, m, i);
    }
  }

  /** Enriching o[m] into a faithful index gives every earlier record its final reply and descendant lists. */
  lemma EnrichPhase(p: Partitions, o: seq<Comment>, m: nat) returns (w: Partitions)
    requires DistinctIds(o) && ParentsFirst(o) && m < |o| && Mirrors(p, o, m)
    ensures EnrichSpec(p, Raw(o[m])) == (w, Enriched(o[m], [], []))
    ensures w.Valid() && SameKeys(w, p) && Known(w, o, m)
    ensures forall i :: 0 <= i < m ==> w.Lookup(o[i].id) == Some(Expected(o, m + 1, i))
  {
    if o[m].parentId.None? {
      w := p;
      RootKeepsLists(p, o, m);
    } else {
      var linked := LinkPhase(p, o, m);
      assert linked.Size() == m;
      w := WalkPhase(p, o, m, linked);
      WalkKeepsIndex(p, o, m, linked);
    }
  }

  /** Storing o[m]'s fresh record next to the updated earlier ones completes the picture for m + 1 records. */
  lemma PutMirrors(p: Partitions, w: Partitions, o: seq<Comment>, m: nat, n: nat)
    requires DistinctIds(o) && ParentsFirst(o)
    requires m < |o| && n == m + 1 && Mirrors(p, o, m)
    requires w.Valid() && SameKeys(w, p) && Known(w, o, m)
    requires forall i :: 0 <= i < m ==> w.Lookup(o[i].id) == Some(Expected(o, n, i))
    ensures Mirrors(w.Put(Enriched(o[m], [], [])), o, n)
  {
    NothingEarlierDescends(o, n, m);
    assert Expected(o, n, m) == Enriched(o[m], [], []);
    forall i | 0 <= i < m
      ensures o[i].id != o[m].id
    {
      DistinctAt(o, i, m);
    }
    var e := Enriched(o[m], [], []);
    var id := o[m].id;
    UnknownNotFound(w, o, m, id);
    assert id !in w.child.entries && id !in w.root.entries;
    PutFacts(w, e);
    var f := w.Put(e);
    assert f.Lookup(id) == Some(Expected(o, n, m));
    assert f.Size() == m + 1;
    assert forall x :: x in f.child.entries <==> x in w.child.entries || (x == id && IsTruthy(o[m].parentId));
    assert forall x :: x in f.root.entries <==> x in w.root.entries || (x == id && !IsTruthy(o[m].parentId));
    forall x | x in f.child.entries || x in f.root.entries
      ensures exists i :: 0 <= i < m + 1 && o[i].id == x
    {
      if x != id {
        assert x in w.child.entries || x in w.root.entries;
      } else {
        assert o[m].id == x;
      }
    }
    forall i | 0 <= i < n
      ensures Holds(f, o, n, i)
    {
      if i < m {
        assert o[i].id != id;
        assert f.Lookup(o[i].id) == w.Lookup(o[i].id);
        assert Holds(p, o, m, i);
        assert o[i].id in w.child.entries <==> o[i].id in p.child.entries;
        assert o[i].id in w.root.entries <==> o[i].id in p.root.entries;
      } else {
        assert i == m;
        assert o[i].id in f.child.entries <==> IsTruthy(o[i].parentId);
        assert o[i].id in f.root.entries <==> !IsTruthy(o[i].parentId);
      }
    }
  }

  /** One step of enrichMany's forEach keeps the index faithful to one more record. */
  lemma StepMirrors(p: Partitions, o: seq<Comment>, m: nat)
    requires DistinctIds(o) && ParentsFirst(o) && m < |o| && Mirrors(p, o, m)
    ensures Mirrors(EnrichSpec(p, Raw(o[m])).0.Put(EnrichSpec(p, Raw(o[m])).1), o, m + 1)
  {
    var w := EnrichPhase(p, o, m);
    PutMirrors(p, w, o, m, m + 1);
  }

  /** Enriching the first m records of o, in order, leaves an index faithful to them. */
  lemma {:induction false} EnrichPrefixMirrors(o: seq<Comment>, m: nat)
    requires DistinctIds(o) && ParentsFirst(o) && m <= |o|
    ensures Mirrors(EnrichAll(NoPartitions, o[..m]), o, m)
    decreases m
  {
    if m == 0 {
      assert o[..0] == [];
    } else {
      EnrichPrefixMirrors(o, m - 1);
      StepMirrors(EnrichAll(NoPartitions, o[..m - 1]), o, m - 1);
      PrefixStep(o, m);
    }
  }

  /** Enriching the first m records is enriching the first m - 1 and then o[m - 1]. */
  lemma PrefixStep(o: seq<Comment>, m: nat)
    requires 0 < m <= |o|
    ensures EnrichAll(NoPartitions, o[..m]) ==
      EnrichSpec(EnrichAll(NoPartitions, o[..m - 1]), Raw(o[m - 1])).0.Put(EnrichSpec(EnrichAll(NoPartitions, o[..m - 1]), Raw(o[m - 1])).1)
  {
    EnrichAllStep(NoPartitions, o[..m - 1], o[m - 1]);
    assert o[..m] == o[..m - 1] + [o[m - 1]];
  }

  /**
   * After enriching o in order: each record is stored with directChildIds
   * equal to its replies and allChildIds equal to its descendants, in
   * enrichment order; it sits in the child map exactly when its parentId is
   * truthy and in the root map otherwise; the size is the number of records;
   * and nothing else is stored.
   */
  lemma EnrichedThreads(o: seq<Comment>)
    requires DistinctIds(o) && ParentsFirst(o)
    ensures EnrichAll(NoPartitions, o).Size() == |o|
    ensures forall i :: 0 <= i < |o| ==>
      EnrichAll(NoPartitions, o).Lookup(o[i].id) == Some(Enriched(o[i], Replies(o, |o|, i), Descendants(o, |o|, i)))
    ensures forall i :: 0 <= i < |o| ==>
      && (o[i].id in EnrichAll(NoPartitions, o).child.entries <==> IsTruthy(o[i].parentId))
      && (o[i].id in EnrichAll(NoPartitions, o).root.entries <==> !IsTruthy(o[i].parentId))
    ensures Known(EnrichAll(NoPartitions, o), o, |o|)
  {
    EnrichPrefixMirrors(o, |o|);
    assert o[..|o|] == o;
    var p := EnrichAll(NoPartitions, o);
    forall i | 0 <= i < |o|
      ensures p.Lookup(o[i].id) == Some(Enriched(o[i], Replies(o, |o|, i), Descendants(o, |o|, i)))
      ensures o[i].id in p.child.entries <==> IsTruthy(o[i].parentId)
      ensures o[i].id in p.root.entries <==> !IsTruthy(o[i].parentId)
    {
      assert Holds(p, o, |o|, i);
    }
  }

  /**
   * getChildComments on the enriched index answers, for each record, the
   * records of all its descendants (not only its direct replies), in order.
   */
  lemma ChildCommentsAreDescendants(o: seq<Comment>, i: nat)
    requires DistinctIds(o) && ParentsFirst(o) && i < |o|
    ensures EnrichAll(NoPartitions, o).ChildComments(o[i].id).Ok?
    ensures |EnrichAll(NoPartitions, o).ChildComments(o[i].id).value| == |Descendants(o, |o|, i)|
    ensures forall k :: 0 <= k < |Descendants(o, |o|, i)| ==>
      && EnrichAll(NoPartitions, o).ChildComments(o[i].id).value[k].Some?
      && EnrichAll(NoPartitions, o).ChildComments(o[i].id).value[k].value.Id() == Descendants(o, |o|, i)[k]
  {
    EnrichedThreads(o);
    DescendantsMeaning(o, |o|, i);
    var p := EnrichAll(NoPartitions, o);
    var ds := Descendants(o, |o|, i);
    forall k | 0 <= k < |ds|
      ensures p.Lookup(ds[k]).Some? && p.Lookup(ds[k]).value.Id() == ds[k]
    {
      assert ds[k] in ds;
      var j :| 0 <= j < |o| && o[j].id == ds[k] && i in Ancestors(o, j);
      assert p.Lookup(o[j].id) == Some(Expected(o, |o|, j));
    }
  }

  /** The reply and descendant lists of the chain A <- B <- C. */
  lemma ChainLists(o: seq<Comment>)
    requires |o| == 3 && o[0].id == "A" && o[1].id == "B" && o[2].id == "C"
    requires o[0].parentId.None? && o[1].parentId == Some("A") && o[2].parentId == Some("B")
    ensures Replies(o, 3, 0) == ["B"] && Replies(o, 3, 1) == ["C"] && Replies(o, 3, 2) == []
    ensures Descendants(o, 3, 0) == ["B", "C"] && Descendants(o, 3, 1) == ["C"] && Descendants(o, 3, 2) == []
  {
    assert ParentIndex(o, 0) == None;
    assert ParentIndex(o, 1) == Some(0) by { assert o[..1] == [o[0]]; }
    assert ParentIndex(o, 2) == Some(1) by { assert o[..2] == [o[0], o[1]]; }
    assert Ancestors(o, 0) == {};
    assert Ancestors(o, 1) == {0};
    assert Ancestors(o, 2) == {0, 1};
    assert o[1].parentId == Some(o[0].id) && o[2].parentId == Some(o[1].id);
    assert o[2].parentId != Some(o[0].id) && o[1].parentId != Some(o[1].id) && o[2].parentId != Some(o[2].id);
    assert o[1].parentId != Some(o[2].id);
    assert Replies(o, 1, 0) == [];
    assert Replies(o, 1, 1) == [];
    assert Replies(o, 1, 2) == [];
    assert Replies(o, 2, 0) == [o[1].id] && Replies(o, 2, 1) == Replies(o, 1, 1) && Replies(o, 2, 2) == Replies(o, 1, 2);
    assert Replies(o, 3, 0) == Replies(o, 2, 0) && Replies(o, 3, 1) == [o[2].id] && Replies(o, 3, 2) == Replies(o, 2, 2);
    assert Descendants(o, 1, 0) == [];
    assert Descendants(o, 1, 1) == [];
    assert Descendants(o, 1, 2) == [];
    assert Descendants(o, 2, 0) == [o[1].id] && Descendants(o, 2, 1) == Descendants(o, 1, 1) && Descendants(o, 2, 2) == Descendants(o, 1, 2);
    assert Descendants(o, 3, 0) == Descendants(o, 2, 0) + [o[2].id];
    assert Descendants(o, 3, 1) == [o[2].id] && Descendants(o, 3, 2) == Descendants(o, 2, 2);
  }

  /** The chain A <- B <- C enriched in creation order. */
  lemma ChainExample(a: Comment, b: Comment, c: Comment)
    requires a.id == "A" && b.id == "B" && c.id == "C"
    requires a.parentId.None? && b.parentId == Some("A") && c.parentId == Some("B")
    ensures EnrichAll(NoPartitions, [a, b, c]).Lookup("A") == Some(Enriched(a, ["B"], ["B", "C"]))
    ensures EnrichAll(NoPartitions, [a, b, c]).Lookup("B") == Some(Enriched(b, ["C"], ["C"]))
    ensures EnrichAll(NoPartitions, [a, b, c]).Lookup("C") == Some(Enriched(c, [], []))
  {
    var o := [a, b, c];
    assert DistinctIds(o);
    assert ParentsFirst(o);
    ChainLists(o);
    EnrichedThreads(o);
    assert o[0].id == "A" && o[1].id == "B" && o[2].id == "C";
  }

  /** In the batch handed to enrichMany, every reply is younger than its parent. */
  ghost predicate ParentsOlder(batch: seq<Comment>) {
    forall c, d :: c in batch && d in batch && d.parentId == Some(c.id) ==> c.createdAt < d.createdAt
  }

  lemma DistinctSnoc(a: seq<Comment>, y: Comment)
    requires DistinctIds(a) && forall z :: z in a ==> z.id != y.id
    ensures DistinctIds(a + [y])
  {
    var b := a + [y];
    forall i, j | 0 <= i < j < |b|
      ensures IdAt(b, i) != IdAt(b, j)
    {
      if j == |a| {
        assert a[i] in a;
      } else {
        DistinctAt(a, i, j);
      }
    }
  }

  /** Inserting a record whose id is new keeps the ids distinct. */
  lemma {:induction false} InsertKeepsDistinct(s: seq<Comment>, x: Comment, cmp: (Comment, Comment) -> int)
    requires DistinctIds(s) && forall z :: z in s ==> z.id != x.id
    ensures DistinctIds(Insert(s, x, cmp))
    decreases |s|
  {
    if s == [] {
    } else if cmp(s[|s| - 1], x) > 0 {
      var front, last := s[..|s| - 1], s[|s| - 1];
      assert s == front + [last];
      DistinctIdsFront(s);
      InsertKeepsDistinct(front, x, cmp);
      var r := Insert(front, x, cmp);
      forall z | z in r
        ensures z.id != last.id
      {
        assert z in multiset(r);
        if z != x {
          assert z in multiset(front);
          var k :| 0 <= k < |front| && front[k] == z;
          assert s[k] == z;
          DistinctAt(s, k, |s| - 1);
        } else {
          assert last in s;
        }
      }
      DistinctSnoc(r, last);
    } else {
      DistinctSnoc(s, x);
    }
  }

  /** Sorting a batch of distinct ids keeps them distinct. */
  lemma {:induction false} SortKeepsDistinct(s: seq<Comment>, cmp: (Comment, Comment) -> int)
    requires DistinctIds(s)
    ensures DistinctIds(StableSort(s, cmp))
    decreases |s|
  {
    if s != [] {
      var front, last := s[..|s| - 1], s[|s| - 1];
      assert s == front + [last];
      DistinctIdsFront(s);
      SortKeepsDistinct(front, cmp);
      var sorted := StableSort(front, cmp);
      forall z | z in sorted
        ensures z.id != last.id
      {
        assert z in multiset(sorted);
        assert z in multiset(front);
        var k :| 0 <= k < |front| && front[k] == z;
        assert s[k] == z;
        DistinctAt(s, k, |s| - 1);
      }
      InsertKeepsDistinct(sorted, last, cmp);
    }
  }

  /** Sorted by creation time, a batch whose replies are younger than their parents lists every parent first. */
  lemma SortPutsParentsFirst(batch: seq<Comment>)
    requires ParentsOlder(batch)
    ensures ParentsFirst(StableSort(batch, ByCreationAsc))
  {
    var s := StableSort(batch, ByCreationAsc);
    ByCreationAscIsConsistent();
    StableSortSorted(batch, ByCreationAsc);
    forall i, j | 0 <= i < |s| && 0 <= j < |s| && ParentAt(s, j) == Some(IdAt(s, i))
      ensures i < j
    {
      OlderParent(batch, s, i, j);
    }
  }

  /** A parent and its reply keep their creation order through any rearrangement of the batch. */
  lemma OlderParent(batch: seq<Comment>, s: seq<Comment>, i: nat, j: nat)
    requires ParentsOlder(batch) && multiset(s) == multiset(batch)
    requires i < |s| && j < |s| && s[j].parentId == Some(s[i].id)
    ensures s[i].createdAt < s[j].createdAt
  {
    assert s[i] in multiset(s) && s[j] in multiset(s);
    assert s[i] in batch && s[j] in batch;
  }

  /**
   * enrichMany on a batch with unique ids whose replies are younger than
   * their parents: every record of the batch is stored, its directChildIds
   * are exactly the ids of the records naming it as parent and its
   * allChildIds exactly those of its descendants, both in creation order;
   * the size is the batch size.
   */
  lemma EnrichManyThreads(batch: seq<Comment>)
    requires DistinctIds(batch) && ParentsOlder(batch)
    ensures EnrichManySpec(batch).Size() == |batch|
    ensures forall i :: 0 <= i < |batch| ==>
      var s := StableSort(batch, ByCreationAsc);
      EnrichManySpec(batch).Lookup(s[i].id) == Some(Enriched(s[i], Replies(s, |s|, i), Descendants(s, |s|, i)))
    ensures forall c, d :: c in batch && d in batch ==>
      EnrichManySpec(batch).Lookup(c.id).Some? &&
      (d.id in EnrichManySpec(batch).Lookup(c.id).value.directChildIds <==> d.parentId == Some(c.id))
    ensures forall c :: c in batch ==>
      && (c.id in EnrichManySpec(batch).child.entries <==> IsTruthy(c.parentId))
      && (c.id in EnrichManySpec(batch).root.entries <==> !IsTruthy(c.parentId))
  {
    var s := StableSort(batch, ByCreationAsc);
    SortKeepsDistinct(batch, ByCreationAsc);
    SortPutsParentsFirst(batch);
    EnrichedThreads(s);
    BatchReplies(batch, s, EnrichManySpec(batch));
    BatchPlacement(batch, s, EnrichManySpec(batch));
  }

  /** Placement carries over from the enrichment order to the batch as given. */
  lemma BatchPlacement(batch: seq<Comment>, s: seq<Comment>, p: Partitions)
    requires multiset(s) == multiset(batch)
    requires forall i :: 0 <= i < |s| ==>
      && (s[i].id in p.child.entries <==> IsTruthy(s[i].parentId))
      && (s[i].id in p.root.entries <==> !IsTruthy(s[i].parentId))
    ensures forall c :: c in batch ==>
      && (c.id in p.child.entries <==> IsTruthy(c.parentId))
      && (c.id in p.root.entries <==> !IsTruthy(c.parentId))
  {
    forall c | c in batch
      ensures c.id in p.child.entries <==> IsTruthy(c.parentId)
      ensures c.id in p.root.entries <==> !IsTruthy(c.parentId)
    {
      assert c in multiset(batch);
      assert c in s;
      var i :| 0 <= i < |s| && s[i] == c;
    }
  }

  /** Enrichment changes records, never keys: every id stays in the map it was in. */
  lemma EnrichKeepsOnePartition(p: Partitions, incoming: Incoming)
    requires p.Valid() && OnePartition(p)
    ensures EnrichSpec(p, incoming).0.Valid()
    ensures SameKeys(EnrichSpec(p, incoming).0, p)
    ensures OnePartition(EnrichSpec(p, incoming).0)
  {
    var e := Copy(incoming);
    if !IsNil(e.comment.parentId) {
      var pid := e.comment.parentId.value;
      var linked := LinkToParent(p, pid, e.Id());
      if p.Lookup(pid).Some? {
        var parent := p.Lookup(pid).value;
        ReplaceFacts(p, pid, parent.(directChildIds := parent.directChildIds + [e.Id()]));
      }
      assert SameKeys(linked, p);
      WalkKeepsKeys(linked, e.comment.parentId, e.Id(), linked.Size() + 1);
    }
  }

  /** Storing o[m] with empty lists adds o[m]'s id and no other. */
  lemma KnownPut(q: Partitions, o: seq<Comment>, m: nat)
    requires m < |o| && Known(q, o, m)
    ensures Known(q.Put(Enriched(o[m], [], [])), o, m + 1)
  {
    var f := q.Put(Enriched(o[m], [], []));
    forall x | x in f.child.entries || x in f.root.entries
      ensures exists i :: 0 <= i < m + 1 && o[i].id == x
    {
      if x != o[m].id {
        assert x in q.child.entries || x in q.root.entries;
        var i :| 0 <= i < m && o[i].id == x;
        assert 0 <= i < m + 1 && o[i].id == x;
      } else {
        assert o[m].id == x;
      }
    }
  }

  /** Enriching the first m records of a batch with unique ids, in order, stores each of their ids in exactly one map. */
  lemma {:induction false} EnrichAllOnePartition(o: seq<Comment>, m: nat)
    requires DistinctIds(o) && m <= |o|
    ensures EnrichAll(NoPartitions, o[..m]).Valid()
    ensures OnePartition(EnrichAll(NoPartitions, o[..m]))
    ensures Known(EnrichAll(NoPartitions, o[..m]), o, m)
    decreases m
  {
    if m == 0 {
      assert o[..0] == [];
    } else {
      EnrichAllOnePartition(o, m - 1);
      var p := EnrichAll(NoPartitions, o[..m - 1]);
      EnrichKeepsOnePartition(p, Raw(o[m - 1]));
      var q := EnrichSpec(p, Raw(o[m - 1])).0;
      KnownSameKeys(q, p, o, m - 1);
      forall i | 0 <= i < m - 1
        ensures o[i].id != o[m - 1].id
      {
        DistinctAt(o, i, m - 1);
      }
      UnknownNotFound(q, o, m - 1, o[m - 1].id);
      PutKeepsOnePartition(q, Enriched(o[m - 1], [], []));
      PutFacts(q, Enriched(o[m - 1], [], []));
      KnownPut(q, o, m - 1);
      PrefixStep(o, m);
    }
  }

  /**
   * enrichMany on a batch with unique ids stores every id in exactly one of
   * the two maps, whatever the order of parents and replies.
   */
  lemma EnrichManyOnePartition(batch: seq<Comment>)
    requires DistinctIds(batch)
    ensures OnePartition(EnrichManySpec(batch))
  {
    var s := StableSort(batch, ByCreationAsc);
    SortKeepsDistinct(batch, ByCreationAsc);
    EnrichAllOnePartition(s, |s|);
    assert s[..|s|] == s;
  }

  /** Every record of the batch is stored, and lists another as direct child exactly when it is its parent. */
  lemma BatchReplies(batch: seq<Comment>, s: seq<Comment>, p: Partitions)
    requires DistinctIds(s) && multiset(s) == multiset(batch)
    requires forall i :: 0 <= i < |s| ==>
      p.Lookup(s[i].id) == Some(Enriched(s[i], Replies(s, |s|, i), Descendants(s, |s|, i)))
    ensures forall c, d :: c in batch && d in batch ==>
      p.Lookup(c.id).Some? && (d.id in p.Lookup(c.id).value.directChildIds <==> d.parentId == Some(c.id))
  {
    forall c, d | c in batch && d in batch
      ensures p.Lookup(c.id).Some?
      ensures d.id in p.Lookup(c.id).value.directChildIds <==> d.parentId == Some(c.id)
    {
      assert c in multiset(batch) && d in multiset(batch);
      assert c in s && d in s;
      var i :| 0 <= i < |s| && s[i] == c;
      var j :| 0 <= j < |s| && s[j] == d;
      ReplyPair(s, p, i, j);
    }
  }

  /** In an index that stores each record with its replies, a record lists another as direct child exactly when it is its parent. */
  lemma ReplyPair(s: seq<Comment>, p: Partitions, i: nat, j: nat)
    requires DistinctIds(s) && i < |s| && j < |s|
    requires p.Lookup(s[i].id) == Some(Enriched(s[i], Replies(s, |s|, i), Descendants(s, |s|, i)))
    ensures p.Lookup(s[i].id).Some?
    ensures s[j].id in p.Lookup(s[i].id).value.directChildIds <==> s[j].parentId == Some(s[i].id)
  {
    RepliesMeaning(s, |s|, i);
    if s[j].id in Replies(s, |s|, i) {
      var k :| 0 <= k < |s| && s[k].id == s[j].id && s[k].parentId == Some(s[i].id);
      DistinctAt(s, k, j);
    }
  }
}
