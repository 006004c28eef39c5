/**
 * CommentTransformer of src/view-model/comment-transformer.ts: turns plain
 * comment records into enriched ones and threads each new id into its
 * parent's `directChildIds` and every ancestor's `allChildIds`.
 *
 * The source pushes onto arrays of records that the index holds by
 * reference; here a stored record is a value, so each push writes the
 * extended record back to the place where the lookup found it.
 */
module CommentTransformer {
  import opened Util
  import opened Models
  import opened CommentModelEnriched
  import opened CommentsByIdFactory
  import opened Sorting
  import JsMaps

  /** #getByCreationDateAscSorter: the difference of the creation times, older first. */
  function ByCreationAsc(a: Comment, b: Comment): int {
    a.createdAt - b.createdAt
  }

  /** The creation-time order is a consistent comparator. */
  lemma ByCreationAscIsConsistent()
    ensures IsConsistent(ByCreationAsc)
    ensures forall a, b :: ByCreationAsc(a, b) < 0 <==> a.createdAt < b.createdAt
  {
    forall a, b ensures Flips(ByCreationAsc, a, b) { }
    forall a, b, c ensures Chains(ByCreationAsc, a, b, c) { }
  }

  /** #assignChildId: the child id is appended to the ancestor's allChildIds. */
  function AssignChildId(parent: Enriched, childId: CommentId): Enriched {
    parent.(allChildIds := parent.allChildIds + [childId])
  }

  /** The push into the directChildIds of the parent the resolver finds; nothing when it finds none. */
  function LinkToParent(p: Partitions, parentId: CommentId, childId: CommentId): Partitions {
    match p.Lookup(parentId)
    case None => p
    case Some(parent) => p.Replace(parentId, parent.(directChildIds := parent.directChildIds + [childId]))
  }

  /**
   * #visitParents with #assignChildId as the visitor: from parentId upwards,
   * each ancestor the resolver finds gets childId appended to its
   * allChildIds; the walk ends at a nil parentId or an id the resolver does
   * not find, and in any case after `fuel` visits.
   */
  function Walk(p: Partitions, parentId: Option<CommentId>, childId: CommentId, fuel: nat): Partitions
    decreases fuel
  {
    if fuel == 0 || parentId.None? then p
    else
      match p.Lookup(parentId.value)
      case None => p
      case Some(parent) =>
        Walk(p.Replace(parentId.value, AssignChildId(parent, childId)), parent.comment.parentId, childId, fuel - 1)
  }

  /**
   * enrich(comment, resolver): the enriched copy, and the index after the
   * pushes into its parent and ancestors. The walk is given one visit more
   * than the index has records.
   */
  function EnrichSpec(p: Partitions, incoming: Incoming): (Partitions, Enriched) {
    var e := Copy(incoming);
    if IsNil(e.comment.parentId) then (p, e)
    else
      var linked := LinkToParent(p, e.comment.parentId.value, e.Id());
      (Walk(linked, e.comment.parentId, e.Id(), linked.Size() + 1), e)
  }

  /** The forEach of enrichMany: each record is enriched against the index so far, then stored by setComment. */
  function EnrichAll(p: Partitions, comments: seq<Comment>): Partitions {
    if comments == [] then p
    else
      var (q, e) := EnrichSpec(EnrichAll(p, comments[..|comments| - 1]), Raw(comments[|comments| - 1]));
      q.Put(e)
  }

  lemma EnrichAllStep(p: Partitions, comments: seq<Comment>, c: Comment)
    ensures EnrichAll(p, comments + [c]) == EnrichSpec(EnrichAll(p, comments), Raw(c)).0.Put(EnrichSpec(EnrichAll(p, comments), Raw(c)).1)
  {
    assert (comments + [c])[..|comments|] == comments;
  }

  /** enrichMany(comments): the batch in creation order, enriched into two empty maps. */
  function EnrichManySpec(batch: seq<Comment>): Partitions {
    EnrichAll(NoPartitions, StableSort(batch, ByCreationAsc))
  }

  /** #visitParents: the do-while loop over the ancestors, visiting each with #assignChildId. */
  method VisitParents(store: MapBasedCommentsById, parentId: CommentId, childId: CommentId)
    modifies store
    ensures store.Parts() == Walk(old(store.Parts()), Some(parentId), childId, old(store.Parts().Size()) + 1)
  {
    ghost var result := Walk(store.Parts(), Some(parentId), childId, store.Parts().Size() + 1);
    var fuel: nat := store.Parts().Size() + 1;
    var current: Option<CommentId> := Some(parentId);
    while fuel > 0 && current.Some?
      invariant Walk(store.Parts(), current, childId, fuel) == result
      decreases fuel
    {
      var parent := store.Parts().Lookup(current.value);
      if parent.Some? {
        store.UpdateStored(current.value, AssignChildId(parent.value, childId));
        current := parent.value.comment.parentId;
      } else {
        current := None;
      }
      fuel := fuel - 1;
    }
  }

  /** enrich(comment, getComment of store): the copy, then the pushes into the parent and the ancestors. */
  method Enrich(incoming: Incoming, store: MapBasedCommentsById) returns (e: Enriched)
    modifies store
    ensures (store.Parts(), e) == EnrichSpec(old(store.Parts()), incoming)
  {
    e := Copy(incoming);
    if !IsNil(e.comment.parentId) {
      var parentId := e.comment.parentId.value;
      var parent := store.Parts().Lookup(parentId);
      if parent.Some? {
        store.UpdateStored(parentId, parent.value.(directChildIds := parent.value.directChildIds + [e.Id()]));
      }
      VisitParents(store, parentId, e.Id());
    }
  }

  /**
   * enrichMany(comments): sorts the caller's array in place by creation
   * time, then enriches and stores each record in turn.
   */
  method EnrichMany(comments: array<Comment>) returns (r: CommentsById)
    modifies comments
    ensures comments[..] == StableSort(old(comments[..]), ByCreationAsc)
    ensures r.MapBased? && fresh(r.index)
    ensures r.index.Parts() == EnrichManySpec(old(comments[..]))
  {
    SortInPlace(comments, ByCreationAsc);
    ghost var sorted := comments[..];
    var store := new MapBasedCommentsById(JsMaps.Empty(), JsMaps.Empty());
    for i := 0 to comments.Length
      invariant comments[..] == sorted
      invariant store.Parts() == EnrichAll(NoPartitions, comments[..i])
    {
      var e := Enrich(Raw(comments[i]), store);
      store.SetComment(e);
      EnrichAllStep(NoPartitions, comments[..i], comments[i]);
      assert comments[..i + 1] == comments[..i] + [comments[i]];
    }
    assert comments[..comments.Length] == comments[..];
    r := MapBased(store);
  }

  /**
   * The push into the parent's directChildIds: the record the resolver finds
   * for parentId gets childId appended once; every other record, and every
   * key, stays as it was.
   */
  lemma LinkAppendsOnce(p: Partitions, parentId: CommentId, childId: CommentId)
    requires p.Valid()
    ensures LinkToParent(p, parentId, childId).Valid()
    ensures LinkToParent(p, parentId, childId).Size() == p.Size()
    ensures forall id ::
      LinkToParent(p, parentId, childId).Lookup(id) ==
        if id == parentId && p.Lookup(id).Some? then
          Some(p.Lookup(id).value.(directChildIds := p.Lookup(id).value.directChildIds + [childId]))
        else p.Lookup(id)
  {
    if p.Lookup(parentId).Some? {
      var parent := p.Lookup(parentId).value;
      ReplaceFacts(p, parentId, parent.(directChildIds := parent.directChildIds + [childId]));
    }
  }

  /** b is a plus some copies of x. */
  ghost predicate GrownBy(a: seq<CommentId>, b: seq<CommentId>, x: CommentId) {
    a <= b && forall k :: |a| <= k < |b| ==> b[k] == x
  }

  /**
   * The ancestor walk, whatever the chain looks like, only ever appends
   * childId to allChildIds: no record appears or disappears, and each
   * record keeps its fields and its directChildIds. A walk that meets a nil
   * parentId or an id the resolver does not find stops there.
   */
  lemma {:induction false} WalkOnlyGrowsAllChildIds(p: Partitions, parentId: Option<CommentId>, childId: CommentId, fuel: nat)
    requires p.Valid()
    ensures Walk(p, parentId, childId, fuel).Valid()
    ensures Walk(p, parentId, childId, fuel).Size() == p.Size()
    ensures forall id :: Walk(p, parentId, childId, fuel).Lookup(id).Some? <==> p.Lookup(id).Some?
    ensures forall id :: p.Lookup(id).Some? ==>
      && Walk(p, parentId, childId, fuel).Lookup(id).value.comment == p.Lookup(id).value.comment
      && Walk(p, parentId, childId, fuel).Lookup(id).value.directChildIds == p.Lookup(id).value.directChildIds
      && GrownBy(p.Lookup(id).value.allChildIds, Walk(p, parentId, childId, fuel).Lookup(id).value.allChildIds, childId)
    ensures parentId.None? || p.Lookup(parentId.value).None? ==> Walk(p, parentId, childId, fuel) == p
    decreases fuel
  {
    if fuel > 0 && parentId.Some? && p.Lookup(parentId.value).Some? {
      var parent := p.Lookup(parentId.value).value;
      var next := p.Replace(parentId.value, AssignChildId(parent, childId));
      ReplaceFacts(p, parentId.value, AssignChildId(parent, childId));
      WalkOnlyGrowsAllChildIds(next, parent.comment.parentId, childId, fuel - 1);
      var w := Walk(next, parent.comment.parentId, childId, fuel - 1);
      assert Walk(p, parentId, childId, fuel) == w;
      forall id | p.Lookup(id).Some?
        ensures GrownBy(p.Lookup(id).value.allChildIds, w.Lookup(id).value.allChildIds, childId)
      {
        var a, b, c := p.Lookup(id).value.allChildIds, next.Lookup(id).value.allChildIds, w.Lookup(id).value.allChildIds;
        assert GrownBy(a, b, childId);
        assert GrownBy(b, c, childId);
      }
    }
  }

  /** Enrichment keeps a valid index valid and adds no key. */
  lemma EnrichKeepsKeys(p: Partitions, incoming: Incoming)
    requires p.Valid()
    ensures EnrichSpec(p, incoming).0.Valid()
    ensures EnrichSpec(p, incoming).0.Size() == p.Size()
    ensures forall id :: EnrichSpec(p, incoming).0.Lookup(id).Some? <==> p.Lookup(id).Some?
  {
    var e := Copy(incoming);
    if !IsNil(e.comment.parentId) {
      var linked := LinkToParent(p, e.comment.parentId.value, e.Id());
      LinkAppendsOnce(p, e.comment.parentId.value, e.Id());
      WalkOnlyGrowsAllChildIds(linked, e.comment.parentId, e.Id(), linked.Size() + 1);
    }
  }

  /** The index enrichMany fills stays valid after every record. */
  lemma {:induction false} EnrichAllValid(p: Partitions, comments: seq<Comment>)
    requires p.Valid()
    ensures EnrichAll(p, comments).Valid()
    decreases |comments|
  {
    if comments != [] {
      var front := comments[..|comments| - 1];
      EnrichAllValid(p, front);
      var (q, e) := EnrichSpec(EnrichAll(p, front), Raw(comments[|comments| - 1]));
      EnrichKeepsKeys(EnrichAll(p, front), Raw(comments[|comments| - 1]));
      PutFacts(q, e);
    }
  }
}
