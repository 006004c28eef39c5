/**
 * CommentViewModel of src/view-model/comment-view-model.ts: the one object
 * the comment components talk to. It owns the comment index, answers
 * queries over it, applies additions, edits and upvotes, and notifies the
 * listeners subscribed to each kind of change.
 *
 * A listener is known by its identity; what it does when called is not
 * part of the model. Each emit is recorded, with the listeners it reaches,
 * in a ghost log.
 */
module ViewModel {
  import opened Util
  import opened Models
  import opened CommentModelEnriched
  import opened CommentsByIdFactory
  import opened CommentTransformer
  import opened Sorting
  import JsMaps
  import Threading

  /** CommentViewModelEvent. */
  datatype Event = CommentAdded | CommentUpdated | CommentUpvoted | CommentDeleted

  /** A listener function, by identity. */
  type Listener = nat

  /** The handle subscribe returns; its unsubscribe removes that listener from that event. */
  datatype Subscription = Subscription(kind: Event, listener: Listener)

  /** One emit: the event, the comment id passed along, and the listeners called, in order. */
  datatype Emission = Emission(event: Event, commentId: CommentId, notified: seq<Listener>)

  /** The event emitter's table: the listeners of each event in registration order. */
  type Listeners = map<Event, seq<Listener>>

  function ListenersOf(ls: Listeners, kind: Event): seq<Listener> {
    if kind in ls then ls[kind] else []
  }

  /** addListener(kind, l): l is called after those already registered, even if it is one of them. */
  function Added(ls: Listeners, kind: Event, l: Listener): (r: Listeners)
    ensures ListenersOf(r, kind) == ListenersOf(ls, kind) + [l]
    ensures forall k :: k != kind ==> ListenersOf(r, k) == ListenersOf(ls, k)
  {
    ls[kind := ListenersOf(ls, kind) + [l]]
  }

  /**
   * removeListener(kind, l): every registration of l for that event goes,
   * the others keep their order, and an event left without listeners is
   * dropped from the table.
   */
  function Removed(ls: Listeners, kind: Event, l: Listener): (r: Listeners)
    ensures ListenersOf(r, kind) == JsMaps.Without(ListenersOf(ls, kind), l)
    ensures forall x :: x in ListenersOf(r, kind) <==> x in ListenersOf(ls, kind) && x != l
    ensures multiset(ListenersOf(r, kind)) == multiset(ListenersOf(ls, kind))[l := 0]
    ensures l !in ListenersOf(ls, kind) ==> ListenersOf(r, kind) == ListenersOf(ls, kind)
    ensures forall k :: k != kind ==> ListenersOf(r, k) == ListenersOf(ls, k)
    ensures kind in r ==> r[kind] != []
  {
    if kind !in ls then ls
    else
      JsMaps.WithoutMembers(ls[kind], l);
      JsMaps.WithoutCounts(ls[kind], l);
      var rest := JsMaps.Without(ls[kind], l);
      if rest == [] then ls - {kind} else ls[kind := rest]
  }

  /**
   * Removing a listener registered between front and back keeps the
   * others in registration order: what stays of front, then what stays
   * of back; with no other registration of it, exactly front + back.
   */
  lemma RemovedKeepsOrder(ls: Listeners, kind: Event, l: Listener, front: seq<Listener>, back: seq<Listener>)
    requires ListenersOf(ls, kind) == front + [l] + back
    ensures ListenersOf(Removed(ls, kind, l), kind) == JsMaps.Without(front, l) + JsMaps.Without(back, l)
    ensures l !in front && l !in back ==> ListenersOf(Removed(ls, kind, l), kind) == front + back
  {
    var removed := ListenersOf(Removed(ls, kind, l), kind);
    assert removed == JsMaps.Without((front + [l]) + back, l);
    JsMaps.WithoutSplits(front + [l], back, l);
    JsMaps.WithoutSplits(front, [l], l);
    JsMaps.WithoutOne(l, l);
    assert JsMaps.Without(front + [l], l) == JsMaps.Without(front, l);
    if l !in front && l !in back {
      JsMaps.WithoutMembers(front, l);
      JsMaps.WithoutMembers(back, l);
    }
  }

  /** removeAllListeners(kind): the listeners of that event, or of every event when none is named. */
  function Cleared(ls: Listeners, kind: Option<Event>): (r: Listeners)
    ensures kind.None? ==> forall k :: ListenersOf(r, k) == []
    ensures kind.Some? ==> ListenersOf(r, kind.value) == []
    ensures kind.Some? ==> forall k :: k != kind.value ==> ListenersOf(r, k) == ListenersOf(ls, k)
  {
    if kind.None? then map[] else ls - {kind.value}
  }

  /** Subscribing a new listener and unsubscribing it leaves the event's listeners as they were. */
  lemma {:induction false} UnsubscribeUndoesSubscribe(ls: Listeners, kind: Event, l: Listener)
    requires l !in ListenersOf(ls, kind)
    ensures ListenersOf(Removed(Added(ls, kind, l), kind, l), kind) == ListenersOf(ls, kind)
    ensures forall k :: ListenersOf(Removed(Added(ls, kind, l), kind, l), k) == ListenersOf(ls, k)
  {
    var s := ListenersOf(ls, kind);
    var added := Added(ls, kind, l);
    assert (s + [l])[..|s|] == s;
    assert JsMaps.Without(s + [l], l) == JsMaps.Without(s, l);
    JsMaps.WithoutMembers(s, l);
    assert ListenersOf(Removed(added, kind, l), kind) == s;
  }

  /**
   * updateComment on one record: every property the payload carries is
   * copied onto the stored record, except the identity (id, parentId,
   * createdAt, creatorUserId, creatorDisplayName), which the stored record
   * keeps; the child id lists are kept as they are.
   */
  function Updated(existing: Enriched, payload: Comment): (r: Enriched)
    ensures r.directChildIds == existing.directChildIds && r.allChildIds == existing.allChildIds
    ensures r.comment == Overlay(existing.comment, AsPatch(payload)).(
      id := existing.comment.id,
      parentId := existing.comment.parentId,
      createdAt := existing.comment.createdAt,
      creatorUserId := existing.comment.creatorUserId,
      creatorDisplayName := existing.comment.creatorDisplayName)
  {
    var pinned := payload.(
      id := existing.comment.id,
      parentId := existing.comment.parentId,
      createdAt := existing.comment.createdAt,
      creatorUserId := existing.comment.creatorUserId,
      creatorDisplayName := existing.comment.creatorDisplayName);
    existing.(comment := Overlay(existing.comment, AsPatch(pinned)))
  }

  /** Updating twice with the same payload is updating once; a record updated with its own comment is unchanged. */
  lemma UpdateIsIdempotent(existing: Enriched, payload: Comment)
    ensures Updated(Updated(existing, payload), payload) == Updated(existing, payload)
    ensures Updated(existing, existing.comment) == existing
  {
  }

  /** upvoteComment on one record: exactly the upvote count and the current user's upvote flag take the payload's values. */
  function Upvoted(existing: Enriched, payload: Comment): (r: Enriched)
    ensures r.comment.upvoteCount == payload.upvoteCount
    ensures r.comment.upvotedByCurrentUser == payload.upvotedByCurrentUser
    ensures r.comment.(upvoteCount := existing.comment.upvoteCount,
                       upvotedByCurrentUser := existing.comment.upvotedByCurrentUser) == existing.comment
    ensures r.directChildIds == existing.directChildIds && r.allChildIds == existing.allChildIds
  {
    existing.(comment := existing.comment.(
      upvoteCount := payload.upvoteCount,
      upvotedByCurrentUser := payload.upvotedByCurrentUser))
  }

  /** Every record of the index is found under its own id. */
  ghost predicate KeyedById(p: Partitions) {
    forall id :: p.Lookup(id).Some? ==> p.Lookup(id).value.Id() == id
  }

  /** Storing a record keeps every record under its own id. */
  lemma PutKeepsIds(p: Partitions, e: Enriched)
    requires p.Valid() && KeyedById(p)
    ensures KeyedById(p.Put(e))
  {
    PutFacts(p, e);
    assert p.Lookup(e.Id()).Some? ==> p.Lookup(e.Id()).value.Id() == e.Id();
  }

  /** Enrichment changes no record's comment, so every record stays under its own id. */
  lemma EnrichKeepsIds(p: Partitions, incoming: Incoming)
    requires p.Valid() && KeyedById(p)
    ensures KeyedById(EnrichSpec(p, incoming).0)
  {
    var e := Copy(incoming);
    if !IsNil(e.comment.parentId) {
      var linked := LinkToParent(p, e.comment.parentId.value, e.Id());
      LinkAppendsOnce(p, e.comment.parentId.value, e.Id());
      assert KeyedById(linked);
      WalkOnlyGrowsAllChildIds(linked, e.comment.parentId, e.Id(), linked.Size() + 1);
    }
  }

  /** The index enrichMany fills keeps every record under its own id. */
  lemma {:induction false} EnrichAllKeepsIds(p: Partitions, comments: seq<Comment>)
    requires p.Valid() && KeyedById(p)
    ensures KeyedById(EnrichAll(p, comments))
    decreases |comments|
  {
    if comments != [] {
      var front := comments[..|comments| - 1];
      EnrichAllKeepsIds(p, front);
      EnrichAllValid(p, front);
      var (q, e) := EnrichSpec(EnrichAll(p, front), Raw(comments[|comments| - 1]));
      EnrichKeepsKeys(EnrichAll(p, front), Raw(comments[|comments| - 1]));
      EnrichKeepsIds(EnrichAll(p, front), Raw(comments[|comments| - 1]));
      PutKeepsIds(q, e);
      PutFacts(q, e);
    }
  }

  /** The walk from a parent that is found first appends the child id to that parent's allChildIds. */
  lemma WalkFromFoundParent(p: Partitions, parentId: CommentId, childId: CommentId, fuel: nat)
    requires p.Valid() && fuel > 0 && p.Lookup(parentId).Some?
    ensures Walk(p, Some(parentId), childId, fuel).Lookup(parentId).Some?
    ensures GrownBy(p.Lookup(parentId).value.allChildIds + [childId],
                    Walk(p, Some(parentId), childId, fuel).Lookup(parentId).value.allChildIds, childId)
  {
    var parent := p.Lookup(parentId).value;
    var next := p.Replace(parentId, AssignChildId(parent, childId));
    ReplaceFacts(p, parentId, AssignChildId(parent, childId));
    WalkOnlyGrowsAllChildIds(next, parent.comment.parentId, childId, fuel - 1);
  }

  /**
   * addComment(c) on an index without c.id: the stored record is c with
   * empty child lists; the index grows by one record, found under c.id;
   * no other id appears or disappears; a parent that is found lists c.id
   * last among its direct children and at the end of its descendants.
   */
  lemma AddStoresNewRecord(p: Partitions, c: Comment)
    requires p.Valid() && KeyedById(p) && p.Lookup(c.id).None?
    ensures EnrichSpec(p, Raw(c)).1 == Enriched(c, [], [])
    ensures EnrichSpec(p, Raw(c)).0.Put(Enriched(c, [], [])).Valid()
    ensures KeyedById(EnrichSpec(p, Raw(c)).0.Put(Enriched(c, [], [])))
    ensures EnrichSpec(p, Raw(c)).0.Put(Enriched(c, [], [])).Size() == p.Size() + 1
    ensures EnrichSpec(p, Raw(c)).0.Put(Enriched(c, [], [])).Lookup(c.id) == Some(Enriched(c, [], []))
    ensures forall id :: id != c.id ==>
      (EnrichSpec(p, Raw(c)).0.Put(Enriched(c, [], [])).Lookup(id).Some? <==> p.Lookup(id).Some?)
    ensures !IsNil(c.parentId) && p.Lookup(c.parentId.value).Some? ==>
      var after := EnrichSpec(p, Raw(c)).0.Put(Enriched(c, [], [])).Lookup(c.parentId.value);
      && after.Some?
      && after.value.directChildIds == p.Lookup(c.parentId.value).value.directChildIds + [c.id]
      && GrownBy(p.Lookup(c.parentId.value).value.allChildIds + [c.id], after.value.allChildIds, c.id)
  {
    var e := Enriched(c, [], []);
    var q := EnrichSpec(p, Raw(c)).0;
    EnrichKeepsKeys(p, Raw(c));
    EnrichKeepsIds(p, Raw(c));
    PutFacts(q, e);
    PutKeepsIds(q, e);
    assert q.Lookup(c.id).None?;
    assert q.child.Get(c.id).None? && q.root.Get(c.id).None?;
    if !IsNil(c.parentId) && p.Lookup(c.parentId.value).Some? {
      AddGrowsParent(p, c);
    }
  }

  /** Adding a reply whose parent is stored appends the reply to the parent's directChildIds and allChildIds. */
  lemma AddGrowsParent(p: Partitions, c: Comment)
    requires p.Valid() && KeyedById(p) && p.Lookup(c.id).None?
    requires !IsNil(c.parentId) && p.Lookup(c.parentId.value).Some?
    ensures
      var after := EnrichSpec(p, Raw(c)).0.Put(Enriched(c, [], [])).Lookup(c.parentId.value);
      && after.Some?
      && after.value.directChildIds == p.Lookup(c.parentId.value).value.directChildIds + [c.id]
      && GrownBy(p.Lookup(c.parentId.value).value.allChildIds + [c.id], after.value.allChildIds, c.id)
  {
    var e := Enriched(c, [], []);
    var q := EnrichSpec(p, Raw(c)).0;
    var pid := c.parentId.value;
    EnrichKeepsKeys(p, Raw(c));
    PutFacts(q, e);
    var linked := LinkToParent(p, pid, c.id);
    LinkAppendsOnce(p, pid, c.id);
    WalkFromFoundParent(linked, pid, c.id, linked.Size() + 1);
    WalkOnlyGrowsAllChildIds(linked, c.parentId, c.id, linked.Size() + 1);
    assert q == Walk(linked, Some(pid), c.id, linked.Size() + 1);
    assert pid != c.id;
  }

  /**
   * addComment on the index enrichMany built from o: when the new comment
   * keeps the ids distinct and comes after its parent, every record,
   * the new one included, still lists exactly its replies as directChildIds
   * and exactly its descendants as allChildIds, and is placed by truthiness.
   */
  lemma AddKeepsThreads(o: seq<Comment>, c: Comment)
    requires Threading.DistinctIds(o + [c]) && Threading.ParentsFirst(o + [c])
    ensures
      var after := EnrichSpec(EnrichAll(NoPartitions, o), Raw(c)).0.Put(Enriched(c, [], []));
      && after.Size() == |o| + 1
      && forall i :: 0 <= i < |o + [c]| ==>
        && after.Lookup((o + [c])[i].id)
          == Some(Enriched((o + [c])[i], Threading.Replies(o + [c], |o| + 1, i), Threading.Descendants(o + [c], |o| + 1, i)))
        && ((o + [c])[i].id in after.child.entries <==> IsTruthy((o + [c])[i].parentId))
  {
    EnrichAllStep(NoPartitions, o, c);
    Threading.EnrichedThreads(o + [c]);
  }

  /** addComment of a new id keeps every stored id in exactly one of the two maps. */
  lemma AddKeepsOnePartition(p: Partitions, c: Comment)
    requires p.Valid() && OnePartition(p) && p.Lookup(c.id).None?
    ensures OnePartition(EnrichSpec(p, Raw(c)).0.Put(Enriched(c, [], [])))
  {
    Threading.EnrichKeepsOnePartition(p, Raw(c));
    var q := EnrichSpec(p, Raw(c)).0;
    EnrichKeepsKeys(p, Raw(c));
    assert q.Lookup(c.id).None?;
    PutKeepsOnePartition(q, Enriched(c, [], []));
  }

  /**
   * A reply whose parentId is "": "" is not nil, so addComment links the
   * reply to the record stored under "", yet "" is falsy, so setComment
   * stores the reply in the root map and leaves the child map alone.
   */
  lemma EmptyParentLinksButStaysRoot(p: Partitions, c: Comment)
    requires p.Valid() && KeyedById(p) && p.Lookup(c.id).None?
    requires c.parentId == Some("") && p.Lookup("").Some?
    ensures
      var after := EnrichSpec(p, Raw(c)).0.Put(Enriched(c, [], []));
      && after.Lookup("").Some?
      && after.Lookup("").value.directChildIds == p.Lookup("").value.directChildIds + [c.id]
      && c.id in after.root.entries && c.id !in after.child.entries
      && after.child == EnrichSpec(p, Raw(c)).0.child
  {
    var q := EnrichSpec(p, Raw(c)).0;
    AddGrowsParent(p, c);
    EnrichKeepsKeys(p, Raw(c));
    assert q.Lookup(c.id).None?;
    PutFacts(q, Enriched(c, [], []));
  }

  /**
   * enrich of a record enriched before: the record comes back as it was,
   * its lists included, and the index changes exactly as for a first
   * enrichment of its comment. So a found parent lists the id once more
   * among its directChildIds (a parent listing [c] ends with [c, c]) and
   * once more at the end of its allChildIds, and every stored allChildIds
   * only grows by copies of the id.
   */
  lemma ReenrichThreadsAgain(p: Partitions, e: Enriched)
    requires p.Valid()
    ensures EnrichSpec(p, Reenriched(e)).1 == e
    ensures EnrichSpec(p, Reenriched(e)).0 == EnrichSpec(p, Raw(e.comment)).0
    ensures forall id :: p.Lookup(id).Some? ==>
      && EnrichSpec(p, Reenriched(e)).0.Lookup(id).Some?
      && GrownBy(p.Lookup(id).value.allChildIds, EnrichSpec(p, Reenriched(e)).0.Lookup(id).value.allChildIds, e.Id())
    ensures !IsNil(e.comment.parentId) && p.Lookup(e.comment.parentId.value).Some? ==>
      var before := p.Lookup(e.comment.parentId.value).value;
      var after := EnrichSpec(p, Reenriched(e)).0.Lookup(e.comment.parentId.value);
      && after.Some?
      && after.value.directChildIds == before.directChildIds + [e.Id()]
      && GrownBy(before.allChildIds + [e.Id()], after.value.allChildIds, e.Id())
  {
    if !IsNil(e.comment.parentId) {
      var pid := e.comment.parentId.value;
      var linked := LinkToParent(p, pid, e.Id());
      LinkAppendsOnce(p, pid, e.Id());
      WalkOnlyGrowsAllChildIds(linked, e.comment.parentId, e.Id(), linked.Size() + 1);
      forall id | p.Lookup(id).Some?
        ensures linked.Lookup(id).value.allChildIds == p.Lookup(id).value.allChildIds
      {
      }
      if p.Lookup(pid).Some? {
        WalkFromFoundParent(linked, pid, e.Id(), linked.Size() + 1);
      }
    }
  }

  /**
   * updateComment / upvoteComment on an index that holds id: the new record
   * is found under id, every other id reads what it read, and the size and
   * the id keying stay.
   */
  lemma RewriteKeepsOthers(p: Partitions, id: CommentId, e: Enriched)
    requires p.Valid() && KeyedById(p) && p.Lookup(id).Some? && e.Id() == id
    ensures p.Replace(id, e).Valid() && KeyedById(p.Replace(id, e))
    ensures p.Replace(id, e).Size() == p.Size()
    ensures p.Replace(id, e).Lookup(id) == Some(e)
    ensures forall x :: x != id ==> p.Replace(id, e).Lookup(x) == p.Lookup(x)
  {
    ReplaceFacts(p, id, e);
  }

  /** The defined entries of a child snapshot, in order. */
  function Present(xs: seq<Option<Enriched>>): (r: seq<Enriched>)
    ensures |r| <= |xs|
  {
    if xs == [] then []
    else Present(xs[..|xs| - 1]) + (if xs[|xs| - 1].Some? then [xs[|xs| - 1].value] else [])
  }

  /** The number of undefined entries of a child snapshot. */
  function Missing(xs: seq<Option<Enriched>>): nat {
    if xs == [] then 0
    else Missing(xs[..|xs| - 1]) + (if xs[|xs| - 1].Some? then 0 else 1)
  }

  function Lift(s: seq<Enriched>): seq<Option<Enriched>> {
    seq(|s|, i requires 0 <= i < |s| => Some(s[i]))
  }

  function Nones(n: nat): seq<Option<Enriched>> {
    seq(n, _ => None)
  }

  /**
   * `children.sort(sorter)` on a snapshot with undefined entries: the
   * defined entries sorted by the comparator, then the undefined ones,
   * which Array.prototype.sort never hands to the comparator.
   */
  function SortSnapshot(xs: seq<Option<Enriched>>, cmp: (Enriched, Enriched) -> int): seq<Option<Enriched>> {
    Lift(StableSort(Present(xs), cmp)) + Nones(Missing(xs))
  }

  lemma {:induction false} PresentAndMissingCount(xs: seq<Option<Enriched>>)
    ensures |Present(xs)| + Missing(xs) == |xs|
    decreases |xs|
  {
    if xs != [] {
      PresentAndMissingCount(xs[..|xs| - 1]);
    }
  }

  lemma {:induction false} TrailingNones(xs: seq<Option<Enriched>>, n: nat)
    ensures Present(xs + Nones(n)) == Present(xs)
    ensures Missing(xs + Nones(n)) == Missing(xs) + n
    decreases n
  {
    if n == 0 {
      assert xs + Nones(n) == xs;
    } else {
      var longer := xs + Nones(n);
      assert longer[..|longer| - 1] == xs + Nones(n - 1);
      assert longer[|longer| - 1].None?;
      TrailingNones(xs, n - 1);
    }
  }

  lemma {:induction false} LiftedPresent(s: seq<Enriched>)
    ensures Present(Lift(s)) == s
    ensures Missing(Lift(s)) == 0
    decreases |s|
  {
    if s != [] {
      assert Lift(s)[..|s| - 1] == Lift(s[..|s| - 1]);
      LiftedPresent(s[..|s| - 1]);
    }
  }

  /** In the defined entries followed by n undefined ones, an entry is undefined exactly from position |s| on. */
  lemma LiftThenNones(s: seq<Enriched>, n: nat)
    ensures |Lift(s) + Nones(n)| == |s| + n
    ensures forall i :: 0 <= i < |s| + n ==> ((Lift(s) + Nones(n))[i].None? <==> i >= |s|)
  {
    var r := Lift(s) + Nones(n);
    forall i | 0 <= i < |s| + n
      ensures r[i].None? <==> i >= |s|
    {
      if i < |s| {
        assert r[i] == Lift(s)[i];
      } else {
        assert r[i] == Nones(n)[i - |s|];
      }
    }
  }

  /**
   * Sorting a child snapshot keeps its length, sorts its defined entries
   * with the comparator and moves every undefined entry behind them;
   * with a consistent comparator the defined entries come out in order.
   */
  lemma SortSnapshotFacts(xs: seq<Option<Enriched>>, cmp: (Enriched, Enriched) -> int)
    ensures |SortSnapshot(xs, cmp)| == |xs|
    ensures Present(SortSnapshot(xs, cmp)) == StableSort(Present(xs), cmp)
    ensures multiset(Present(SortSnapshot(xs, cmp))) == multiset(Present(xs))
    ensures Missing(SortSnapshot(xs, cmp)) == Missing(xs)
    ensures forall i :: 0 <= i < |xs| ==> (SortSnapshot(xs, cmp)[i].None? <==> i >= |Present(xs)|)
    ensures IsConsistent(cmp) ==> SortedBy(Present(SortSnapshot(xs, cmp)), cmp)
  {
    var sorted := StableSort(Present(xs), cmp);
    var r := SortSnapshot(xs, cmp);
    assert r == Lift(sorted) + Nones(Missing(xs));
    PresentAndMissingCount(xs);
    TrailingNones(Lift(sorted), Missing(xs));
    LiftedPresent(sorted);
    LiftThenNones(sorted, Missing(xs));
    if IsConsistent(cmp) {
      StableSortSorted(Present(xs), cmp);
    }
  }

  /** enrichMany's index is consistent and keyed by id. */
  lemma EnrichManyKeyed(batch: seq<Comment>)
    ensures EnrichManySpec(batch).Valid() && KeyedById(EnrichManySpec(batch))
  {
    EnrichAllValid(NoPartitions, StableSort(batch, ByCreationAsc));
    EnrichAllKeepsIds(NoPartitions, StableSort(batch, ByCreationAsc));
  }

  /** The view model: the index, the event emitter's table and the log of what it emitted. */
  class CommentViewModel {
    var commentsById: CommentsById
    var listeners: Listeners
    ghost var emitted: seq<Emission>

    /** The index is consistent and keyed by id; nothing in the view model ever emits COMMENT_DELETED. */
    ghost predicate Valid()
      reads this, commentsById.Footprint()
    {
      && (commentsById.MapBased? ==>
            commentsById.index.Parts().Valid() && KeyedById(commentsById.index.Parts()))
      && forall k :: 0 <= k < |emitted| ==> emitted[k].event != CommentDeleted
    }

    /** A new view model holds the empty index and no listeners. */
    constructor ()
      ensures Valid()
      ensures commentsById == EmptyCommentsById && listeners == map[] && emitted == []
    {
      commentsById := EmptyCommentsById;
      listeners := map[];
      emitted := [];
    }

    /**
     * initComments(comments): when the index already holds records, only a
     * warning; otherwise the batch is sorted in place and enriched, and the
     * view model takes the index it produces.
     */
    method InitComments(comments: array<Comment>) returns (warned: bool)
      requires Valid()
      modifies this, comments
      ensures Valid()
      ensures listeners == old(listeners) && emitted == old(emitted)
      ensures warned <==> old(commentsById.Size()) > 0
      ensures warned ==> commentsById == old(commentsById) && comments[..] == old(comments[..])
      ensures !warned ==>
        && commentsById.MapBased? && fresh(commentsById.index)
        && commentsById.index.Parts() == EnrichManySpec(old(comments[..]))
        && comments[..] == StableSort(old(comments[..]), ByCreationAsc)
    {
      if commentsById.Size() > 0 {
        return true;
      }
      warned := false;
      ghost var batch := comments[..];
      var enriched := EnrichMany(comments);
      EnrichManyKeyed(batch);
      if commentsById.MapBased? {
        MergeIntoEmpty(commentsById.index.Parts(), enriched.index.Parts());
      }
      var merged := commentsById.Merge(enriched);
      commentsById := merged.value;
    }

    /** size: the number of records, root and child. */
    function Size(): (r: nat)
      requires Valid()
      reads this, commentsById.Footprint()
      ensures commentsById.EmptyCommentsById? ==> r == 0
      ensures commentsById.MapBased? ==>
        r == |commentsById.index.root.entries| + |commentsById.index.child.entries|
    {
      if commentsById.MapBased? then
        SizeCountsRecords(commentsById.index.Parts());
        commentsById.Size()
      else commentsById.Size()
    }

    /** getComment(id): the record stored for id, which carries that id; the empty index throws. */
    function GetComment(id: CommentId): (r: Result<Option<Enriched>>)
      requires Valid()
      reads this, commentsById.Footprint()
      ensures commentsById.EmptyCommentsById? <==> r == Err(NotSupported("getComment"))
      ensures r.Ok? && r.value.Some? ==> r.value.value.Id() == id
    {
      commentsById.GetComment(id)
    }

    /** getRootComments(sorter): the root records in insertion order, or sorted by the sorter on a fresh array. */
    method GetRootComments(sorter: Option<(Enriched, Enriched) -> int>) returns (r: Result<seq<Enriched>>)
      ensures commentsById.EmptyCommentsById? ==> r == Err(NotSupported("getRootComments"))
      ensures commentsById.MapBased? && sorter.None? ==> r == Ok(commentsById.index.Parts().RootComments())
      ensures commentsById.MapBased? && sorter.Some? ==>
        r == Ok(StableSort(commentsById.index.Parts().RootComments(), sorter.value))
    {
      var comments := commentsById.GetRootComments();
      if comments.Err? || sorter.None? {
        return comments;
      }
      var roots := comments.value;
      var a := new Enriched[|roots|](i requires 0 <= i < |roots| => roots[i]);
      assert a[..] == roots;
      SortInPlace(a, sorter.value);
      r := Ok(a[..]);
    }

    /**
     * getChildComments(parentId, sorter): the records listed in the
     * parent's allChildIds, undefined where an id is not stored; sorted,
     * the defined ones come first in sorter order.
     */
    method GetChildComments(parentId: CommentId, sorter: Option<(Enriched, Enriched) -> int>)
      returns (r: Result<seq<Option<Enriched>>>)
      ensures commentsById.EmptyCommentsById? ==> r == Err(NotSupported("getChildComments"))
      ensures commentsById.MapBased? && sorter.None? ==> r == commentsById.index.Parts().ChildComments(parentId)
      ensures commentsById.MapBased? && sorter.Some? ==>
        r == match commentsById.index.Parts().ChildComments(parentId)
             case Err(f) => Err(f)
             case Ok(xs) => Ok(SortSnapshot(xs, sorter.value))
    {
      var children := commentsById.GetChildComments(parentId);
      if children.Err? || sorter.None? {
        return children;
      }
      var defined := Present(children.value);
      var a := new Enriched[|defined|](i requires 0 <= i < |defined| => defined[i]);
      assert a[..] == defined;
      SortInPlace(a, sorter.value);
      assert a[..] == StableSort(defined, sorter.value);
      r := Ok(Lift(a[..]) + Nones(Missing(children.value)));
    }

    /** subscribe(kind, listener): the listener is registered and a handle for it returned. */
    method Subscribe(kind: Event, listener: Listener) returns (s: Subscription)
      requires Valid()
      modifies this
      ensures Valid()
      ensures s == Subscription(kind, listener)
      ensures listeners == Added(old(listeners), kind, listener)
      ensures commentsById == old(commentsById) && emitted == old(emitted)
    {
      listeners := Added(listeners, kind, listener);
      s := Subscription(kind, listener);
    }

    /** unsubscribe(kind, listener). */
    method Unsubscribe(kind: Event, listener: Listener)
      requires Valid()
      modifies this
      ensures Valid()
      ensures listeners == Removed(old(listeners), kind, listener)
      ensures commentsById == old(commentsById) && emitted == old(emitted)
    {
      listeners := Removed(listeners, kind, listener);
    }

    /** The unsubscribe of a handle subscribe returned. */
    method Cancel(s: Subscription)
      requires Valid()
      modifies this
      ensures Valid()
      ensures listeners == Removed(old(listeners), s.kind, s.listener)
      ensures commentsById == old(commentsById) && emitted == old(emitted)
    {
      Unsubscribe(s.kind, s.listener);
    }

    /** unsubscribeAll(kind). */
    method UnsubscribeAll(kind: Option<Event>)
      requires Valid()
      modifies this
      ensures Valid()
      ensures listeners == Cleared(old(listeners), kind)
      ensures commentsById == old(commentsById) && emitted == old(emitted)
    {
      listeners := Cleared(listeners, kind);
    }

    /** emit(event, id): the listeners of the event are called with id, in registration order. */
    method Emit(event: Event, id: CommentId)
      requires Valid() && event != CommentDeleted
      modifies this
      ensures Valid()
      ensures emitted == old(emitted) + [Emission(event, id, ListenersOf(listeners, event))]
      ensures commentsById == old(commentsById) && listeners == old(listeners)
    {
      emitted := emitted + [Emission(event, id, ListenersOf(listeners, event))];
    }

    /**
     * addComment(c): throws when c.id is already stored (or the index is
     * the empty one); otherwise enriches c against the stored records,
     * stores it, emits COMMENT_ADDED with c.id and returns the new record.
     */
    method AddComment(c: Comment) returns (r: Result<Enriched>)
      requires Valid()
      modifies this, commentsById.Footprint()
      ensures Valid()
      ensures commentsById == old(commentsById) && listeners == old(listeners)
      ensures commentsById.EmptyCommentsById? ==> r == Err(NotSupported("getComment")) && emitted == old(emitted)
      ensures commentsById.MapBased? && old(commentsById.index.Parts()).Lookup(c.id).Some? ==>
        && r == Err(AlreadyExists(c.id))
        && commentsById.index.Parts() == old(commentsById.index.Parts())
        && emitted == old(emitted)
      ensures commentsById.MapBased? && old(commentsById.index.Parts()).Lookup(c.id).None? ==>
        && r == Ok(Enriched(c, [], []))
        && commentsById.index.Parts() == EnrichSpec(old(commentsById.index.Parts()), Raw(c)).0.Put(Enriched(c, [], []))
        && emitted == old(emitted) + [Emission(CommentAdded, c.id, ListenersOf(listeners, CommentAdded))]
      ensures commentsById.MapBased? && OnePartition(old(commentsById.index.Parts())) ==> OnePartition(commentsById.index.Parts())
    {
      var existing := GetComment(c.id);
      if existing.Err? {
        return Err(existing.error);
      }
      if existing.value.Some? {
        return Err(AlreadyExists(c.id));
      }
      var index := commentsById.index;
      AddStoresNewRecord(index.Parts(), c);
      if OnePartition(index.Parts()) {
        AddKeepsOnePartition(index.Parts(), c);
      }
      var e := Enrich(Raw(c), index);
      var _ := commentsById.SetComment(e);
      Emit(CommentAdded, c.id);
      r := Ok(e);
    }

    /**
     * updateComment(payload): throws when payload.id is not stored (or the
     * index is the empty one); otherwise the stored record takes the
     * payload's properties but keeps its identity and child lists, and
     * COMMENT_UPDATED is emitted.
     */
    method UpdateComment(payload: Comment) returns (r: Result<Enriched>)
      requires Valid()
      modifies this, commentsById.Footprint()
      ensures Valid()
      ensures commentsById == old(commentsById) && listeners == old(listeners)
      ensures commentsById.EmptyCommentsById? ==> r == Err(NotSupported("getComment")) && emitted == old(emitted)
      ensures commentsById.MapBased? && old(commentsById.index.Parts()).Lookup(payload.id).None? ==>
        && r == Err(DoesNotExist(payload.id))
        && commentsById.index.Parts() == old(commentsById.index.Parts())
        && emitted == old(emitted)
      ensures commentsById.MapBased? && old(commentsById.index.Parts()).Lookup(payload.id).Some? ==>
        var updated := Updated(old(commentsById.index.Parts()).Lookup(payload.id).value, payload);
        && r == Ok(updated)
        && commentsById.index.Parts() == old(commentsById.index.Parts()).Replace(payload.id, updated)
        && emitted == old(emitted) + [Emission(CommentUpdated, payload.id, ListenersOf(listeners, CommentUpdated))]
      ensures commentsById.MapBased? && OnePartition(old(commentsById.index.Parts())) ==> OnePartition(commentsById.index.Parts())
    {
      var existing := GetComment(payload.id);
      if existing.Err? {
        return Err(existing.error);
      }
      if existing.value.None? {
        return Err(DoesNotExist(payload.id));
      }
      var updated := Updated(existing.value.value, payload);
      RewriteKeepsOthers(commentsById.index.Parts(), payload.id, updated);
      if OnePartition(commentsById.index.Parts()) {
        ReplaceKeepsOnePartition(commentsById.index.Parts(), payload.id, updated);
      }
      commentsById.index.UpdateStored(payload.id, updated);
      Emit(CommentUpdated, payload.id);
      r := Ok(updated);
    }

    /**
     * upvoteComment(payload): throws when payload.id is not stored (or the
     * index is the empty one); otherwise the stored record takes the
     * payload's upvote count and flag, and COMMENT_UPVOTED is emitted.
     */
    method UpvoteComment(payload: Comment) returns (r: Result<Enriched>)
      requires Valid()
      modifies this, commentsById.Footprint()
      ensures Valid()
      ensures commentsById == old(commentsById) && listeners == old(listeners)
      ensures commentsById.EmptyCommentsById? ==> r == Err(NotSupported("getComment")) && emitted == old(emitted)
      ensures commentsById.MapBased? && old(commentsById.index.Parts()).Lookup(payload.id).None? ==>
        && r == Err(DoesNotExist(payload.id))
        && commentsById.index.Parts() == old(commentsById.index.Parts())
        && emitted == old(emitted)
      ensures commentsById.MapBased? && old(commentsById.index.Parts()).Lookup(payload.id).Some? ==>
        var upvoted := Upvoted(old(commentsById.index.Parts()).Lookup(payload.id).value, payload);
        && r == Ok(upvoted)
        && commentsById.index.Parts() == old(commentsById.index.Parts()).Replace(payload.id, upvoted)
        && emitted == old(emitted) + [Emission(CommentUpvoted, payload.id, ListenersOf(listeners, CommentUpvoted))]
      ensures commentsById.MapBased? && OnePartition(old(commentsById.index.Parts())) ==> OnePartition(commentsById.index.Parts())
    {
      var existing := GetComment(payload.id);
      if existing.Err? {
        return Err(existing.error);
      }
      if existing.value.None? {
        return Err(DoesNotExist(payload.id));
      }
      var upvoted := Upvoted(existing.value.value, payload);
      RewriteKeepsOthers(commentsById.index.Parts(), payload.id, upvoted);
      if OnePartition(commentsById.index.Parts()) {
        ReplaceKeepsOnePartition(commentsById.index.Parts(), payload.id, upvoted);
      }
      commentsById.index.UpdateStored(payload.id, upvoted);
      Emit(CommentUpvoted, payload.id);
      r := Ok(upvoted);
    }
  }
}
