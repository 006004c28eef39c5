/**
 * The comment index of src/view-model/comments-by-id-factory.ts: the
 * map-based index keeps root comments and replies in two insertion-ordered
 * maps keyed by id; the empty index is a sentinel that throws on every call
 * except `size` and `merge`.
 */
module CommentsByIdFactory {
  import opened Util
  import opened Models
  import opened CommentModelEnriched
  import opened JsMaps

  type Partition = JsMap<CommentId, Enriched>

  /** The contents of a MapBasedCommentsById: its root map and its child map. */
  datatype Partitions = Partitions(root: Partition, child: Partition) {

    ghost predicate Valid() {
      root.Valid() && child.Valid()
    }

    /** size: the root count plus the child count. */
    function Size(): nat {
      root.Size() + child.Size()
    }

    /** getComment: the child map is asked first, then the root map. */
    function Lookup(id: CommentId): Option<Enriched> {
      if child.Get(id).Some? then child.Get(id) else root.Get(id)
    }

    /** setComment: a record with a truthy parentId goes to the child map, any other to the root map. */
    function Put(e: Enriched): Partitions {
      if IsTruthy(e.comment.parentId) then Partitions(root, child.Set(e.Id(), e))
      else Partitions(root.Set(e.Id(), e), child)
    }

    /** deleteComment: deletes from the map the parentId selects and answers whether the id was there. */
    function Remove(c: Comment): (Partitions, bool) {
      if IsTruthy(c.parentId) then
        var (m, deleted) := child.Delete(c.id);
        (Partitions(root, m), deleted)
      else
        var (m, deleted) := root.Delete(c.id);
        (Partitions(m, child), deleted)
    }

    /**
     * A stored record changed in place: the new value lands where getComment
     * finds the id. An id that is stored nowhere changes nothing.
     */
    function Replace(id: CommentId, e: Enriched): Partitions {
      if child.Get(id).Some? then Partitions(root, child.Set(id, e))
      else if root.Get(id).Some? then Partitions(root.Set(id, e), child)
      else this
    }

    /** getRootComments: a fresh array of the root records in insertion order. */
    function RootComments(): seq<Enriched> {
      root.Values()
    }

    /**
     * getChildComments(parentId): the record of every id in the parent's
     * allChildIds, in that order (None where an id is not stored); reading
     * allChildIds of a missing parent is a TypeError.
     */
    function ChildComments(parentId: CommentId): Result<seq<Option<Enriched>>> {
      match Lookup(parentId)
      case None => Err(TypeError)
      case Some(p) => Ok(seq(|p.allChildIds|, i requires 0 <= i < |p.allChildIds| => Lookup(p.allChildIds[i])))
    }
  }

  const NoPartitions := Partitions(JsMaps.Empty(), JsMaps.Empty())

  /** merge of two map-based indexes: per map, the union of the keys, the right side winning. */
  function Merged(left: Partitions, right: Partitions): Partitions {
    Partitions(Union(left.root, right.root), Union(left.child, right.child))
  }

  /**
   * setComment keeps the maps valid and leaves the other map alone; it
   * overwrites an existing entry in place or appends a new one, growing the
   * size by one exactly then; the stored record is what getComment returns,
   * unless a root record's id is shadowed by a child entry; no other id changes.
   */
  lemma PutFacts(p: Partitions, e: Enriched)
    requires p.Valid()
    ensures p.Put(e).Valid()
    ensures IsTruthy(e.comment.parentId) ==> p.Put(e).root == p.root
    ensures !IsTruthy(e.comment.parentId) ==> p.Put(e).child == p.child
    ensures p.Put(e).Size() == p.Size() + if (if IsTruthy(e.comment.parentId) then p.child else p.root).Get(e.Id()).Some? then 0 else 1
    ensures p.Put(e).Lookup(e.Id()) ==
      if !IsTruthy(e.comment.parentId) && p.child.Get(e.Id()).Some? then p.child.Get(e.Id()) else Some(e)
    ensures forall x :: x != e.Id() ==> p.Put(e).Lookup(x) == p.Lookup(x)
  {
    SetFacts(p.child, e.Id(), e);
    SetFacts(p.root, e.Id(), e);
  }

  /** A new root record is listed last by getRootComments. */
  lemma PutNewRootAppends(p: Partitions, e: Enriched)
    requires p.Valid() && !IsTruthy(e.comment.parentId) && p.root.Get(e.Id()).None?
    ensures p.Put(e).RootComments() == p.RootComments() + [e]
  {
    SetNewValues(p.root, e.Id(), e);
  }

  /**
   * deleteComment answers whether the id was in the map its parentId selects,
   * removes it from that map only and shrinks the size by one exactly then;
   * no other id changes.
   */
  lemma RemoveFacts(p: Partitions, c: Comment)
    requires p.Valid()
    ensures p.Remove(c).0.Valid()
    ensures p.Remove(c).1 <==> (if IsTruthy(c.parentId) then p.child else p.root).Get(c.id).Some?
    ensures IsTruthy(c.parentId) ==> p.Remove(c).0.root == p.root && p.Remove(c).0.child.Get(c.id).None?
    ensures !IsTruthy(c.parentId) ==> p.Remove(c).0.child == p.child && p.Remove(c).0.root.Get(c.id).None?
    ensures p.Remove(c).0.Size() == if p.Remove(c).1 then p.Size() - 1 else p.Size()
    ensures forall x :: x != c.id ==> p.Remove(c).0.Lookup(x) == p.Lookup(x)
  {
    DeleteFacts(p.child, c.id);
    DeleteFacts(p.root, c.id);
  }

  /**
   * Changing a stored record in place keeps every key where it was; only the
   * record getComment finds under the id changes.
   */
  lemma ReplaceFacts(p: Partitions, id: CommentId, e: Enriched)
    requires p.Valid()
    ensures p.Replace(id, e).Valid()
    ensures p.Replace(id, e).root.keys == p.root.keys && p.Replace(id, e).child.keys == p.child.keys
    ensures p.Replace(id, e).root.entries.Keys == p.root.entries.Keys
    ensures p.Replace(id, e).child.entries.Keys == p.child.entries.Keys
    ensures p.Replace(id, e).Size() == p.Size()
    ensures p.Replace(id, e).Lookup(id) == if p.Lookup(id).Some? then Some(e) else None
    ensures forall x :: x != id ==> p.Replace(id, e).Lookup(x) == p.Lookup(x)
  {
    SetFacts(p.child, id, e);
    SetFacts(p.root, id, e);
  }

  /**
   * merge of two map-based indexes is valid; in each map a key of the right
   * side reads the right side's record and any other key the left side's;
   * merging into empty maps copies the right side, order included.
   */
  lemma MergedFacts(left: Partitions, right: Partitions)
    requires left.Valid() && right.Valid()
    ensures Merged(left, right).Valid()
    ensures forall x :: Merged(left, right).root.Get(x) == if right.root.Get(x).Some? then right.root.Get(x) else left.root.Get(x)
    ensures forall x :: Merged(left, right).child.Get(x) == if right.child.Get(x).Some? then right.child.Get(x) else left.child.Get(x)
    ensures Merged(NoPartitions, right) == right
  {
    UnionFacts(left.root, right.root);
    UnionFacts(left.child, right.child);
    UnionWithEmpty(right.root);
    UnionWithEmpty(right.child);
  }

  /** size counts the records actually held in the two maps. */
  lemma SizeCountsRecords(p: Partitions)
    requires p.Valid()
    ensures p.Size() == |p.root.entries| + |p.child.entries|
  {
    SizeCountsEntries(p.root);
    SizeCountsEntries(p.child);
  }

  /** An index of size 0 holds two empty maps. */
  lemma ZeroSizeIsEmpty(p: Partitions)
    requires p.Valid() && p.Size() == 0
    ensures p == NoPartitions
  {
    assert p.root.entries == map[];
    assert p.child.entries == map[];
  }

  /** Merging another index into one of size 0 gives the other index back. */
  lemma MergeIntoEmpty(left: Partitions, right: Partitions)
    requires left.Valid() && left.Size() == 0 && right.Valid()
    ensures Merged(left, right) == right
  {
    ZeroSizeIsEmpty(left);
    UnionWithEmpty(right.root);
    UnionWithEmpty(right.child);
  }

  /** Every stored id sits in exactly one of the two maps. */
  ghost predicate OnePartition(p: Partitions) {
    p.root.entries.Keys !! p.child.entries.Keys
  }

  /**
   * setComment of an id stored nowhere keeps every id in exactly one map;
   * the new id joins the child map when its parentId is truthy and the root
   * map otherwise.
   */
  lemma PutKeepsOnePartition(p: Partitions, e: Enriched)
    requires p.Valid() && OnePartition(p) && p.Lookup(e.Id()).None?
    ensures OnePartition(p.Put(e))
    ensures e.Id() in p.Put(e).child.entries <==> IsTruthy(e.comment.parentId)
    ensures e.Id() in p.Put(e).root.entries <==> !IsTruthy(e.comment.parentId)
  {
    assert e.Id() !in p.child.entries && e.Id() !in p.root.entries;
  }

  /** Changing a stored record in place keeps every id in exactly one map. */
  lemma ReplaceKeepsOnePartition(p: Partitions, id: CommentId, e: Enriched)
    requires p.Valid() && OnePartition(p)
    ensures OnePartition(p.Replace(id, e))
  {
    ReplaceFacts(p, id, e);
  }

  /** MapBasedCommentsById: the two maps are updated in place by setComment and deleteComment. */
  class MapBasedCommentsById {
    var root: Partition
    var child: Partition

    /** CommentsByIdFactory.from(root, child): an index over the given maps. */
    constructor (root: Partition, child: Partition)
      ensures this.root == root && this.child == child
    {
      this.root := root;
      this.child := child;
    }

    function Parts(): Partitions
      reads this
    {
      Partitions(root, child)
    }

    method SetComment(e: Enriched)
      modifies this
      ensures Parts() == old(Parts()).Put(e)
    {
      if IsTruthy(e.comment.parentId) {
        child := child.Set(e.Id(), e);
      } else {
        root := root.Set(e.Id(), e);
      }
    }

    method DeleteComment(c: Comment) returns (deleted: bool)
      modifies this
      ensures (Parts(), deleted) == old(Parts()).Remove(c)
    {
      if IsTruthy(c.parentId) {
        child, deleted := child.Delete(c.id).0, child.Delete(c.id).1;
        return;
      }
      root, deleted := root.Delete(c.id).0, root.Delete(c.id).1;
    }

    /** The record getComment returns for id is changed in place to e. */
    method UpdateStored(id: CommentId, e: Enriched)
      modifies this
      ensures Parts() == old(Parts()).Replace(id, e)
    {
      if child.Get(id).Some? {
        child := child.Set(id, e);
      } else if root.Get(id).Some? {
        root := root.Set(id, e);
      }
    }

    /**
     * merge(other): with another map-based index, a new index over the
     * unions of the maps, neither input changed; otherwise other is the
     * empty index, whose getRootComments throws.
     */
    method Merge(other: CommentsById) returns (r: Result<CommentsById>)
      ensures other.MapBased? ==>
        r.Ok? && r.value.MapBased? && fresh(r.value.index)
        && r.value.index.Parts() == Merged(Parts(), other.index.Parts())
      ensures other.EmptyCommentsById? ==> r == Err(NotSupported("getRootComments"))
    {
      if other.MapBased? {
        var merged := new MapBasedCommentsById(Union(root, other.index.root), Union(child, other.index.child));
        return Ok(MapBased(merged));
      }
      return Err(NotSupported("getRootComments"));
    }
  }

  /** CommentsById: the map-based index or the empty sentinel. */
  datatype CommentsById = EmptyCommentsById | MapBased(index: MapBasedCommentsById) {

    function Footprint(): set<object> {
      if MapBased? then {index} else {}
    }

    function Size(): nat
      reads Footprint()
    {
      if MapBased? then index.Parts().Size() else 0
    }

    function GetComment(id: CommentId): Result<Option<Enriched>>
      reads Footprint()
    {
      if MapBased? then Ok(index.Parts().Lookup(id)) else Err(NotSupported("getComment"))
    }

    function GetRootComments(): Result<seq<Enriched>>
      reads Footprint()
    {
      if MapBased? then Ok(index.Parts().RootComments()) else Err(NotSupported("getRootComments"))
    }

    function GetChildComments(parentId: CommentId): Result<seq<Option<Enriched>>>
      reads Footprint()
    {
      if MapBased? then index.Parts().ChildComments(parentId) else Err(NotSupported("getChildComments"))
    }

    method SetComment(e: Enriched) returns (r: Result<()>)
      modifies Footprint()
      ensures EmptyCommentsById? ==> r == Err(NotSupported("setComment"))
      ensures MapBased? ==> r == Ok(()) && index.Parts() == old(index.Parts()).Put(e)
    {
      if MapBased? {
        index.SetComment(e);
        return Ok(());
      }
      return Err(NotSupported("setComment"));
    }

    method DeleteComment(c: Comment) returns (r: Result<bool>)
      modifies Footprint()
      ensures EmptyCommentsById? ==> r == Err(NotSupported("deleteComment"))
      ensures MapBased? ==> r.Ok? && (index.Parts(), r.value) == old(index.Parts()).Remove(c)
    {
      if MapBased? {
        var deleted := index.DeleteComment(c);
        return Ok(deleted);
      }
      return Err(NotSupported("deleteComment"));
    }

    /** merge(other): the empty index answers other itself. */
    method Merge(other: CommentsById) returns (r: Result<CommentsById>)
      ensures EmptyCommentsById? ==> r == Ok(other)
      ensures MapBased? && other.MapBased? ==>
        r.Ok? && r.value.MapBased? && fresh(r.value.index)
        && r.value.index.Parts() == Merged(index.Parts(), other.index.Parts())
      ensures MapBased? && other.EmptyCommentsById? ==> r == Err(NotSupported("getRootComments"))
    {
      if MapBased? {
        r := index.Merge(other);
      } else {
        r := Ok(other);
      }
    }
  }

  /** CommentsByIdFactory.empty(). */
  const Empty: CommentsById := EmptyCommentsById

  /** The empty index has size 0 and rejects every query. */
  lemma EmptyRejectsQueries(id: CommentId)
    ensures Empty.Size() == 0
    ensures Empty.GetComment(id) == Err(NotSupported("getComment"))
    ensures Empty.GetRootComments() == Err(NotSupported("getRootComments"))
    ensures Empty.GetChildComments(id) == Err(NotSupported("getChildComments"))
  {
  }

  /** CommentsByIdFactory.from(root, child). */
  method From(root: Partition, child: Partition) returns (r: CommentsById)
    ensures r.MapBased? && fresh(r.index) && r.index.Parts() == Partitions(root, child)
  {
    var index := new MapBasedCommentsById(root, child);
    r := MapBased(index);
  }
}
