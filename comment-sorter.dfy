/**
 * CommentSorter.getSorter of src/view-model/comment-sorter.ts: the
 * comparators the thread view sorts enriched comments with, by popularity,
 * oldest first or newest first.
 */
module CommentSorter {
  import opened Util
  import opened Models
  import opened CommentModelEnriched
  import opened Sorting

  /** SortKey of src/options/misc.ts. */
  datatype SortKey = Popularity | Oldest | Newest

  /** The popularity score: the number of descendants, plus the upvotes when upvoting is enabled. */
  function Points(e: Enriched, enableUpvoting: bool): (r: int)
    ensures !enableUpvoting ==> r == |e.allChildIds|
    ensures enableUpvoting && e.comment.upvoteCount.None? ==> r == |e.allChildIds|
    ensures enableUpvoting && e.comment.upvoteCount.Some? ==> r == |e.allChildIds| + e.comment.upvoteCount.value
  {
    |e.allChildIds| + (if enableUpvoting && e.comment.upvoteCount.Some? then e.comment.upvoteCount.value else 0)
  }

  /**
   * Upvotes count only when upvoting is enabled: with it disabled, changing
   * a comment's upvote count changes no popularity comparison; with it
   * enabled, a missing count scores as 0 and one more upvote adds one point.
   */
  lemma UpvotesCountOnlyWhenEnabled(a: Enriched, b: Enriched, n: Option<int>, k: int)
    ensures Compare(Popularity, false, a.(comment := a.comment.(upvoteCount := n)), b) == Compare(Popularity, false, a, b)
    ensures Compare(Popularity, false, b, a.(comment := a.comment.(upvoteCount := n))) == Compare(Popularity, false, b, a)
    ensures Points(a.(comment := a.comment.(upvoteCount := None)), true) == Points(a.(comment := a.comment.(upvoteCount := Some(0))), true)
    ensures Points(a.(comment := a.comment.(upvoteCount := Some(k + 1))), true) == Points(a.(comment := a.comment.(upvoteCount := Some(k))), true) + 1
  {
  }

  /** The comparator getSorter(key) answers, applied to a and b. */
  function Compare(key: SortKey, enableUpvoting: bool, a: Enriched, b: Enriched): int {
    match key
    case Popularity =>
      var pointsOfA := Points(a, enableUpvoting);
      var pointsOfB := Points(b, enableUpvoting);
      if pointsOfB != pointsOfA then pointsOfB - pointsOfA
      else b.comment.createdAt - a.comment.createdAt
    case Oldest => a.comment.createdAt - b.comment.createdAt
    case Newest => b.comment.createdAt - a.comment.createdAt
  }

  /** getSorter(key), with the enableUpvoting option of the component. */
  function GetSorter(key: SortKey, enableUpvoting: bool): (Enriched, Enriched) -> int {
    (a, b) => Compare(key, enableUpvoting, a, b)
  }

  /** Swapping the arguments of any of the comparators negates the answer. */
  lemma {:induction false} CompareIsAntisymmetric(key: SortKey, enableUpvoting: bool, a: Enriched, b: Enriched)
    ensures Compare(key, enableUpvoting, a, b) == -Compare(key, enableUpvoting, b, a)
  {
    match key
    case Popularity =>
      if Points(a, enableUpvoting) == Points(b, enableUpvoting) {
        assert Compare(key, enableUpvoting, a, b) == b.comment.createdAt - a.comment.createdAt;
      }
    case Oldest =>
    case Newest =>
  }

  /** OLDEST: a sorts before b exactly when a was created earlier. */
  lemma OldestFirst(enableUpvoting: bool, a: Enriched, b: Enriched)
    ensures Compare(Oldest, enableUpvoting, a, b) < 0 <==> a.comment.createdAt < b.comment.createdAt
    ensures Compare(Oldest, enableUpvoting, a, b) == 0 <==> a.comment.createdAt == b.comment.createdAt
  {
  }

  /** NEWEST: a sorts before b exactly when a was created later. */
  lemma NewestFirst(enableUpvoting: bool, a: Enriched, b: Enriched)
    ensures Compare(Newest, enableUpvoting, a, b) < 0 <==> a.comment.createdAt > b.comment.createdAt
    ensures Compare(Newest, enableUpvoting, a, b) == 0 <==> a.comment.createdAt == b.comment.createdAt
  {
  }

  /**
   * POPULARITY: the higher score sorts first; on equal scores the newer
   * comment sorts first; only equal scores and equal times tie.
   */
  lemma PopularFirst(enableUpvoting: bool, a: Enriched, b: Enriched)
    ensures Points(a, enableUpvoting) > Points(b, enableUpvoting) ==> Compare(Popularity, enableUpvoting, a, b) < 0
    ensures Points(a, enableUpvoting) == Points(b, enableUpvoting) ==>
      (Compare(Popularity, enableUpvoting, a, b) < 0 <==> a.comment.createdAt > b.comment.createdAt)
    ensures Compare(Popularity, enableUpvoting, a, b) == 0 <==>
      Points(a, enableUpvoting) == Points(b, enableUpvoting) && a.comment.createdAt == b.comment.createdAt
  {
  }

  /** Every comparator getSorter answers is consistent, as Array.prototype.sort requires. */
  lemma {:induction false} SorterIsConsistent(key: SortKey, enableUpvoting: bool)
    ensures IsConsistent(GetSorter(key, enableUpvoting))
  {
    var cmp := GetSorter(key, enableUpvoting);
    forall a, b
      ensures Flips(cmp, a, b)
    {
      CompareIsAntisymmetric(key, enableUpvoting, a, b);
    }
    forall a, b, c
      ensures Chains(cmp, a, b, c)
    {
      if key == Popularity {
        PopularFirst(enableUpvoting, a, b);
        PopularFirst(enableUpvoting, b, c);
        PopularFirst(enableUpvoting, a, c);
      }
    }
  }

  /**
   * Sorting by popularity puts a comment with the highest score first, and
   * among the comments with that score, the newest.
   */
  lemma MostPopularFirst(s: seq<Enriched>, enableUpvoting: bool)
    requires s != []
    ensures forall v :: v in s ==>
      var top := StableSort(s, GetSorter(Popularity, enableUpvoting))[0];
      && Points(top, enableUpvoting) >= Points(v, enableUpvoting)
      && (Points(top, enableUpvoting) == Points(v, enableUpvoting) ==> top.comment.createdAt >= v.comment.createdAt)
  {
    var cmp := GetSorter(Popularity, enableUpvoting);
    var sorted := StableSort(s, cmp);
    SorterIsConsistent(Popularity, enableUpvoting);
    StableSortSorted(s, cmp);
    forall v | v in s
      ensures Points(sorted[0], enableUpvoting) >= Points(v, enableUpvoting)
      ensures Points(sorted[0], enableUpvoting) == Points(v, enableUpvoting) ==> sorted[0].comment.createdAt >= v.comment.createdAt
    {
      assert v in multiset(s);
      HeadIsLeast(sorted, v, cmp);
      PopularFirst(enableUpvoting, sorted[0], v);
      PopularFirst(enableUpvoting, v, sorted[0]);
    }
  }
}
