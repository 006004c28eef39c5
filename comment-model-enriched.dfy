/**
 * CommentModelEnriched: a comment record together with the ids of its
 * direct replies and of all its descendants, as the transformer builds it
 * (src/view-model/comment-model-enriched.ts, src/view-model/comment-transformer.ts).
 */
module CommentModelEnriched {
  import opened Util
  import opened Models

  datatype Enriched = Enriched(comment: Comment, directChildIds: seq<CommentId>, allChildIds: seq<CommentId>) {

    function Id(): CommentId {
      comment.id
    }

    /** hasAttachments(): an attachment list is present and not empty. */
    predicate HasAttachments() {
      comment.attachments.Some? && |comment.attachments.value| > 0
    }

    /** deplete(mergeSource): the record's own properties with the patch laid over them, without the derived members. */
    function Deplete(mergeSource: Patch): Comment {
      Overlay(comment, mergeSource)
    }
  }

  /**
   * What `enrich` may be handed: a plain record, or a record that has been
   * enriched before and so already carries `directChildIds`.
   */
  datatype Incoming = Raw(comment: Comment) | Reenriched(record: Enriched) {
    function Plain(): Comment {
      match this
      case Raw(c) => c
      case Reenriched(r) => r.comment
    }
  }

  /**
   * The shallow copy `enrich` starts from: a plain record gets empty
   * `directChildIds` and `allChildIds`; a record that already has them keeps them.
   */
  function Copy(incoming: Incoming): (r: Enriched)
    ensures r.comment == incoming.Plain()
    ensures incoming.Raw? ==> r.directChildIds == [] && r.allChildIds == []
    ensures incoming.Reenriched? ==> r.directChildIds == incoming.record.directChildIds
    ensures incoming.Reenriched? ==> r.allChildIds == incoming.record.allChildIds
  {
    match incoming
    case Raw(c) => Enriched(c, [], [])
    case Reenriched(e) => e
  }

  /** Depleting a freshly enriched record with no patch gives back the plain record. */
  lemma DepleteUndoesCopy(c: Comment)
    ensures Copy(Raw(c)).Deplete(NoPatch) == c
  {
    OverlayNeutral(c);
  }

  /** hasAttachments() answers whether some attachment is listed. */
  lemma HasAttachmentsIffListed(e: Enriched)
    ensures e.HasAttachments() <==> e.comment.attachments.Some? && exists a :: a in e.comment.attachments.value
  {
    if e.comment.attachments.Some? && |e.comment.attachments.value| > 0 {
      assert e.comment.attachments.value[0] in e.comment.attachments.value;
    }
  }

  /** Depleting twice with the same patch changes nothing more; the derived arrays never reach the result. */
  lemma DepleteStable(e: Enriched, d: seq<CommentId>, a: seq<CommentId>, p: Patch)
    ensures Enriched(e.Deplete(p), d, a).Deplete(p) == e.Deplete(p)
    ensures Enriched(e.comment, d, a).Deplete(p) == e.Deplete(p)
  {
    OverlayIdempotent(e.comment, p);
  }
}
