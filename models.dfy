/**
 * The comment record of src/options/models.ts and the partial records
 * (`Partial<CommentModel>`) that `Object.assign` lays over it.
 * A `Date` is its time value in milliseconds; an optional property that is
 * absent, undefined or null is `None`.
 */
module Models {
  import opened Util

  type UserId = string
  type CommentId = string
  type AttachmentId = string

  /** AttachmentModel: the file is its name or URL. */
  datatype Attachment = Attachment(id: AttachmentId, file: string, mimeType: string)

  /** CommentModel. */
  datatype Comment = Comment(
    id: CommentId,
    parentId: Option<CommentId>,
    createdAt: int,
    modifiedAt: Option<int>,
    content: string,
    attachments: Option<seq<Attachment>>,
    pings: Option<map<UserId, string>>,
    creatorUserId: UserId,
    creatorDisplayName: Option<string>,
    creatorProfilePictureURL: Option<string>,
    isNew: Option<bool>,
    isDeleted: Option<bool>,
    createdByAdmin: Option<bool>,
    createdByCurrentUser: Option<bool>,
    upvoteCount: Option<int>,
    upvotedByCurrentUser: Option<bool>)

  /** JavaScript truthiness of an optional string: present and not "". */
  predicate IsTruthy(s: Option<string>) {
    s.Some? && s.value != ""
  }

  /**
   * isNil and truthiness split an optional string three ways: a truthy
   * value is never nil, and the one value that is neither nil nor truthy
   * is "". A parent id "" is therefore linked by enrich, which tests isNil,
   * yet stored as a root by setComment, which tests truthiness.
   */
  lemma NilTruthyOrEmpty(s: Option<string>)
    ensures IsTruthy(s) ==> !IsNil(s)
    ensures IsNil(s) ==> !IsTruthy(s)
    ensures !IsNil(s) && !IsTruthy(s) <==> s == Some("")
  {
  }

  /** A `Partial<CommentModel>`: every property may be missing. */
  datatype Patch = Patch(
    id: Option<CommentId>,
    parentId: Option<CommentId>,
    createdAt: Option<int>,
    modifiedAt: Option<int>,
    content: Option<string>,
    attachments: Option<seq<Attachment>>,
    pings: Option<map<UserId, string>>,
    creatorUserId: Option<UserId>,
    creatorDisplayName: Option<string>,
    creatorProfilePictureURL: Option<string>,
    isNew: Option<bool>,
    isDeleted: Option<bool>,
    createdByAdmin: Option<bool>,
    createdByCurrentUser: Option<bool>,
    upvoteCount: Option<int>,
    upvotedByCurrentUser: Option<bool>)

  /** The patch that carries no property at all. */
  const NoPatch := Patch(None, None, None, None, None, None, None, None,
                         None, None, None, None, None, None, None, None)

  /** The value a property takes when a patch may override it. */
  function Pick<T>(patched: Option<T>, base: T): T {
    if patched.Some? then patched.value else base
  }

  function PickOptional<T>(patched: Option<T>, base: Option<T>): Option<T> {
    if patched.Some? then patched else base
  }

  /** `Object.assign({}, c, p)`: every property the patch carries wins. */
  function Overlay(c: Comment, p: Patch): Comment {
    Comment(
      Pick(p.id, c.id),
      PickOptional(p.parentId, c.parentId),
      Pick(p.createdAt, c.createdAt),
      PickOptional(p.modifiedAt, c.modifiedAt),
      Pick(p.content, c.content),
      PickOptional(p.attachments, c.attachments),
      PickOptional(p.pings, c.pings),
      Pick(p.creatorUserId, c.creatorUserId),
      PickOptional(p.creatorDisplayName, c.creatorDisplayName),
      PickOptional(p.creatorProfilePictureURL, c.creatorProfilePictureURL),
      PickOptional(p.isNew, c.isNew),
      PickOptional(p.isDeleted, c.isDeleted),
      PickOptional(p.createdByAdmin, c.createdByAdmin),
      PickOptional(p.createdByCurrentUser, c.createdByCurrentUser),
      PickOptional(p.upvoteCount, c.upvoteCount),
      PickOptional(p.upvotedByCurrentUser, c.upvotedByCurrentUser))
  }

  /** A whole record read as a patch: the properties it has. */
  function AsPatch(c: Comment): Patch {
    Patch(
      Some(c.id), c.parentId, Some(c.createdAt), c.modifiedAt, Some(c.content),
      c.attachments, c.pings, Some(c.creatorUserId), c.creatorDisplayName,
      c.creatorProfilePictureURL, c.isNew, c.isDeleted, c.createdByAdmin,
      c.createdByCurrentUser, c.upvoteCount, c.upvotedByCurrentUser)
  }

  /** Laying an empty patch over a record changes nothing; a record laid over itself is itself. */
  lemma OverlayNeutral(c: Comment)
    ensures Overlay(c, NoPatch) == c
    ensures Overlay(c, AsPatch(c)) == c
  {
  }

  /** Applying the same patch twice is the same as applying it once. */
  lemma OverlayIdempotent(c: Comment, p: Patch)
    ensures Overlay(Overlay(c, p), p) == Overlay(c, p)
  {
  }

  /** Why an operation of the comment core throws. */
  datatype Failure =
    | NotSupported(operation: string)   // a call on the empty index
    | TypeError                         // a property read on undefined
    | AlreadyExists(id: CommentId)
    | DoesNotExist(id: CommentId)

  datatype Result<+T> = Ok(value: T) | Err(error: Failure)
}
