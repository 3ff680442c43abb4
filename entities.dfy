/** The records the handlers read and write, and what a handler answers.
    Ids are the tables' integer primary keys. */
module Entities {
  type UserId = nat
  type PhotoId = nat
  type TagId = nat
  type CommentId = nat
  /** A notification's id is its position in the store's notification list. */
  type NotificationId = nat

  datatype Option<+T> = None | Some(value: T)

  /** The request's `current_user`: the id of the logged-in user, or None
      for the anonymous user. */
  type Actor = Option<UserId>

  /** The capability names passed to `can(...)`. */
  datatype Permission = FOLLOW | COLLECT | COMMENT | UPLOAD | MODERATE | ADMINISTER

  /** A user; `permissions` is what the user's role grants. */
  datatype User = User(
    username: string,
    email: string,
    name: string,
    location: string,
    website: string,
    bio: string,
    confirmed: bool,
    active: bool,
    permissions: set<Permission>,
    receiveCommentNotifications: bool,
    receiveFollowNotifications: bool,
    receiveCollectNotifications: bool,
    publicCollections: bool)

  /** A photo; `flag` counts abuse reports, `tags` is the ordered tag list. */
  datatype Photo = Photo(
    author: UserId,
    timestamp: int,
    description: string,
    flag: nat,
    commentAllowed: bool,
    tags: seq<TagId>)

  datatype Tag = Tag(name: string)

  datatype Comment = Comment(
    author: UserId,
    photo: PhotoId,
    body: string,
    flag: nat,
    replyingTo: Option<CommentId>)

  datatype Notification = Notification(receiver: UserId, isRead: bool)

  /** What a handler answers. Redirect targets and flash categories are
      presentation and are not kept. */
  datatype Outcome =
      /** `login_required`: the guest is sent to the login view. */
    | LoginRequired
      /** `confirm_required`: the account is not confirmed yet. */
    | ConfirmRequired
      /** `abort(code)`, `get_or_404`, or an exception the handler does not catch (500). */
    | Abort(code: int)
      /** The messages flashed before the redirect, in order. */
    | Flashed(messages: seq<string>)
      /** The submitted form did not validate; its errors are shown. */
    | FormErrors
      /** An AJAX reply `jsonify(message=...)` with its status. */
    | Json(status: int, message: string)
      /** AJAX `collect` success: 200 "Photo collected" with the two flags. */
    | Collected(notAuthor: bool, allowNotification: bool)
      /** AJAX `jsonify(count=...)`, status 200. */
    | Count(count: int)
      /** A redirect to the page of another photo. */
    | ShowPhoto(photo: PhotoId)
      /** The notification page: the ids listed, oldest first. */
    | NotificationPage(ids: seq<NotificationId>)

  function Flash(message: string): Outcome {
    Flashed([message])
  }
}
