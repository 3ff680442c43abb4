/** The database the handlers read and write, as one object whose tables
    are fields, and the model-level operations the handlers call:
    `User.collect`/`uncollect`, `User.follow`/`unfollow`, the `push_*`
    notification helpers, adding a tag and appending it to a photo. */
module Stores {
  import opened Entities
  import opened Gallery
  import opened Inbox

  /** A snapshot of every table. The `next*Id` fields are the next
      autoincrement ids: every key of a table lies below its bound. */
  datatype StoreState = StoreState(
    users: map<UserId, User>,
    photos: map<PhotoId, Photo>,
    tags: map<TagId, Tag>,
    comments: map<CommentId, Comment>,
    follows: set<(UserId, UserId)>,
    collects: set<(UserId, PhotoId)>,
    notifications: seq<Notification>,
    nextUserId: nat,
    nextPhotoId: nat,
    nextTagId: nat,
    nextCommentId: nat)

  /** The `unique=True` username column. */
  predicate UniqueUsernames(users: map<UserId, User>) {
    forall i, j {:trigger users[i].username, users[j].username} ::
      i in users && j in users && users[i].username == users[j].username ==> i == j
  }

  /** Tags are deduplicated by name. */
  predicate UniqueTagNames(tags: map<TagId, Tag>) {
    forall i, j {:trigger tags[i].name, tags[j].name} ::
      i in tags && j in tags && tags[i].name == tags[j].name ==> i == j
  }

  /** Every key lies below its table's next id. */
  predicate KeysBelow(st: StoreState) {
    && (forall k :: k in st.users ==> k < st.nextUserId)
    && (forall k :: k in st.photos ==> k < st.nextPhotoId)
    && (forall k :: k in st.tags ==> k < st.nextTagId)
    && (forall k :: k in st.comments ==> k < st.nextCommentId)
  }

  /** Photo authors and tags exist, and no photo lists a tag twice. */
  predicate PhotosLinked(st: StoreState) {
    && (forall p :: p in st.photos ==> st.photos[p].author in st.users)
    && (forall p :: p in st.photos ==> Distinct(st.photos[p].tags))
    && (forall p, t :: p in st.photos && t in st.photos[p].tags ==> t in st.tags)
  }

  /** Comment authors and photos exist. */
  predicate CommentsLinked(st: StoreState) {
    && (forall c :: c in st.comments ==> st.comments[c].author in st.users)
    && (forall c :: c in st.comments ==> st.comments[c].photo in st.photos)
  }

  /** Follow and collect edges join existing rows. */
  predicate EdgesLinked(st: StoreState) {
    && (forall e :: e in st.follows ==> e.0 in st.users && e.1 in st.users)
    && (forall e :: e in st.collects ==> e.0 in st.users && e.1 in st.photos)
  }

  /** What the tables' keys and foreign keys guarantee. A comment's
      `replyingTo` may name a deleted comment: deleting a comment leaves its
      replies in place. A notification may outlive its receiver. */
  predicate WellFormed(st: StoreState) {
    && KeysBelow(st)
    && UniqueUsernames(st.users)
    && UniqueTagNames(st.tags)
    && PhotosLinked(st)
    && CommentsLinked(st)
    && EdgesLinked(st)
  }

  /** `current_user.is_authenticated`: the session names a stored user. */
  predicate Authenticated(users: map<UserId, User>, actor: Option<UserId>) {
    actor.Some? && actor.value in users
  }

  /** `current_user.can(p)`; the anonymous user can do nothing. */
  predicate Can(users: map<UserId, User>, actor: Option<UserId>, p: Permission) {
    Authenticated(users, actor) && p in users[actor.value].permissions
  }

  /** The author of the photo, or a MODERATE holder: who may edit, tag or
      delete a photo. */
  predicate OwnsOrModerates(users: map<UserId, User>, actor: Option<UserId>, author: UserId) {
    (actor.Some? && actor.value == author) || Can(users, actor, MODERATE)
  }

  /** Some tag on the list `ts` carries `name`. */
  ghost predicate HasTagNamed(ts: seq<TagId>, tags: map<TagId, Tag>, name: string) {
    exists t :: t in ts && t in tags && tags[t].name == name
  }

  /** The usernames in use: the `taken` set of the profile forms. */
  function Usernames(users: map<UserId, User>): set<string> {
    set k | k in users :: users[k].username
  }

  /** Replacing one user's row keeps usernames unique when the new username
      is that user's current one or nobody else's. */
  lemma RenameKeepsUnique(users: map<UserId, User>, id: UserId, u: User)
    requires UniqueUsernames(users) && id in users
    requires u.username == users[id].username || u.username !in Usernames(users)
    ensures UniqueUsernames(users[id := u])
  {
    forall k | k in users && k != id ensures users[k].username != u.username {
      assert users[k].username in Usernames(users);
    }
  }

  /** The store after `db.session.delete(photo)`: the photo, the comments on
      it and the collect edges into it are gone; tags and every other row
      stay. */
  function DropPhoto(st: StoreState, p: PhotoId): (r: StoreState)
    ensures p !in r.photos && r.photos.Keys == st.photos.Keys - {p}
    ensures forall q :: q in r.photos ==> r.photos[q] == st.photos[q]
    ensures forall c :: c in r.comments <==> c in st.comments && st.comments[c].photo != p
    ensures forall c :: c in r.comments ==> r.comments[c] == st.comments[c]
    ensures forall e :: e in r.collects <==> e in st.collects && e.1 != p
    ensures r == st.(photos := r.photos, comments := r.comments, collects := r.collects)
  {
    st.(photos := st.photos - {p},
        comments := (map c | c in st.comments && st.comments[c].photo != p :: st.comments[c]),
        collects := (set e | e in st.collects && e.1 != p))
  }

  /** The store after the current user's row is deleted, with what it owns:
      the user's photos (with the comments on them and the collect edges
      into them), the user's comments, the follow edges from and to the
      user, and the user's collect edges. */
  function DropUser(st: StoreState, u: UserId): (r: StoreState)
    ensures u !in r.users && r.users.Keys == st.users.Keys - {u}
    ensures forall k :: k in r.users ==> r.users[k] == st.users[k]
    ensures forall q :: q in r.photos <==> q in st.photos && st.photos[q].author != u
    ensures forall q :: q in r.photos ==> r.photos[q] == st.photos[q]
    ensures forall c :: c in r.comments <==>
              c in st.comments && st.comments[c].author != u && st.comments[c].photo in r.photos
    ensures forall c :: c in r.comments ==> r.comments[c] == st.comments[c]
    ensures forall e :: e in r.follows <==> e in st.follows && e.0 != u && e.1 != u
    ensures forall e :: e in r.collects <==> e in st.collects && e.0 != u && e.1 in r.photos
    ensures r == st.(users := r.users, photos := r.photos, comments := r.comments,
                     follows := r.follows, collects := r.collects)
  {
    var photos := map q | q in st.photos && st.photos[q].author != u :: st.photos[q];
    st.(users := st.users - {u},
        photos := photos,
        comments := (map c | c in st.comments && st.comments[c].author != u && st.comments[c].photo in photos :: st.comments[c]),
        follows := (set e | e in st.follows && e.0 != u && e.1 != u),
        collects := (set e | e in st.collects && e.0 != u && e.1 in photos))
  }

  lemma DropPhotoKeepsWellFormed(st: StoreState, p: PhotoId)
    requires WellFormed(st)
    ensures WellFormed(DropPhoto(st, p))
  {
  }

  lemma DropUserKeepsWellFormed(st: StoreState, u: UserId)
    requires WellFormed(st)
    ensures WellFormed(DropUser(st, u))
  {
    var r := DropUser(st, u);
    DropUserKeepsUsers(st, u);
    DropUserKeepsPhotos(st, u);
    DropUserKeepsComments(st, u);
    DropUserKeepsEdges(st, u);
  }

  lemma DropUserKeepsUsers(st: StoreState, u: UserId)
    requires WellFormed(st)
    ensures forall k :: k in DropUser(st, u).users ==> k < st.nextUserId
    ensures UniqueUsernames(DropUser(st, u).users)
  {
    var r := DropUser(st, u);
    forall i, j | i in r.users && j in r.users && r.users[i].username == r.users[j].username ensures i == j {
      assert r.users[i] == st.users[i] && r.users[j] == st.users[j];
    }
  }

  lemma DropUserKeepsPhotos(st: StoreState, u: UserId)
    requires WellFormed(st)
    ensures var r := DropUser(st, u);
            && (forall p :: p in r.photos ==> p < st.nextPhotoId && r.photos[p].author in r.users)
            && (forall p :: p in r.photos ==> Distinct(r.photos[p].tags))
            && (forall p, t :: p in r.photos && t in r.photos[p].tags ==> t in st.tags)
  {
  }

  lemma DropUserKeepsComments(st: StoreState, u: UserId)
    requires WellFormed(st)
    ensures var r := DropUser(st, u);
            && (forall c :: c in r.comments ==> c < st.nextCommentId && r.comments[c].author in r.users)
            && (forall c :: c in r.comments ==> r.comments[c].photo in r.photos)
  {
    var r := DropUser(st, u);
    forall c | c in r.comments ensures c < st.nextCommentId && r.comments[c].author in r.users {
      assert r.comments[c] == st.comments[c];
    }
  }

  lemma DropUserKeepsEdges(st: StoreState, u: UserId)
    requires WellFormed(st)
    ensures var r := DropUser(st, u);
            && (forall e :: e in r.follows ==> e.0 in r.users && e.1 in r.users)
            && (forall e :: e in r.collects ==> e.0 in r.users && e.1 in r.photos)
  {
    var r := DropUser(st, u);
    forall e | e in r.follows ensures e.0 in r.users && e.1 in r.users {
      assert e in st.follows;
    }
    forall e | e in r.collects ensures e.0 in r.users && e.1 in r.photos {
      assert e in st.collects;
    }
  }

  class Store {
    var users: map<UserId, User>
    var photos: map<PhotoId, Photo>
    var tags: map<TagId, Tag>
    var comments: map<CommentId, Comment>
    var follows: set<(UserId, UserId)>
    var collects: set<(UserId, PhotoId)>
    var notifications: seq<Notification>
    var nextUserId: nat
    var nextPhotoId: nat
    var nextTagId: nat
    var nextCommentId: nat

    function Contents(): StoreState
      reads this
    {
      StoreState(users, photos, tags, comments, follows, collects, notifications,
                 nextUserId, nextPhotoId, nextTagId, nextCommentId)
    }

    ghost predicate Valid()
      reads this
    {
      WellFormed(Contents())
    }

    constructor (init: StoreState)
      requires WellFormed(init)
      ensures Contents() == init
      ensures Valid()
    {
      users := init.users;
      photos := init.photos;
      tags := init.tags;
      comments := init.comments;
      follows := init.follows;
      collects := init.collects;
      notifications := init.notifications;
      nextUserId := init.nextUserId;
      nextPhotoId := init.nextPhotoId;
      nextTagId := init.nextTagId;
      nextCommentId := init.nextCommentId;
    }

    /** `User.query.filter_by(username=name).first()`. */
    function FindUser(name: string): (r: Option<UserId>)
      reads this
      requires Valid()
      ensures r.Some? <==> exists k :: k in users && users[k].username == name
      ensures r.Some? ==> r.value in users && users[r.value].username == name
    {
      UserNamedFinds(users, name, nextUserId);
      UserNamed(users, name, nextUserId)
    }

    /** `Tag.query.filter_by(name=name).first()`. */
    function FindTag(name: string): (r: Option<TagId>)
      reads this
      requires Valid()
      ensures r.Some? <==> exists k :: k in tags && tags[k].name == name
      ensures r.Some? ==> r.value in tags && tags[r.value].name == name
    {
      TagNamedFinds(tags, name, nextTagId);
      TagNamed(tags, name, nextTagId)
    }

    /** An edited photo row committed: its author and tag list are kept. */
    method SetPhoto(id: PhotoId, p: Photo)
      requires Valid() && id in photos
      requires p.author == photos[id].author && p.tags == photos[id].tags
      modifies this
      ensures Valid()
      ensures Contents() == old(Contents()).(photos := old(photos)[id := p])
    {
      photos := photos[id := p];
    }

    /** An edited comment row committed: its author and photo are kept. */
    method SetComment(id: CommentId, c: Comment)
      requires Valid() && id in comments
      requires c.author == comments[id].author && c.photo == comments[id].photo
      modifies this
      ensures Valid()
      ensures Contents() == old(Contents()).(comments := old(comments)[id := c])
    {
      comments := comments[id := c];
    }

    /** A `push_*_notification`: one unread notification for `receiver`. */
    method PushNotification(receiver: UserId)
      requires Valid()
      modifies this
      ensures Valid()
      ensures Contents() == old(Contents()).(notifications := old(notifications) + [Notification(receiver, false)])
    {
      notifications := notifications + [Notification(receiver, false)];
    }

    /** A notification pushed only when `notify` holds. */
    method PushNotificationIf(notify: bool, receiver: UserId)
      requires Valid()
      modifies this
      ensures Valid()
      ensures Contents() == old(Contents()).(notifications := old(notifications) +
                                               (if notify then [Notification(receiver, false)] else []))
    {
      if notify {
        PushNotification(receiver);
      } else {
        assert notifications + [] == notifications;
      }
    }

    /** `User.collect(photo)`, called only when not collecting yet. */
    method AddCollect(u: UserId, p: PhotoId)
      requires Valid() && u in users && p in photos
      modifies this
      ensures Valid()
      ensures Contents() == old(Contents()).(collects := old(collects) + {(u, p)})
    {
      collects := collects + {(u, p)};
    }

    /** `User.uncollect(photo)`. */
    method RemoveCollect(u: UserId, p: PhotoId)
      requires Valid()
      modifies this
      ensures Valid()
      ensures Contents() == old(Contents()).(collects := old(collects) - {(u, p)})
    {
      collects := collects - {(u, p)};
    }

    /** `User.follow(user)`. */
    method AddFollow(u: UserId, v: UserId)
      requires Valid() && u in users && v in users
      modifies this
      ensures Valid()
      ensures Contents() == old(Contents()).(follows := old(follows) + {(u, v)})
    {
      follows := follows + {(u, v)};
    }

    /** `User.unfollow(user)`. */
    method RemoveFollow(u: UserId, v: UserId)
      requires Valid()
      modifies this
      ensures Valid()
      ensures Contents() == old(Contents()).(follows := old(follows) - {(u, v)})
    {
      follows := follows - {(u, v)};
    }

    /** `Tag(name=name)` added and committed: a fresh id, called only when
        no tag has that name, so names stay unique. */
    method AddTag(name: string) returns (id: TagId)
      requires Valid() && FindTag(name).None?
      modifies this
      ensures Valid()
      ensures id == old(nextTagId) && id !in old(tags)
      ensures Contents() == old(Contents()).(tags := old(tags)[id := Tag(name)], nextTagId := id + 1)
    {
      id := nextTagId;
      tags := tags[id := Tag(name)];
      nextTagId := nextTagId + 1;
    }

    /** `photo.tags.append(tag)`, called only when the tag is not on the list. */
    method AttachTag(p: PhotoId, t: TagId)
      requires Valid() && p in photos && t in tags && t !in photos[p].tags
      modifies this
      ensures Valid()
      ensures Contents() == old(Contents()).(photos := old(photos)[p := old(photos[p]).(tags := old(photos[p].tags) + [t])])
    {
      var ph := photos[p];
      photos := photos[p := ph.(tags := ph.tags + [t])];
      assert Distinct(photos[p].tags) by {
        var ts := photos[p].tags;
        forall i, j | 0 <= i < j < |ts| ensures ts[i] != ts[j] {
          if j == |ts| - 1 { assert ts[i] in ph.tags; }
        }
      }
    }

    /** `db.session.add(comment)` committed: the comment gets a fresh id. */
    method AddComment(c: Comment) returns (id: CommentId)
      requires Valid() && c.author in users && c.photo in photos
      modifies this
      ensures Valid()
      ensures id == old(nextCommentId) && id !in old(comments)
      ensures Contents() == old(Contents()).(comments := old(comments)[id := c], nextCommentId := id + 1)
    {
      id := nextCommentId;
      comments := comments[id := c];
      nextCommentId := nextCommentId + 1;
    }

    /** `photo.tags.remove(tag)`: the first occurrence is dropped. */
    method DetachTag(p: PhotoId, t: TagId)
      requires Valid() && p in photos && t in photos[p].tags
      modifies this
      ensures Valid()
      ensures Contents() == old(Contents()).(photos := old(photos)[p := old(photos[p]).(tags := RemoveFirst(old(photos[p].tags), t))])
    {
      var ph := photos[p];
      RemoveFirstDistinct(ph.tags, t);
      photos := photos[p := ph.(tags := RemoveFirst(ph.tags, t))];
    }

    /** `db.session.delete(tag)`, called only when no photo carries the tag. */
    method RemoveTag(t: TagId)
      requires Valid() && PhotosWithTag(photos, t) == {}
      modifies this
      ensures Valid()
      ensures Contents() == old(Contents()).(tags := old(tags) - {t})
    {
      forall p | p in photos ensures t !in photos[p].tags {
        assert p !in PhotosWithTag(photos, t);
      }
      tags := tags - {t};
    }

    /** `db.session.delete(comment)`: replies keep their `replyingTo`. */
    method RemoveComment(c: CommentId)
      requires Valid()
      modifies this
      ensures Valid()
      ensures Contents() == old(Contents()).(comments := old(comments) - {c})
    {
      comments := comments - {c};
    }

    /** `db.session.delete(photo)` and its cascade. */
    method RemovePhoto(p: PhotoId)
      requires Valid()
      modifies this
      ensures Valid()
      ensures Contents() == DropPhoto(old(Contents()), p)
    {
      var r := DropPhoto(Contents(), p);
      DropPhotoKeepsWellFormed(Contents(), p);
      photos, comments, collects := r.photos, r.comments, r.collects;
      assert Contents() == r;
    }

    /** `db.session.delete(user)` and its cascade. */
    method RemoveUser(u: UserId)
      requires Valid()
      modifies this
      ensures Valid()
      ensures Contents() == DropUser(old(Contents()), u)
    {
      var r := DropUser(Contents(), u);
      DropUserKeepsWellFormed(Contents(), u);
      users, photos, comments, follows, collects := r.users, r.photos, r.comments, r.follows, r.collects;
      assert Contents() == r;
    }

    /** An edited user row committed; the username stays unique. */
    method SetUser(id: UserId, u: User)
      requires Valid() && id in users
      requires u.username == users[id].username || u.username !in Usernames(users)
      modifies this
      ensures Valid()
      ensures Contents() == old(Contents()).(users := old(users)[id := u])
    {
      RenameKeepsUnique(users, id, u);
      users := users[id := u];
    }

    /** `notification.is_read = True` committed. */
    method MarkNotificationRead(i: NotificationId)
      requires Valid() && i < |notifications|
      modifies this
      ensures Valid()
      ensures Contents() == old(Contents()).(notifications := MarkRead(old(notifications), i))
    {
      notifications := MarkRead(notifications, i);
    }
  }
}
