/** The handlers of app/blueprints/main.py that read or change the store.
    Each takes the store and the request's actor and parameters, and
    answers with an `Outcome`; a handler that fails a guard leaves the
    store exactly as it was. */
module MainRoutes {
  import opened Entities
  import opened Text
  import opened Inbox
  import opened Gallery
  import opened MainForms
  import opened Stores

  /** `photo_next`: the same author's photo with a smaller id and the latest
      timestamp, or the "last photo" message when there is none. */
  method PhotoNext(s: Store, photoId: PhotoId) returns (o: Outcome)
    requires s.Valid()
    ensures photoId !in s.photos ==> o == Abort(404)
    ensures photoId in s.photos ==>
              var a := s.photos[photoId].author;
              && (o.ShowPhoto? || o == Flash("This is already the last photo"))
              && (o.ShowPhoto? <==> exists k :: k in s.photos && s.photos[k].author == a && k < photoId)
              && (o.ShowPhoto? ==>
                    && o.photo in s.photos && s.photos[o.photo].author == a && o.photo < photoId
                    && forall k :: k in s.photos && s.photos[k].author == a && k < photoId ==>
                         s.photos[k].timestamp <= s.photos[o.photo].timestamp)
  {
    if photoId !in s.photos {
      return Abort(404);
    }
    var a := s.photos[photoId].author;
    assert forall k :: k in s.photos && s.photos[k].author == a && k < photoId ==> Candidate(s.photos, a, 0, photoId, k);
    var n := Latest(s.photos, a, 0, photoId);
    if n.None? {
      o := Flash("This is already the last photo");
    } else {
      o := ShowPhoto(n.value);
    }
  }

  /** `photo_previous`: the same author's photo with a larger id and the
      earliest timestamp, or the "first photo" message when there is none. */
  method PhotoPrevious(s: Store, photoId: PhotoId) returns (o: Outcome)
    requires s.Valid()
    ensures photoId !in s.photos ==> o == Abort(404)
    ensures photoId in s.photos ==>
              var a := s.photos[photoId].author;
              && (o.ShowPhoto? || o == Flash("This is already the first photo"))
              && (o.ShowPhoto? <==> exists k :: k in s.photos && s.photos[k].author == a && k > photoId)
              && (o.ShowPhoto? ==>
                    && o.photo in s.photos && s.photos[o.photo].author == a && o.photo > photoId
                    && forall k :: k in s.photos && s.photos[k].author == a && k > photoId ==>
                         s.photos[o.photo].timestamp <= s.photos[k].timestamp)
  {
    if photoId !in s.photos {
      return Abort(404);
    }
    var a := s.photos[photoId].author;
    var lo := photoId + 1;
    assert forall k :: k in s.photos && s.photos[k].author == a && k > photoId ==>
             Candidate(s.photos, a, lo, s.nextPhotoId, k);
    var n := Earliest(s.photos, a, lo, s.nextPhotoId);
    if n.None? {
      o := Flash("This is already the first photo");
    } else {
      o := ShowPhoto(n.value);
    }
  }

  /** `collect`: login, confirmation and COLLECT are required; an existing
      edge is reported and nothing changes; otherwise exactly the edge is
      added, and the author is notified iff the collector is someone else
      and the author accepts collect notifications. */
  method Collect(s: Store, actor: Actor, photoId: PhotoId) returns (o: Outcome)
    requires s.Valid()
    modifies s
    ensures s.Valid()
    ensures var st := old(s.Contents());
            o == (if !Authenticated(st.users, actor) then LoginRequired
                  else if !st.users[actor.value].confirmed then ConfirmRequired
                  else if !Can(st.users, actor, COLLECT) then Abort(403)
                  else if photoId !in st.photos then Abort(404)
                  else if (actor.value, photoId) in st.collects then Flash("Already Collected")
                  else Flash("Photo Collected"))
    ensures o != Flash("Photo Collected") ==> s.Contents() == old(s.Contents())
    ensures o == Flash("Photo Collected") ==>
              var st := old(s.Contents());
              var author := st.photos[photoId].author;
              var notify := actor.value != author && st.users[author].receiveCollectNotifications;
              s.Contents() == st.(collects := st.collects + {(actor.value, photoId)},
                                  notifications := st.notifications + (if notify then [Notification(author, false)] else []))
  {
    if !Authenticated(s.users, actor) {
      return LoginRequired;
    }
    var u := actor.value;
    if !s.users[u].confirmed {
      return ConfirmRequired;
    }
    if COLLECT !in s.users[u].permissions {
      return Abort(403);
    }
    if photoId !in s.photos {
      return Abort(404);
    }
    if (u, photoId) in s.collects {
      return Flash("Already Collected");
    }
    s.AddCollect(u, photoId);
    o := Flash("Photo Collected");
    var author := s.photos[photoId].author;
    s.PushNotificationIf(u != author && s.users[author].receiveCollectNotifications, author);
  }

  /** `uncollect`: login required; without an edge nothing changes;
      otherwise exactly the edge is removed, with no notification. */
  method Uncollect(s: Store, actor: Actor, photoId: PhotoId) returns (o: Outcome)
    requires s.Valid()
    modifies s
    ensures s.Valid()
    ensures var st := old(s.Contents());
            o == (if !Authenticated(st.users, actor) then LoginRequired
                  else if photoId !in st.photos then Abort(404)
                  else if (actor.value, photoId) !in st.collects then Flash("Not collected yet")
                  else Flash("Photo Uncollected"))
    ensures o != Flash("Photo Uncollected") ==> s.Contents() == old(s.Contents())
    ensures o == Flash("Photo Uncollected") ==>
              s.Contents() == old(s.Contents()).(collects := old(s.collects) - {(actor.value, photoId)})
  {
    if !Authenticated(s.users, actor) {
      return LoginRequired;
    }
    var u := actor.value;
    if photoId !in s.photos {
      return Abort(404);
    }
    if (u, photoId) !in s.collects {
      return Flash("Not collected yet");
    }
    s.RemoveCollect(u, photoId);
    o := Flash("Photo Uncollected");
  }

  /** `report_comment`: a confirmed user raises the comment's flag by one. */
  method ReportComment(s: Store, actor: Actor, commentId: CommentId) returns (o: Outcome)
    requires s.Valid()
    modifies s
    ensures s.Valid()
    ensures var st := old(s.Contents());
            o == (if !Authenticated(st.users, actor) then LoginRequired
                  else if !st.users[actor.value].confirmed then ConfirmRequired
                  else if commentId !in st.comments then Abort(404)
                  else Flash("Comment reported"))
    ensures o != Flash("Comment reported") ==> s.Contents() == old(s.Contents())
    ensures o == Flash("Comment reported") ==>
              var c := old(s.comments[commentId]);
              s.Contents() == old(s.Contents()).(comments := old(s.comments)[commentId := c.(flag := c.flag + 1)])
  {
    if !Authenticated(s.users, actor) {
      return LoginRequired;
    }
    if !s.users[actor.value].confirmed {
      return ConfirmRequired;
    }
    if commentId !in s.comments {
      return Abort(404);
    }
    var c := s.comments[commentId];
    s.SetComment(commentId, c.(flag := c.flag + 1));
    o := Flash("Comment reported");
  }

  /** `report_photo`: a confirmed user raises the photo's flag by one. */
  method ReportPhoto(s: Store, actor: Actor, photoId: PhotoId) returns (o: Outcome)
    requires s.Valid()
    modifies s
    ensures s.Valid()
    ensures var st := old(s.Contents());
            o == (if !Authenticated(st.users, actor) then LoginRequired
                  else if !st.users[actor.value].confirmed then ConfirmRequired
                  else if photoId !in st.photos then Abort(404)
                  else Flash("Photo reported, Thanks"))
    ensures o != Flash("Photo reported, Thanks") ==> s.Contents() == old(s.Contents())
    ensures o == Flash("Photo reported, Thanks") ==>
              var p := old(s.photos[photoId]);
              s.Contents() == old(s.Contents()).(photos := old(s.photos)[photoId := p.(flag := p.flag + 1)])
  {
    if !Authenticated(s.users, actor) {
      return LoginRequired;
    }
    if !s.users[actor.value].confirmed {
      return ConfirmRequired;
    }
    if photoId !in s.photos {
      return Abort(404);
    }
    var p := s.photos[photoId];
    s.SetPhoto(photoId, p.(flag := p.flag + 1));
    o := Flash("Photo reported, Thanks");
  }

  /** `edit_description`: the author or a moderator may set a description
      that DescriptionForm accepts. */
  method EditDescription(s: Store, actor: Actor, photoId: PhotoId, description: string) returns (o: Outcome)
    requires s.Valid()
    modifies s
    ensures s.Valid()
    ensures var st := old(s.Contents());
            o == (if !Authenticated(st.users, actor) then LoginRequired
                  else if photoId !in st.photos then Abort(404)
                  else if !OwnsOrModerates(st.users, actor, st.photos[photoId].author) then Abort(403)
                  else if !DescriptionValid(description) then FormErrors
                  else Flash("Description Updated"))
    ensures o != Flash("Description Updated") ==> s.Contents() == old(s.Contents())
    ensures o == Flash("Description Updated") ==>
              var p := old(s.photos[photoId]);
              s.Contents() == old(s.Contents()).(photos := old(s.photos)[photoId := p.(description := description)])
  {
    if !Authenticated(s.users, actor) {
      return LoginRequired;
    }
    if photoId !in s.photos {
      return Abort(404);
    }
    if !OwnsOrModerates(s.users, actor, s.photos[photoId].author) {
      return Abort(403);
    }
    if !DescriptionValid(description) {
      return FormErrors;
    }
    var p := s.photos[photoId];
    s.SetPhoto(photoId, p.(description := description));
    o := Flash("Description Updated");
  }

  /** `allow_comment`: only the author may toggle `comment_allowed`. Enabling
      flashes "Comment Enabled" and then, as written, "Comment Disabled" too. */
  method AllowComment(s: Store, actor: Actor, photoId: PhotoId) returns (o: Outcome)
    requires s.Valid()
    modifies s
    ensures s.Valid()
    ensures var st := old(s.Contents());
            o == (if !Authenticated(st.users, actor) then LoginRequired
                  else if photoId !in st.photos then Abort(404)
                  else if actor.value != st.photos[photoId].author then Abort(403)
                  else if !st.photos[photoId].commentAllowed then Flashed(["Comment Enabled", "Comment Disabled"])
                  else Flash("Comment Disabled"))
    ensures !o.Flashed? ==> s.Contents() == old(s.Contents())
    ensures o.Flashed? ==>
              var p := old(s.photos[photoId]);
              s.Contents() == old(s.Contents()).(photos := old(s.photos)[photoId := p.(commentAllowed := !p.commentAllowed)])
  {
    if !Authenticated(s.users, actor) {
      return LoginRequired;
    }
    if photoId !in s.photos {
      return Abort(404);
    }
    var p := s.photos[photoId];
    if actor.value != p.author {
      return Abort(403);
    }
    s.SetPhoto(photoId, p.(commentAllowed := !p.commentAllowed));
    if !p.commentAllowed {
      o := Flashed(["Comment Enabled", "Comment Disabled"]);
    } else {
      o := Flash("Comment Disabled");
    }
  }

  /** The notifications a posted comment pushes, in order: one for the
      replied-to author when accepting comment notifications (even when that
      is the commenter `u`), then one for the photo author when someone else
      commented and the author accepts them. */
  function CommentNotes(st: StoreState, u: UserId, p: PhotoId, reply: Option<CommentId>): (notes: seq<Notification>)
    requires WellFormed(st) && p in st.photos && (reply.Some? ==> reply.value in st.comments)
    ensures forall k :: 0 <= k < |notes| ==> !notes[k].isRead
    ensures var author := st.photos[p].author;
            var toReplied := reply.Some? && st.users[st.comments[reply.value].author].receiveCommentNotifications;
            var toAuthor := u != author && st.users[author].receiveCommentNotifications;
            && |notes| == (if toReplied then 1 else 0) + (if toAuthor then 1 else 0)
            && (toReplied ==> notes[0] == Notification(st.comments[reply.value].author, false))
            && (toAuthor ==> notes[|notes| - 1] == Notification(author, false))
  {
    var author := st.photos[p].author;
    (if reply.Some? && st.users[st.comments[reply.value].author].receiveCommentNotifications
     then [Notification(st.comments[reply.value].author, false)] else [])
    + (if u != author && st.users[author].receiveCommentNotifications then [Notification(author, false)] else [])
  }

  /** Who is notified, counted per user over any earlier list `ns`: a user
      gains one unread notification for being the author replied to (when
      accepting comment notifications) and one more for being the photo's
      author (when not the commenter and accepting them); nobody else gains
      any. So the commenter is notified only as the author replied to. */
  lemma CommentNotesReceivers(st: StoreState, u: UserId, p: PhotoId, reply: Option<CommentId>,
                              ns: seq<Notification>)
    requires WellFormed(st) && p in st.photos && (reply.Some? ==> reply.value in st.comments)
    ensures var notes := CommentNotes(st, u, p, reply);
            var author := st.photos[p].author;
            && |notes| <= 2
            && (Notification(u, false) in notes ==> reply.Some? && st.comments[reply.value].author == u)
            && forall v :: UnreadCount(ns + notes, v) ==
                 UnreadCount(ns, v)
                 + (if reply.Some? && v == st.comments[reply.value].author && st.users[v].receiveCommentNotifications
                    then 1 else 0)
                 + (if v == author && v != u && st.users[v].receiveCommentNotifications then 1 else 0)
  {
    var notes := CommentNotes(st, u, p, reply);
    var author := st.photos[p].author;
    var replyTo := if reply.Some? then st.comments[reply.value].author else u;
    var toReplied := reply.Some? && st.users[replyTo].receiveCommentNotifications;
    var toAuthor := u != author && st.users[author].receiveCommentNotifications;
    var first := if toReplied then [Notification(replyTo, false)] else [];
    var second := if toAuthor then [Notification(author, false)] else [];
    assert notes == first + second;
    forall v ensures UnreadCount(ns + notes, v) ==
                     UnreadCount(ns, v) + (if toReplied && v == replyTo then 1 else 0)
                                        + (if toAuthor && v == author then 1 else 0) {
      var mid := ns + first;
      if toReplied { PushCount(ns, replyTo, v); } else { assert mid == ns; }
      if toAuthor { PushCount(mid, author, v); } else { assert mid + second == mid; }
      assert ns + notes == mid + second;
    }
  }

  /** The effect of a valid `new_comment` submission: the reply
      notification, the comment under the next id, the author notification. */
  method PostComment(s: Store, u: UserId, photoId: PhotoId, body: string, reply: Option<CommentId>)
    returns (id: CommentId)
    requires s.Valid() && u in s.users && photoId in s.photos && (reply.Some? ==> reply.value in s.comments)
    modifies s
    ensures s.Valid()
    ensures id == old(s.nextCommentId) && id !in old(s.comments)
    ensures s.Contents() == old(s.Contents()).(comments := old(s.comments)[id := Comment(u, photoId, body, 0, reply)],
                                               nextCommentId := id + 1,
                                               notifications := old(s.notifications) + CommentNotes(old(s.Contents()), u, photoId, reply))
  {
    var author := s.photos[photoId].author;
    var replyTo := if reply.Some? then s.comments[reply.value].author else u;
    var toReplied := reply.Some? && s.users[replyTo].receiveCommentNotifications;
    var toAuthor := u != author && s.users[author].receiveCommentNotifications;
    ghost var first := if toReplied then [Notification(replyTo, false)] else [];
    ghost var second := if toAuthor then [Notification(author, false)] else [];
    assert CommentNotes(s.Contents(), u, photoId, reply) == first + second;
    ghost var ns := s.notifications;
    s.PushNotificationIf(toReplied, replyTo);
    id := AddCommentThenNotify(s, Comment(u, photoId, body, 0, reply), toAuthor, author);
    assert ns + first + second == ns + (first + second);
  }

  /** The comment committed, then the photo author's notification pushed
      when `notify` holds. */
  method AddCommentThenNotify(s: Store, c: Comment, notify: bool, receiver: UserId) returns (id: CommentId)
    requires s.Valid() && c.author in s.users && c.photo in s.photos
    modifies s
    ensures s.Valid()
    ensures id == old(s.nextCommentId) && id !in old(s.comments)
    ensures s.Contents() == old(s.Contents()).(comments := old(s.comments)[id := c], nextCommentId := id + 1,
                                               notifications := old(s.notifications) +
                                                 (if notify then [Notification(receiver, false)] else []))
  {
    id := s.AddComment(c);
    s.PushNotificationIf(notify, receiver);
  }

  /** `new_comment`: COMMENT is required (no confirmation check); a photo
      closed to comments takes nothing; a valid body becomes a new comment,
      replying to `reply` when given (a reply to a missing comment is a 404
      and takes nothing). */
  method NewComment(s: Store, actor: Actor, photoId: PhotoId, body: string, reply: Option<CommentId>)
    returns (o: Outcome)
    requires s.Valid()
    modifies s
    ensures s.Valid()
    ensures var st := old(s.Contents());
            o == (if !Authenticated(st.users, actor) then LoginRequired
                  else if !Can(st.users, actor, COMMENT) then Abort(403)
                  else if photoId !in st.photos then Abort(404)
                  else if !st.photos[photoId].commentAllowed then Flash("Comment Disabled")
                  else if !CommentValid(body) then FormErrors
                  else if reply.Some? && reply.value !in st.comments then Abort(404)
                  else Flash("Comment posted"))
    ensures o != Flash("Comment posted") ==> s.Contents() == old(s.Contents())
    ensures o == Flash("Comment posted") ==>
              var st := old(s.Contents());
              var id := st.nextCommentId;
              && id !in st.comments
              && s.Contents() == st.(comments := st.comments[id := Comment(actor.value, photoId, body, 0, reply)],
                                     nextCommentId := id + 1,
                                     notifications := st.notifications + CommentNotes(st, actor.value, photoId, reply))
  {
    if !Authenticated(s.users, actor) {
      return LoginRequired;
    }
    var u := actor.value;
    if COMMENT !in s.users[u].permissions {
      return Abort(403);
    }
    if photoId !in s.photos {
      return Abort(404);
    }
    if !s.photos[photoId].commentAllowed {
      return Flash("Comment Disabled");
    }
    if !CommentValid(body) {
      return FormErrors;
    }
    if reply.Some? && reply.value !in s.comments {
      return Abort(404);
    }
    var id := PostComment(s, u, photoId, body, reply);
    o := Flash("Comment posted");
  }

  /** `reply_comment`: COMMENT is required; the answer is the page of the
      photo the comment is on. */
  method ReplyComment(s: Store, actor: Actor, commentId: CommentId) returns (o: Outcome)
    requires s.Valid()
    ensures o == (if !Authenticated(s.users, actor) then LoginRequired
                  else if !Can(s.users, actor, COMMENT) then Abort(403)
                  else if commentId !in s.comments then Abort(404)
                  else ShowPhoto(s.comments[commentId].photo))
    ensures o.ShowPhoto? ==> o.photo in s.photos
  {
    if !Authenticated(s.users, actor) {
      return LoginRequired;
    }
    if COMMENT !in s.users[actor.value].permissions {
      return Abort(403);
    }
    if commentId !in s.comments {
      return Abort(404);
    }
    o := ShowPhoto(s.comments[commentId].photo);
  }

  /** Only photo `p`'s tag list and the tag table differ, and the old tag
      list is a prefix of the new one. */
  ghost predicate OnlyTagsGrew(st: StoreState, st2: StoreState, p: PhotoId)
    requires p in st.photos
  {
    && st2 == st.(photos := st2.photos, tags := st2.tags, nextTagId := st2.nextTagId)
    && st2.photos.Keys == st.photos.Keys
    && (forall q :: q in st.photos && q != p ==> st2.photos[q] == st.photos[q])
    && st2.photos[p] == st.photos[p].(tags := st2.photos[p].tags)
    && st.photos[p].tags <= st2.photos[p].tags
    && (forall t :: t in st.tags ==> t in st2.tags && st2.tags[t] == st.tags[t])
  }

  /** Every word names a tag on the list `ts`. */
  ghost predicate AllNamed(ts: seq<TagId>, tags: map<TagId, Tag>, names: seq<string>) {
    forall n :: n in names ==> HasTagNamed(ts, tags, n)
  }

  /** Every tag on `ts` from position `from` on is named by a word. */
  ghost predicate NamedByWords(ts: seq<TagId>, from: nat, tags: map<TagId, Tag>, names: seq<string>) {
    forall k :: from <= k < |ts| ==> ts[k] in tags && tags[ts[k]].name in names
  }

  /** Every tag of `tags2` not in `tags` is named by a word that no tag of
      `tags` had. */
  ghost predicate NewTagsNamed(tags: map<TagId, Tag>, tags2: map<TagId, Tag>, names: seq<string>) {
    forall t :: t in tags2 && t !in tags ==>
      tags2[t].name in names && forall t0 :: t0 in tags ==> tags[t0].name != tags2[t].name
  }

  /** What `new_tag` leaves behind once its input validated into the words
      `names`: only photo `p`'s tag list and the tag table changed; the old
      tag list is a prefix of the new one and old tags are kept as they
      were; every word names a tag on the photo; every appended tag is
      named by a word; a new tag is named by a word no old tag had. */
  ghost predicate TagsAdded(st: StoreState, st2: StoreState, p: PhotoId, names: seq<string>)
    requires p in st.photos
  {
    && OnlyTagsGrew(st, st2, p)
    && AllNamed(st2.photos[p].tags, st2.tags, names)
    && NamedByWords(st2.photos[p].tags, |st.photos[p].tags|, st2.tags, names)
    && NewTagsNamed(st.tags, st2.tags, names)
  }

  /** The state change of one pass of `new_tag`'s loop for the word `name`:
      tag `t` was found, or created when no tag had that name, and was
      appended unless already on the photo. */
  ghost predicate TagPass(mid: StoreState, st2: StoreState, p: PhotoId, name: string, t: TagId)
    requires p in mid.photos
  {
    && st2 == mid.(photos := st2.photos, tags := st2.tags, nextTagId := st2.nextTagId)
    && (st2.tags == mid.tags ||
        (t !in mid.tags && (forall k :: k in mid.tags ==> mid.tags[k].name != name) &&
         st2.tags == mid.tags[t := Tag(name)]))
    && t in st2.tags && st2.tags[t].name == name
    && st2.photos == mid.photos[p := mid.photos[p].(tags :=
         if t in mid.photos[p].tags then mid.photos[p].tags else mid.photos[p].tags + [t])]
  }

  lemma PassGrows(st: StoreState, mid: StoreState, st2: StoreState, p: PhotoId, name: string, t: TagId)
    requires p in st.photos && OnlyTagsGrew(st, mid, p) && TagPass(mid, st2, p, name, t)
    ensures OnlyTagsGrew(st, st2, p)
    ensures OnlyTagsGrew(mid, st2, p)
  {
  }

  lemma PassNames(mid: StoreState, st2: StoreState, p: PhotoId, names: seq<string>, name: string, t: TagId)
    requires p in mid.photos && TagPass(mid, st2, p, name, t) && OnlyTagsGrew(mid, st2, p)
    requires forall k :: k in mid.photos[p].tags ==> k in mid.tags
    requires AllNamed(mid.photos[p].tags, mid.tags, names)
    ensures AllNamed(st2.photos[p].tags, st2.tags, names + [name])
  {
    var before := mid.photos[p].tags;
    var after := st2.photos[p].tags;
    assert t in after;
    forall n | n in names + [name] ensures HasTagNamed(after, st2.tags, n) {
      if n == name {
        assert t in after && t in st2.tags && st2.tags[t].name == n;
      } else {
        assert n in names;
        var w :| w in before && w in mid.tags && mid.tags[w].name == n;
        assert w in after && w in st2.tags && st2.tags[w].name == n;
      }
    }
  }

  lemma PassAppends(mid: StoreState, st2: StoreState, p: PhotoId, from: nat,
                    names: seq<string>, name: string, t: TagId)
    requires p in mid.photos && TagPass(mid, st2, p, name, t) && OnlyTagsGrew(mid, st2, p)
    requires NamedByWords(mid.photos[p].tags, from, mid.tags, names)
    ensures NamedByWords(st2.photos[p].tags, from, st2.tags, names + [name])
  {
    var before := mid.photos[p].tags;
    var after := st2.photos[p].tags;
    forall k | from <= k < |after| ensures after[k] in st2.tags && st2.tags[after[k]].name in names + [name] {
      if k < |before| {
        assert after[k] == before[k];
      } else {
        assert after[k] == t;
      }
    }
  }

  lemma PassNewTags(st: StoreState, mid: StoreState, st2: StoreState, p: PhotoId,
                    names: seq<string>, name: string, t: TagId)
    requires p in mid.photos && TagPass(mid, st2, p, name, t)
    requires forall k :: k in st.tags ==> k in mid.tags && mid.tags[k] == st.tags[k]
    requires NewTagsNamed(st.tags, mid.tags, names)
    ensures NewTagsNamed(st.tags, st2.tags, names + [name])
  {
    forall k | k in st2.tags && k !in st.tags
      ensures st2.tags[k].name in names + [name]
      ensures forall t0 :: t0 in st.tags ==> st.tags[t0].name != st2.tags[k].name
    {
      if k in mid.tags {
        assert st2.tags[k] == mid.tags[k];
      } else {
        assert k == t;
      }
    }
  }

  /** One pass of `new_tag`'s loop keeps `TagsAdded` for one more word. */
  lemma TagStep(st: StoreState, mid: StoreState, st2: StoreState, p: PhotoId,
                names: seq<string>, name: string, t: TagId)
    requires p in st.photos && TagsAdded(st, mid, p, names)
    requires WellFormed(mid)
    requires TagPass(mid, st2, p, name, t)
    ensures TagsAdded(st, st2, p, names + [name])
  {
    PassGrows(st, mid, st2, p, name, t);
    PassNames(mid, st2, p, names, name, t);
    PassAppends(mid, st2, p, |st.photos[p].tags|, names, name, t);
    PassNewTags(st, mid, st2, p, names, name, t);
  }

  lemma PrefixStep(xs: seq<string>, i: nat)
    requires i < |xs|
    ensures xs[..i + 1] == xs[..i] + [xs[i]]
  {
  }

  /** One pass of `new_tag`'s loop: find the tag named `name`, create it when
      there is none, and append it to the photo unless already there. */
  method AddTagWord(s: Store, p: PhotoId, name: string) returns (t: TagId)
    requires s.Valid() && p in s.photos
    modifies s
    ensures s.Valid() && p in s.photos
    ensures TagPass(old(s.Contents()), s.Contents(), p, name, t)
  {
    var found := s.FindTag(name);
    if found.None? {
      t := s.AddTag(name);
    } else {
      t := found.value;
    }
    if t !in s.photos[p].tags {
      s.AttachTag(p, t);
    }
  }

  /** The loop of `new_tag` over the words of the input. */
  method AddTagWords(s: Store, p: PhotoId, names: seq<string>)
    requires s.Valid() && p in s.photos
    modifies s
    ensures s.Valid()
    ensures TagsAdded(old(s.Contents()), s.Contents(), p, names)
  {
    ghost var st := s.Contents();
    var i := 0;
    while i < |names|
      invariant 0 <= i <= |names|
      invariant s.Valid()
      invariant TagsAdded(st, s.Contents(), p, names[..i])
    {
      ghost var before := s.Contents();
      var t := AddTagWord(s, p, names[i]);
      TagStep(st, before, s.Contents(), p, names[..i], names[i], t);
      PrefixStep(names, i);
      i := i + 1;
    }
    assert names[..i] == names;
  }

  /** `new_tag`: the author or a moderator may add the whitespace-separated
      words of a TagForm input as tags. */
  method NewTag(s: Store, actor: Actor, photoId: PhotoId, input: string) returns (o: Outcome)
    requires s.Valid()
    modifies s
    ensures s.Valid()
    ensures var st := old(s.Contents());
            o == (if !Authenticated(st.users, actor) then LoginRequired
                  else if photoId !in st.photos then Abort(404)
                  else if !OwnsOrModerates(st.users, actor, st.photos[photoId].author) then Abort(403)
                  else if !TagInputValid(input) then FormErrors
                  else Flash("Tag added"))
    ensures o != Flash("Tag added") ==> s.Contents() == old(s.Contents())
    ensures o == Flash("Tag added") ==>
              && TagsAdded(old(s.Contents()), s.Contents(), photoId, Split(input))
              && Distinct(s.photos[photoId].tags)
  {
    if !Authenticated(s.users, actor) {
      return LoginRequired;
    }
    if photoId !in s.photos {
      return Abort(404);
    }
    if !OwnsOrModerates(s.users, actor, s.photos[photoId].author) {
      return Abort(403);
    }
    if !TagInputValid(input) {
      return FormErrors;
    }
    AddTagWords(s, photoId, Split(input));
    o := Flash("Tag added");
  }

  /** `delete_tag`: the author or a moderator detaches the tag from the
      photo; a tag that is not on the photo makes `list.remove` raise (500)
      and nothing changes. The tag itself is deleted exactly when no photo
      carries it any more. */
  method DeleteTag(s: Store, actor: Actor, photoId: PhotoId, tagId: TagId) returns (o: Outcome)
    requires s.Valid()
    modifies s
    ensures s.Valid()
    ensures var st := old(s.Contents());
            o == (if !Authenticated(st.users, actor) then LoginRequired
                  else if tagId !in st.tags then Abort(404)
                  else if photoId !in st.photos then Abort(404)
                  else if !OwnsOrModerates(st.users, actor, st.photos[photoId].author) then Abort(403)
                  else if tagId !in st.photos[photoId].tags then Abort(500)
                  else Flash("Tag deleted"))
    ensures o != Flash("Tag deleted") ==> s.Contents() == old(s.Contents())
    ensures o == Flash("Tag deleted") ==>
              var st := old(s.Contents());
              var ph := st.photos[photoId];
              var photos := st.photos[photoId := ph.(tags := RemoveFirst(ph.tags, tagId))];
              s.Contents() == st.(photos := photos,
                                  tags := if PhotosWithTag(photos, tagId) == {} then st.tags - {tagId} else st.tags)
    ensures o == Flash("Tag deleted") ==>
              && tagId !in s.photos[photoId].tags
              && (forall t :: t in s.photos[photoId].tags <==> t in old(s.photos[photoId].tags) && t != tagId)
              && (tagId in s.tags <==> exists q :: q in s.photos && tagId in s.photos[q].tags)
  {
    if !Authenticated(s.users, actor) {
      return LoginRequired;
    }
    if tagId !in s.tags {
      return Abort(404);
    }
    if photoId !in s.photos {
      return Abort(404);
    }
    if !OwnsOrModerates(s.users, actor, s.photos[photoId].author) {
      return Abort(403);
    }
    if tagId !in s.photos[photoId].tags {
      return Abort(500);
    }
    RemoveFirstDistinct(s.photos[photoId].tags, tagId);
    s.DetachTag(photoId, tagId);
    if PhotosWithTag(s.photos, tagId) == {} {
      s.RemoveTag(tagId);
      forall q | q in s.photos ensures tagId !in s.photos[q].tags {
        assert q !in PhotosWithTag(s.photos, tagId);
      }
    } else {
      var q :| q in PhotosWithTag(s.photos, tagId);
      assert q in s.photos && tagId in s.photos[q].tags;
    }
    o := Flash("Tag deleted");
  }

  /** `delete_photo`: the author or a moderator deletes the photo with its
      comments and collect edges. */
  method DeletePhoto(s: Store, actor: Actor, photoId: PhotoId) returns (o: Outcome)
    requires s.Valid()
    modifies s
    ensures s.Valid()
    ensures var st := old(s.Contents());
            o == (if !Authenticated(st.users, actor) then LoginRequired
                  else if photoId !in st.photos then Abort(404)
                  else if !OwnsOrModerates(st.users, actor, st.photos[photoId].author) then Abort(403)
                  else Flash("Photo deleted."))
    ensures o != Flash("Photo deleted.") ==> s.Contents() == old(s.Contents())
    ensures o == Flash("Photo deleted.") ==> s.Contents() == DropPhoto(old(s.Contents()), photoId)
  {
    if !Authenticated(s.users, actor) {
      return LoginRequired;
    }
    if photoId !in s.photos {
      return Abort(404);
    }
    if !OwnsOrModerates(s.users, actor, s.photos[photoId].author) {
      return Abort(403);
    }
    s.RemovePhoto(photoId);
    o := Flash("Photo deleted.");
  }

  /** Who may delete a comment: its author, the photo's author, or a
      MODERATE holder. */
  predicate MayDeleteComment(users: map<UserId, User>, actor: Actor, c: Comment, photoAuthor: UserId) {
    (actor.Some? && (actor.value == c.author || actor.value == photoAuthor)) || Can(users, actor, MODERATE)
  }

  /** `delete_comment`: the comment goes; replies to it stay. */
  method DeleteComment(s: Store, actor: Actor, commentId: CommentId) returns (o: Outcome)
    requires s.Valid()
    modifies s
    ensures s.Valid()
    ensures var st := old(s.Contents());
            o == (if !Authenticated(st.users, actor) then LoginRequired
                  else if commentId !in st.comments then Abort(404)
                  else if !MayDeleteComment(st.users, actor, st.comments[commentId],
                                            st.photos[st.comments[commentId].photo].author) then Abort(403)
                  else Flash("Comment deleted"))
    ensures o != Flash("Comment deleted") ==> s.Contents() == old(s.Contents())
    ensures o == Flash("Comment deleted") ==>
              s.Contents() == old(s.Contents()).(comments := old(s.comments) - {commentId})
  {
    if !Authenticated(s.users, actor) {
      return LoginRequired;
    }
    if commentId !in s.comments {
      return Abort(404);
    }
    var c := s.comments[commentId];
    if !MayDeleteComment(s.users, actor, c, s.photos[c.photo].author) {
      return Abort(403);
    }
    s.RemoveComment(commentId);
    o := Flash("Comment deleted");
  }

  /** `show_notifications`: the caller's notifications, or only the unread
      ones when the `filter` argument is "unread". */
  method ShowNotifications(s: Store, actor: Actor, filter: string) returns (o: Outcome)
    requires s.Valid()
    ensures !Authenticated(s.users, actor) ==> o == LoginRequired
    ensures Authenticated(s.users, actor) ==>
              && o.NotificationPage?
              && (forall i :: i in o.ids <==>
                    0 <= i < |s.notifications| && s.notifications[i].receiver == actor.value &&
                    (filter == "unread" ==> !s.notifications[i].isRead))
              && (filter == "unread" ==> |o.ids| == UnreadCount(s.notifications, actor.value))
  {
    if !Authenticated(s.users, actor) {
      return LoginRequired;
    }
    var unreadOnly := filter == "unread";
    var ids := Listing(s.notifications, actor.value, unreadOnly);
    if unreadOnly {
      CountIsUnreadListing(s.notifications, actor.value);
    }
    o := NotificationPage(ids);
  }

  /** `read_notification`: only the receiver may mark it read. */
  method ReadNotification(s: Store, actor: Actor, id: NotificationId) returns (o: Outcome)
    requires s.Valid()
    modifies s
    ensures s.Valid()
    ensures var st := old(s.Contents());
            o == (if !Authenticated(st.users, actor) then LoginRequired
                  else if id >= |st.notifications| then Abort(404)
                  else if st.notifications[id].receiver != actor.value then Abort(403)
                  else Flash("Notification Archived"))
    ensures o != Flash("Notification Archived") ==> s.Contents() == old(s.Contents())
    ensures o == Flash("Notification Archived") ==>
              s.Contents() == old(s.Contents()).(notifications := MarkRead(old(s.notifications), id))
  {
    if !Authenticated(s.users, actor) {
      return LoginRequired;
    }
    if id >= |s.notifications| {
      return Abort(404);
    }
    if s.notifications[id].receiver != actor.value {
      return Abort(403);
    }
    s.MarkNotificationRead(id);
    o := Flash("Notification Archived");
  }

  /** `read_all_notifications`: the loop over the caller's notifications. */
  method ReadAllNotifications(s: Store, actor: Actor) returns (o: Outcome)
    requires s.Valid()
    modifies s
    ensures s.Valid()
    ensures !Authenticated(old(s.users), actor) ==> o == LoginRequired && s.Contents() == old(s.Contents())
    ensures Authenticated(old(s.users), actor) ==>
              && o == Flash("All notifications archived")
              && s.Contents() == old(s.Contents()).(notifications := MarkAllRead(old(s.notifications), actor.value))
  {
    if !Authenticated(s.users, actor) {
      return LoginRequired;
    }
    var u := actor.value;
    ghost var st := s.Contents();
    var i := 0;
    while i < |s.notifications|
      invariant s.Valid()
      invariant 0 <= i <= |s.notifications| == |st.notifications|
      invariant s.Contents() == st.(notifications := s.notifications)
      invariant forall k :: 0 <= k < i ==> s.notifications[k] == MarkAllRead(st.notifications, u)[k]
      invariant forall k :: i <= k < |s.notifications| ==> s.notifications[k] == st.notifications[k]
    {
      if s.notifications[i].receiver == u {
        s.MarkNotificationRead(i);
      }
      i := i + 1;
    }
    assert s.notifications == MarkAllRead(st.notifications, u);
    o := Flash("All notifications archived");
  }

  /** The full-text index a search runs against. */
  datatype Index = UserIndex | PhotoIndex | TagIndex

  /** What `search` does with its arguments: refuse a blank query (with the
      "Enter keyword ..." message), or search one index for the stripped
      query. */
  datatype Search = Refused | Query(index: Index, keyword: string)

  /** `search`: `q` defaults to "", `category` to "photo"; "user" and
      "photo" pick their index, any other category the tag index. */
  function SearchRequest(q: string, category: Option<string>): (r: Search)
    ensures r.Refused? <==> AllSpace(q)
    ensures r.Query? ==> r.keyword == Strip(q) && r.keyword != [] && !IsSpace(r.keyword[0])
    ensures r.Query? ==> (r.index == UserIndex <==> category == Some("user"))
    ensures r.Query? ==> (r.index == PhotoIndex <==> category.None? || category == Some("photo"))
  {
    var keyword := Strip(q);
    if keyword == [] then Refused
    else
      var c := if category.Some? then category.value else "photo";
      if c == "user" then Query(UserIndex, keyword)
      else if c == "photo" then Query(PhotoIndex, keyword)
      else Query(TagIndex, keyword)
  }
}
