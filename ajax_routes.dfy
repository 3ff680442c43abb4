/** The JSON endpoints of app/blueprints/ajax.py. Their guards are written
    out in the handler, in a fixed order, and each failing guard answers
    with its own status and message and leaves the store as it was. */
module AjaxRoutes {
  import opened Entities
  import opened Inbox
  import opened Graph
  import opened Stores

  /** `followers_count`: the follow rows into the user minus one, because
      every user follows themself. */
  method FollowersCount(s: Store, userId: UserId) returns (o: Outcome)
    requires s.Valid()
    ensures userId !in s.users ==> o == Abort(404)
    ensures userId in s.users ==> o == Count(|Into(s.follows, userId)| - 1)
    ensures userId in s.users && (userId, userId) in s.follows ==>
              o == Count(|Sources(s.follows, userId) - {userId}|)
  {
    if userId !in s.users {
      return Abort(404);
    }
    SourcesCountIsEdgeCount(s.follows, userId);
    if (userId, userId) in s.follows {
      assert userId in Sources(s.follows, userId) by { assert (userId, userId).0 == userId; }
    }
    o := Count(|Sources(s.follows, userId)| - 1);
  }

  /** `follow`: 403 for a guest, 400 when unconfirmed, 403 without FOLLOW,
      404 for an unknown username, 400 when already following; otherwise the
      edge is added and, as written, the target is notified when accepting
      collect notifications, with no check that the target is not the actor. */
  method AjaxFollow(s: Store, actor: Actor, username: string) returns (o: Outcome)
    requires s.Valid()
    modifies s
    ensures s.Valid()
    ensures var st := old(s.Contents());
            var target := old(s.FindUser(username));
            o == (if !Authenticated(st.users, actor) then Json(403, "Login required")
                  else if !st.users[actor.value].confirmed then Json(400, "Account confirmation required")
                  else if !Can(st.users, actor, FOLLOW) then Json(403, "No permission")
                  else if target.None? then Abort(404)
                  else if (actor.value, target.value) in st.follows then Json(400, "Already followed")
                  else Json(200, "User followed"))
    ensures o != Json(200, "User followed") ==> s.Contents() == old(s.Contents())
    ensures o == Json(200, "User followed") ==>
              var st := old(s.Contents());
              var v := old(s.FindUser(username)).value;
              && st.users[v].username == username
              && s.Contents() == st.(follows := st.follows + {(actor.value, v)},
                                     notifications := st.notifications +
                                       (if st.users[v].receiveCollectNotifications then [Notification(v, false)] else []))
  {
    if !Authenticated(s.users, actor) {
      return Json(403, "Login required");
    }
    var u := actor.value;
    if !s.users[u].confirmed {
      return Json(400, "Account confirmation required");
    }
    if FOLLOW !in s.users[u].permissions {
      return Json(403, "No permission");
    }
    var target := s.FindUser(username);
    if target.None? {
      return Abort(404);
    }
    var v := target.value;
    if (u, v) in s.follows {
      return Json(400, "Already followed");
    }
    s.AddFollow(u, v);
    s.PushNotificationIf(s.users[v].receiveCollectNotifications, v);
    o := Json(200, "User followed");
  }

  /** `unfollow`: 403 for a guest, 404 for an unknown username, 400 when not
      following; otherwise exactly the edge is removed. */
  method AjaxUnfollow(s: Store, actor: Actor, username: string) returns (o: Outcome)
    requires s.Valid()
    modifies s
    ensures s.Valid()
    ensures var st := old(s.Contents());
            var target := old(s.FindUser(username));
            o == (if !Authenticated(st.users, actor) then Json(403, "Login required")
                  else if target.None? then Abort(404)
                  else if (actor.value, target.value) !in st.follows then Json(400, "Not followed yet")
                  else Json(200, "User unfollowed"))
    ensures o != Json(200, "User unfollowed") ==> s.Contents() == old(s.Contents())
    ensures o == Json(200, "User unfollowed") ==>
              var v := old(s.FindUser(username)).value;
              s.Contents() == old(s.Contents()).(follows := old(s.follows) - {(actor.value, v)})
  {
    if !Authenticated(s.users, actor) {
      return Json(403, "Login required");
    }
    var target := s.FindUser(username);
    if target.None? {
      return Abort(404);
    }
    var v := target.value;
    if (actor.value, v) !in s.follows {
      return Json(400, "Not followed yet");
    }
    s.RemoveFollow(actor.value, v);
    o := Json(200, "User unfollowed");
  }

  /** `notifications_count`: 403 for a guest; otherwise the number of the
      caller's unread notifications, the same ones the unread filter of the
      notification page lists. */
  method NotificationsCount(s: Store, actor: Actor) returns (o: Outcome)
    requires s.Valid()
    ensures !Authenticated(s.users, actor) ==> o == Json(403, "Login required")
    ensures Authenticated(s.users, actor) ==>
              && o == Count(UnreadCount(s.notifications, actor.value))
              && o.count == |Listing(s.notifications, actor.value, true)|
  {
    if !Authenticated(s.users, actor) {
      return Json(403, "Login required");
    }
    CountIsUnreadListing(s.notifications, actor.value);
    o := Count(UnreadCount(s.notifications, actor.value));
  }

  /** `collect`: 403 for a guest, 400 when unconfirmed, 403 without COLLECT,
      404 for an unknown photo, 400 when already collecting; otherwise the
      edge is added, the photo's collector count grows by one, and the author
      is notified exactly when both reported flags hold. */
  method AjaxCollect(s: Store, actor: Actor, photoId: PhotoId) returns (o: Outcome)
    requires s.Valid()
    modifies s
    ensures s.Valid()
    ensures var st := old(s.Contents());
            o == (if !Authenticated(st.users, actor) then Json(403, "Login required")
                  else if !st.users[actor.value].confirmed then Json(400, "Account confirmation required")
                  else if !Can(st.users, actor, COLLECT) then Json(403, "Permission required")
                  else if photoId !in st.photos then Abort(404)
                  else if (actor.value, photoId) in st.collects then Json(400, "Already collected")
                  else
                    var author := st.photos[photoId].author;
                    Collected(actor.value != author, st.users[author].receiveCollectNotifications))
    ensures !o.Collected? ==> s.Contents() == old(s.Contents())
    ensures o.Collected? ==>
              var st := old(s.Contents());
              var author := st.photos[photoId].author;
              && s.Contents() == st.(collects := st.collects + {(actor.value, photoId)},
                                     notifications := st.notifications +
                                       (if o.notAuthor && o.allowNotification then [Notification(author, false)] else []))
              && |Sources(s.collects, photoId)| == |Sources(st.collects, photoId)| + 1
  {
    if !Authenticated(s.users, actor) {
      return Json(403, "Login required");
    }
    var u := actor.value;
    if !s.users[u].confirmed {
      return Json(400, "Account confirmation required");
    }
    if COLLECT !in s.users[u].permissions {
      return Json(403, "Permission required");
    }
    if photoId !in s.photos {
      return Abort(404);
    }
    if (u, photoId) in s.collects {
      return Json(400, "Already collected");
    }
    AddEdge(s.collects, u, photoId);
    s.AddCollect(u, photoId);
    var author := s.photos[photoId].author;
    var notAuthor := u != author;
    var allowNotification := s.users[author].receiveCollectNotifications;
    s.PushNotificationIf(notAuthor && allowNotification, author);
    o := Collected(notAuthor, allowNotification);
  }

  /** `collectors_count`: the number of collect rows on the photo. */
  method CollectorsCount(s: Store, photoId: PhotoId) returns (o: Outcome)
    requires s.Valid()
    ensures photoId !in s.photos ==> o == Abort(404)
    ensures photoId in s.photos ==> o == Count(|Into(s.collects, photoId)|)
    ensures photoId in s.photos && Into(s.collects, photoId) == {} ==> o == Count(0)
  {
    if photoId !in s.photos {
      return Abort(404);
    }
    SourcesCountIsEdgeCount(s.collects, photoId);
    o := Count(|Sources(s.collects, photoId)|);
  }

  /** `uncollect`: 403 for a guest, 404 for an unknown photo, 400 when not
      collecting; otherwise exactly the edge is removed and the collector
      count drops by one. The notification check that follows reads
      `receive_collect_notification`, an attribute users do not have, so
      for anyone but the photo's author the request ends in a 500 after the
      removal has been committed; the author gets "Photo uncollected". */
  method AjaxUncollect(s: Store, actor: Actor, photoId: PhotoId) returns (o: Outcome)
    requires s.Valid()
    modifies s
    ensures s.Valid()
    ensures var st := old(s.Contents());
            o == (if !Authenticated(st.users, actor) then Json(403, "Login required")
                  else if photoId !in st.photos then Abort(404)
                  else if (actor.value, photoId) !in st.collects then Json(400, "Not yet collected")
                  else if actor.value != st.photos[photoId].author then Abort(500)
                  else Json(200, "Photo uncollected"))
    ensures o != Json(200, "Photo uncollected") && o != Abort(500) ==> s.Contents() == old(s.Contents())
    ensures o == Json(200, "Photo uncollected") || o == Abort(500) ==>
              && s.Contents() == old(s.Contents()).(collects := old(s.collects) - {(actor.value, photoId)})
              && |Sources(s.collects, photoId)| == |Sources(old(s.collects), photoId)| - 1
  {
    if !Authenticated(s.users, actor) {
      return Json(403, "Login required");
    }
    if photoId !in s.photos {
      return Abort(404);
    }
    if (actor.value, photoId) !in s.collects {
      return Json(400, "Not yet collected");
    }
    RemoveEdge(s.collects, actor.value, photoId);
    s.RemoveCollect(actor.value, photoId);
    if actor.value != s.photos[photoId].author {
      return Abort(500);
    }
    o := Json(200, "Photo uncollected");
  }
}
