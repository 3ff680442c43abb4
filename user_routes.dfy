/** The handlers of app/blueprints/user.py that change the store: following,
    the profile and privacy settings, and account deletion. */
module UserRoutes {
  import opened Entities
  import opened UserForms
  import opened Stores

  /** `follow`: login, confirmation and FOLLOW are required, the username
      must exist; an existing edge is reported and nothing changes;
      otherwise exactly the edge is added, and the target is notified when
      accepting follow notifications, with no check that the target is not
      the follower. */
  method Follow(s: Store, actor: Actor, username: string) returns (o: Outcome)
    requires s.Valid()
    modifies s
    ensures s.Valid()
    ensures var st := old(s.Contents());
            var target := old(s.FindUser(username));
            o == (if !Authenticated(st.users, actor) then LoginRequired
                  else if !st.users[actor.value].confirmed then ConfirmRequired
                  else if !Can(st.users, actor, FOLLOW) then Abort(403)
                  else if target.None? then Abort(404)
                  else if (actor.value, target.value) in st.follows then Flash("Already followed")
                  else Flash("User followed"))
    ensures o != Flash("User followed") ==> s.Contents() == old(s.Contents())
    ensures o == Flash("User followed") ==>
              var st := old(s.Contents());
              var v := old(s.FindUser(username)).value;
              && st.users[v].username == username
              && s.Contents() == st.(follows := st.follows + {(actor.value, v)},
                                     notifications := st.notifications +
                                       (if st.users[v].receiveFollowNotifications then [Notification(v, false)] else []))
  {
    if !Authenticated(s.users, actor) {
      return LoginRequired;
    }
    var u := actor.value;
    if !s.users[u].confirmed {
      return ConfirmRequired;
    }
    if FOLLOW !in s.users[u].permissions {
      return Abort(403);
    }
    var target := s.FindUser(username);
    if target.None? {
      return Abort(404);
    }
    var v := target.value;
    if (u, v) in s.follows {
      return Flash("Already followed");
    }
    s.AddFollow(u, v);
    o := Flash("User followed");
    s.PushNotificationIf(s.users[v].receiveFollowNotifications, v);
  }

  /** `unfollow`: the edge is removed only when it exists; otherwise "Not yet
      followed" and nothing changes. */
  method Unfollow(s: Store, actor: Actor, username: string) returns (o: Outcome)
    requires s.Valid()
    modifies s
    ensures s.Valid()
    ensures var st := old(s.Contents());
            var target := old(s.FindUser(username));
            o == (if !Authenticated(st.users, actor) then LoginRequired
                  else if target.None? then Abort(404)
                  else if (actor.value, target.value) in st.follows then Flash("User unfollowed")
                  else Flash("Not yet followed"))
    ensures o != Flash("User unfollowed") ==> s.Contents() == old(s.Contents())
    ensures o == Flash("User unfollowed") ==>
              var v := old(s.FindUser(username)).value;
              s.Contents() == old(s.Contents()).(follows := old(s.follows) - {(actor.value, v)})
  {
    if !Authenticated(s.users, actor) {
      return LoginRequired;
    }
    var target := s.FindUser(username);
    if target.None? {
      return Abort(404);
    }
    var v := target.value;
    if (actor.value, v) in s.follows {
      s.RemoveFollow(actor.value, v);
      return Flash("User unfollowed");
    }
    o := Flash("Not yet followed");
  }

  /** `edit_profile`: a submission the declared EditProfileForm accepts
      overwrites the caller's name, username, location, website and bio, and
      nothing else; usernames stay unique. */
  method EditProfile(s: Store, actor: Actor, f: ProfileForm) returns (o: Outcome)
    requires s.Valid()
    modifies s
    ensures s.Valid()
    ensures var st := old(s.Contents());
            o == (if !Authenticated(st.users, actor) then LoginRequired
                  else if !EditProfileValid(f, st.users[actor.value].username, Usernames(st.users)) then FormErrors
                  else Flash("Profile updated"))
    ensures o != Flash("Profile updated") ==> s.Contents() == old(s.Contents())
    ensures o == Flash("Profile updated") ==>
              var st := old(s.Contents());
              var me := st.users[actor.value];
              s.Contents() == st.(users := st.users[actor.value := me.(name := f.name, username := f.username,
                                                                      location := f.location, website := f.website,
                                                                      bio := f.bio)])
  {
    if !Authenticated(s.users, actor) {
      return LoginRequired;
    }
    var u := actor.value;
    var me := s.users[u];
    if !EditProfileValid(f, me.username, Usernames(s.users)) {
      return FormErrors;
    }
    UsernameRuleAsWritten(f.username, me.username, Usernames(s.users));
    s.SetUser(u, me.(name := f.name, username := f.username, location := f.location,
                     website := f.website, bio := f.bio));
    o := Flash("Profile updated");
  }

  /** `privacy_setting`: only the caller's `public_collections` changes. */
  method PrivacySetting(s: Store, actor: Actor, publicCollections: bool) returns (o: Outcome)
    requires s.Valid()
    modifies s
    ensures s.Valid()
    ensures !Authenticated(old(s.users), actor) ==> o == LoginRequired && s.Contents() == old(s.Contents())
    ensures Authenticated(old(s.users), actor) ==>
              && o == Flash("Privacy setting updated")
              && s.Contents() == old(s.Contents()).(users := old(s.users)[actor.value :=
                                   old(s.users[actor.value]).(publicCollections := publicCollections)])
  {
    if !Authenticated(s.users, actor) {
      return LoginRequired;
    }
    var u := actor.value;
    s.SetUser(u, s.users[u].(publicCollections := publicCollections));
    o := Flash("Privacy setting updated");
  }

  /** `delete_account`: when the declared DeleteAccountForm accepts the typed
      username, which is then the caller's own and at most 20 characters
      long, the caller's row goes with everything the caller owns; the caller
      then owns no photo, no comment and no edge. */
  method DeleteAccount(s: Store, actor: Actor, typed: string) returns (o: Outcome)
    requires s.Valid()
    modifies s
    ensures s.Valid()
    ensures var st := old(s.Contents());
            o == (if !Authenticated(st.users, actor) then LoginRequired
                  else if !DeleteAccountValidAsWritten(typed, st.users[actor.value].username) then FormErrors
                  else Flash("Your are kicked out, goodbye!"))
    ensures o != Flash("Your are kicked out, goodbye!") ==> s.Contents() == old(s.Contents())
    ensures o == Flash("Your are kicked out, goodbye!") ==>
              && typed == old(s.users[actor.value].username) && |typed| <= 20
              && s.Contents() == DropUser(old(s.Contents()), actor.value)
              && actor.value !in s.users
              && (forall q :: q in s.photos ==> s.photos[q].author != actor.value)
              && (forall c :: c in s.comments ==> s.comments[c].author != actor.value)
              && (forall e :: e in s.follows ==> e.0 != actor.value && e.1 != actor.value)
              && (forall e :: e in s.collects ==> e.0 != actor.value)
  {
    if !Authenticated(s.users, actor) {
      return LoginRequired;
    }
    var u := actor.value;
    if !DeleteAccountValidAsWritten(typed, s.users[u].username) {
      return FormErrors;
    }
    DeleteAccountRuleAsWritten(typed, s.users[u].username);
    s.RemoveUser(u);
    o := Flash("Your are kicked out, goodbye!");
  }
}
