/** Notification read-state over the store's notification list: the page's
    listing and unread filter, the unread count, and what marking one or all
    notifications read does to them. */
module Inbox {
  import opened Entities

  /** The unread notifications of `u`: what `filter_by(is_read=False)` keeps. */
  predicate UnreadFor(n: Notification, u: UserId) {
    n.receiver == u && !n.isRead
  }

  predicate Listed(n: Notification, u: UserId, unreadOnly: bool) {
    n.receiver == u && (!unreadOnly || !n.isRead)
  }

  /** `show_notifications`: the ids of `u`'s notifications, or of `u`'s
      unread ones, in list order. */
  function Listing(ns: seq<Notification>, u: UserId, unreadOnly: bool): (ids: seq<NotificationId>)
    ensures forall k :: 0 <= k < |ids| ==> ids[k] < |ns| && Listed(ns[ids[k]], u, unreadOnly)
    ensures forall i :: 0 <= i < |ns| && Listed(ns[i], u, unreadOnly) ==> i in ids
    ensures forall a, b :: 0 <= a < b < |ids| ==> ids[a] < ids[b]
    decreases |ns|
  {
    if ns == [] then []
    else
      var last := |ns| - 1;
      var front := Listing(ns[..last], u, unreadOnly);
      assert forall i :: 0 <= i < last ==> ns[..last][i] == ns[i];
      if Listed(ns[last], u, unreadOnly) then front + [last] else front
  }

  /** `notifications_count`: how many of `u`'s notifications are unread. */
  function UnreadCount(ns: seq<Notification>, u: UserId): nat
    decreases |ns|
  {
    if ns == [] then 0
    else UnreadCount(ns[..|ns| - 1], u) + (if UnreadFor(ns[|ns| - 1], u) then 1 else 0)
  }

  /** The count and the unread filter agree: the count is the length of the
      unread listing. */
  lemma {:induction false} CountIsUnreadListing(ns: seq<Notification>, u: UserId)
    ensures UnreadCount(ns, u) == |Listing(ns, u, true)|
    decreases |ns|
  {
    if ns != [] {
      CountIsUnreadListing(ns[..|ns| - 1], u);
    }
  }

  /** Counts agree on lists that agree, position by position, on which
      entries are unread for `u`. */
  lemma {:induction false} CountPointwise(a: seq<Notification>, b: seq<Notification>, u: UserId)
    requires |a| == |b|
    requires forall i :: 0 <= i < |a| ==> (UnreadFor(a[i], u) <==> UnreadFor(b[i], u))
    ensures UnreadCount(a, u) == UnreadCount(b, u)
    decreases |a|
  {
    if a != [] {
      var n := |a| - 1;
      assert forall i :: 0 <= i < n ==> a[..n][i] == a[i] && b[..n][i] == b[i];
      CountPointwise(a[..n], b[..n], u);
    }
  }

  lemma {:induction false} CountNone(a: seq<Notification>, u: UserId)
    requires forall i :: 0 <= i < |a| ==> !UnreadFor(a[i], u)
    ensures UnreadCount(a, u) == 0
    decreases |a|
  {
    if a != [] {
      var n := |a| - 1;
      assert forall i :: 0 <= i < n ==> a[..n][i] == a[i];
      CountNone(a[..n], u);
    }
  }

  /** Pushing one unread notification for `r` raises `r`'s unread count by
      exactly one and leaves everybody else's alone. */
  lemma PushCount(ns: seq<Notification>, r: UserId, u: UserId)
    ensures UnreadCount(ns + [Notification(r, false)], u) == UnreadCount(ns, u) + (if r == u then 1 else 0)
  {
    assert (ns + [Notification(r, false)])[..|ns|] == ns;
  }

  /** `notification.is_read = True`. */
  function MarkRead(ns: seq<Notification>, i: NotificationId): seq<Notification>
    requires i < |ns|
  {
    ns[i := ns[i].(isRead := true)]
  }

  /** Marking a notification read removes it from its receiver's unread
      count if it was unread, and changes nobody's count otherwise; marking
      it again changes nothing. */
  lemma {:induction false} MarkReadCount(ns: seq<Notification>, i: NotificationId, u: UserId)
    requires i < |ns|
    ensures UnreadCount(MarkRead(ns, i), u) == UnreadCount(ns, u) - (if UnreadFor(ns[i], u) then 1 else 0)
    ensures MarkRead(MarkRead(ns, i), i) == MarkRead(ns, i)
    decreases |ns|
  {
    var n := |ns| - 1;
    var m := MarkRead(ns, i);
    if i < n {
      assert m[..n] == MarkRead(ns[..n], i);
      MarkReadCount(ns[..n], i, u);
    } else {
      assert m[..n] == ns[..n];
    }
  }

  /** `read_all_notifications`: every notification of `u` read, the rest as they were. */
  function MarkAllRead(ns: seq<Notification>, u: UserId): seq<Notification> {
    seq(|ns|, i requires 0 <= i < |ns| => if ns[i].receiver == u then ns[i].(isRead := true) else ns[i])
  }

  /** After marking all read, `u` has no unread notification, everybody
      else's count is unchanged, and doing it again changes nothing. */
  lemma MarkAllReadCount(ns: seq<Notification>, u: UserId, v: UserId)
    ensures UnreadCount(MarkAllRead(ns, u), v) == (if v == u then 0 else UnreadCount(ns, v))
    ensures MarkAllRead(MarkAllRead(ns, u), u) == MarkAllRead(ns, u)
  {
    var m := MarkAllRead(ns, u);
    if v == u {
      CountNone(m, u);
    } else {
      CountPointwise(m, ns, v);
    }
  }
}
