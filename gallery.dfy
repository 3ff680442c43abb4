/** Read-only selections over the photo and name tables: the neighbour
    navigation of app/blueprints/main.py:95-114, the `filter_by(name=...)`
    lookups, and the photo's ordered tag list. Tables are maps keyed by id;
    `bound` is an id above every key (the next autoincrement id). */
module Gallery {
  import opened Entities

  /** A photo of author `a` whose id lies in [lo, hi). */
  predicate Candidate(photos: map<PhotoId, Photo>, a: UserId, lo: nat, hi: nat, k: nat) {
    lo <= k < hi && k in photos && photos[k].author == a
  }

  /** `order_by(Photo.timestamp.desc()).first()` over the candidates: none
      when there is no candidate, otherwise a candidate whose timestamp no
      other candidate exceeds (which one among equal timestamps is open). */
  function Latest(photos: map<PhotoId, Photo>, a: UserId, lo: nat, hi: nat): (r: Option<PhotoId>)
    ensures r.None? <==> forall k :: !Candidate(photos, a, lo, hi, k)
    ensures r.Some? ==> Candidate(photos, a, lo, hi, r.value)
    ensures r.Some? ==> forall k :: Candidate(photos, a, lo, hi, k) ==>
                          photos[k].timestamp <= photos[r.value].timestamp
    decreases hi - lo
  {
    if hi <= lo then None
    else
      var next := lo + 1;
      var rest := Latest(photos, a, next, hi);
      assert forall k :: Candidate(photos, a, lo, hi, k) <==>
                           (k == lo && Candidate(photos, a, lo, hi, lo)) || Candidate(photos, a, next, hi, k);
      if Candidate(photos, a, lo, hi, lo) && (rest.None? || photos[rest.value].timestamp < photos[lo].timestamp)
      then Some(lo)
      else rest
  }

  /** `order_by(Photo.timestamp.asc()).first()` over the candidates. */
  function Earliest(photos: map<PhotoId, Photo>, a: UserId, lo: nat, hi: nat): (r: Option<PhotoId>)
    ensures r.None? <==> forall k :: !Candidate(photos, a, lo, hi, k)
    ensures r.Some? ==> Candidate(photos, a, lo, hi, r.value)
    ensures r.Some? ==> forall k :: Candidate(photos, a, lo, hi, k) ==>
                          photos[r.value].timestamp <= photos[k].timestamp
    decreases hi - lo
  {
    if hi <= lo then None
    else
      var next := lo + 1;
      var rest := Earliest(photos, a, next, hi);
      assert forall k :: Candidate(photos, a, lo, hi, k) <==>
                           (k == lo && Candidate(photos, a, lo, hi, lo)) || Candidate(photos, a, next, hi, k);
      if Candidate(photos, a, lo, hi, lo) && (rest.None? || photos[lo].timestamp < photos[rest.value].timestamp)
      then Some(lo)
      else rest
  }

  /** The lowest key in [lo, hi) whose row satisfies `p`: `filter_by(...).first()`. */
  function FirstKey<V>(m: map<nat, V>, p: V -> bool, lo: nat, hi: nat): (r: Option<nat>)
    ensures r.Some? ==> lo <= r.value < hi && r.value in m && p(m[r.value])
    ensures r.Some? ==> forall k :: lo <= k < r.value && k in m ==> !p(m[k])
    ensures r.None? <==> forall k :: lo <= k < hi && k in m ==> !p(m[k])
    decreases hi - lo
  {
    if hi <= lo then None
    else if lo in m && p(m[lo]) then Some(lo)
    else FirstKey(m, p, lo + 1, hi)
  }

  /** `User.query.filter_by(username=name).first()`. */
  function UserNamed(users: map<UserId, User>, name: string, bound: nat): Option<UserId> {
    FirstKey(users, (u: User) => u.username == name, 0, bound)
  }

  /** `Tag.query.filter_by(name=name).first()`. */
  function TagNamed(tags: map<TagId, Tag>, name: string, bound: nat): Option<TagId> {
    FirstKey(tags, (t: Tag) => t.name == name, 0, bound)
  }

  /** With every key below `bound`, the user lookup finds a user of that
      name exactly when there is one. */
  lemma UserNamedFinds(users: map<UserId, User>, name: string, bound: nat)
    requires forall k :: k in users ==> k < bound
    ensures UserNamed(users, name, bound).Some? <==> exists k :: k in users && users[k].username == name
    ensures UserNamed(users, name, bound).Some? ==>
              var k := UserNamed(users, name, bound).value; k in users && users[k].username == name
  {
    var p := (u: User) => u.username == name;
    var r := FirstKey(users, p, 0, bound);
    if exists k :: k in users && users[k].username == name {
      var k :| k in users && users[k].username == name;
      assert p(users[k]);
    }
  }

  /** With every key below `bound`, the tag lookup finds a tag of that name
      exactly when there is one. */
  lemma TagNamedFinds(tags: map<TagId, Tag>, name: string, bound: nat)
    requires forall k :: k in tags ==> k < bound
    ensures TagNamed(tags, name, bound).Some? <==> exists k :: k in tags && tags[k].name == name
    ensures TagNamed(tags, name, bound).Some? ==>
              var k := TagNamed(tags, name, bound).value; k in tags && tags[k].name == name
  {
    var p := (t: Tag) => t.name == name;
    if exists k :: k in tags && tags[k].name == name {
      var k :| k in tags && tags[k].name == name;
      assert p(tags[k]);
    }
  }

  predicate Distinct(xs: seq<TagId>) {
    forall i, j :: 0 <= i < j < |xs| ==> xs[i] != xs[j]
  }

  /** `tag.photos`: the photos whose tag list holds `t`. */
  function PhotosWithTag(photos: map<PhotoId, Photo>, t: TagId): set<PhotoId> {
    set k | k in photos && t in photos[k].tags
  }

  /** Python's `list.remove(x)`: drops the first occurrence of `x`. */
  function RemoveFirst(xs: seq<TagId>, x: TagId): (r: seq<TagId>)
    requires x in xs
    ensures |r| == |xs| - 1
    ensures multiset(r) == multiset(xs) - multiset{x}
  {
    if xs[0] == x then
      assert xs == [xs[0]] + xs[1..];
      xs[1..]
    else
      var rest := RemoveFirst(xs[1..], x);
      assert xs == [xs[0]] + xs[1..];
      [xs[0]] + rest
  }

  /** On a list without repeats, removing `x` leaves exactly the other
      entries, still without repeats. */
  lemma {:induction false} RemoveFirstDistinct(xs: seq<TagId>, x: TagId)
    requires x in xs && Distinct(xs)
    ensures Distinct(RemoveFirst(xs, x))
    ensures forall y :: y in RemoveFirst(xs, x) <==> y in xs && y != x
    decreases |xs|
  {
    var r := RemoveFirst(xs, x);
    if xs[0] == x {
      assert forall y :: y in xs[1..] ==> y != x by {
        forall j | 0 <= j < |xs[1..]| ensures xs[1..][j] != x {
          assert xs[1..][j] == xs[j + 1];
        }
      }
      assert forall i, j :: 0 <= i < j < |r| ==> r[i] == xs[i + 1] && r[j] == xs[j + 1];
    } else {
      var tail := xs[1..];
      assert Distinct(tail) by {
        assert forall i, j :: 0 <= i < j < |tail| ==> tail[i] == xs[i + 1] && tail[j] == xs[j + 1];
      }
      assert x in tail by { assert xs == [xs[0]] + tail; }
      RemoveFirstDistinct(tail, x);
      var rest := RemoveFirst(tail, x);
      assert xs[0] !in tail by {
        forall j | 0 <= j < |tail| ensures tail[j] != xs[0] {
          assert tail[j] == xs[j + 1];
        }
      }
      assert r == [xs[0]] + rest;
      forall i, j | 0 <= i < j < |r| ensures r[i] != r[j] {
        if i == 0 { assert r[j] == rest[j - 1]; }
        else { assert r[i] == rest[i - 1] && r[j] == rest[j - 1]; }
      }
      assert forall y :: y in xs <==> y == xs[0] || y in tail by { assert xs == [xs[0]] + tail; }
    }
  }
}
