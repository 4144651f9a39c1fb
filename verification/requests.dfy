/** The friend-request table (`FriendRequest`). `unique_together =
    ('from_user', 'to_user')` allows at most one row per ordered pair, so
    the table is a finite map from the ordered pair to the row's
    `is_accepted` flag: `false` is pending, `true` is accepted. */
module FriendRequests {
  import opened Users
  import opened Optional

  datatype Pair = Pair(from: UserId, to: UserId)

  type Requests = map<Pair, bool>

  /** `FriendRequestCreateSerializer.create`: a pair that already has a row
      is refused ("Friend request already sent."); otherwise exactly one row
      is added for it, pending, since `is_accepted` defaults to false. */
  function Create(reqs: Requests, from: UserId, to: UserId): (r: Option<Requests>)
    ensures r.None? <==> Pair(from, to) in reqs
    ensures r.Some? ==>
              && r.value.Keys == reqs.Keys + {Pair(from, to)}
              && |r.value| == |reqs| + 1
              && r.value[Pair(from, to)] == false
              && forall p | p in reqs :: r.value[p] == reqs[p]
  {
    var p := Pair(from, to);
    if p in reqs then None else Some(reqs[p := false])
  }

  /** `FriendRequest.accept`: the row stays and its flag becomes true. */
  function Accept(reqs: Requests, p: Pair): (r: Requests)
    requires p in reqs
    ensures r.Keys == reqs.Keys
    ensures r[p]
    ensures forall q | q in reqs && q != p :: r[q] == reqs[q]
  {
    reqs[p := true]
  }

  /** `FriendRequest.reject`: the row is deleted, whatever its flag was. */
  function Reject(reqs: Requests, p: Pair): (r: Requests)
    requires p in reqs
    ensures r.Keys == reqs.Keys - {p}
    ensures |r| == |reqs| - 1
    ensures forall q | q in r :: r[q] == reqs[q]
  {
    reqs - {p}
  }

  /** Accepting twice leaves the table as accepting once. */
  lemma AcceptIdempotent(reqs: Requests, p: Pair)
    requires p in reqs
    ensures Accept(Accept(reqs, p), p) == Accept(reqs, p)
  {
  }

  /** After a rejection the pair is free again, so a new row for it can be
      created, and that row is pending. */
  lemma RejectThenCreate(reqs: Requests, p: Pair)
    requires p in reqs
    ensures Create(Reject(reqs, p), p.from, p.to).Some?
    ensures Create(Reject(reqs, p), p.from, p.to).value == reqs[p := false]
  {
  }

  /** `on_delete=CASCADE` on both foreign keys: deleting user `u` deletes
      every row that has `u` as sender or as recipient, and only those. */
  function Cascade(reqs: Requests, u: UserId): (r: Requests)
    ensures forall p :: p in r <==> p in reqs && p.from != u && p.to != u
    ensures forall p | p in r :: r[p] == reqs[p]
  {
    map p | p in reqs && p.from != u && p.to != u :: reqs[p]
  }

  /** `v` and `u` are friends: an accepted row in either direction. */
  predicate IsFriend(reqs: Requests, u: UserId, v: UserId)
  {
    (Pair(v, u) in reqs && reqs[Pair(v, u)]) || (Pair(u, v) in reqs && reqs[Pair(u, v)])
  }

  /** `v` has sent `u` a request that is still pending. */
  predicate IsPendingFrom(reqs: Requests, v: UserId, u: UserId)
  {
    Pair(v, u) in reqs && !reqs[Pair(v, u)]
  }
}
