/** Properties that relate several calls: what a user sees after sending,
    accepting or rejecting, how the lists read the request table, and how
    the rate-limit window behaves over time. */
module Scenarios {
  import opened Strings
  import opened Users
  import opened RateLimit
  import opened FriendRequests
  import opened Views
  import opened Invariants

  /** Two distinct rows of a well-formed table have distinct usernames. */
  lemma SameNameSameUser(st: State, v: User, w: User)
    requires Valid(st) && v in st.users && w in st.users && v.username == w.username
    ensures v == w
  {
    if v != w {
      WellFormedAt(st.users, v, w);
    }
  }

  /** Sending the same request again is refused: as a duplicate while the
      counter has room, as rate-limited once the first send filled it. */
  lemma SendTwice(st: State, caller: UserId, toName: string)
    requires Send(st, caller, toName).outcome == Created
    ensures var again := Send(Send(st, caller, toName).next, caller, toName);
            && again.outcome == (if Sent(st, caller) + 1 < Limit then Duplicate else RateLimited)
            && again.next == Send(st, caller, toName).next
  {
  }

  /** Nothing stops a user from sending a request to themself. */
  lemma SelfRequestAllowed(st: State, v: User)
    requires Valid(st) && v in st.users
    requires Sent(st, v.id) < Limit && Pair(v.id, v.id) !in st.requests
    ensures Send(st, v.id, v.username).outcome == Created
    ensures Send(st, v.id, v.username).next.requests == st.requests[Pair(v.id, v.id) := false]
  {
    FindByUsernameExact(st.users, v);
  }

  /** A request in one direction does not block one in the other: both
      rows then exist side by side. */
  lemma ReverseDirectionAllowed(st: State, a: User, b: User)
    requires Valid(st) && a in st.users && b in st.users
    requires Pair(a.id, b.id) in st.requests && Pair(b.id, a.id) !in st.requests
    requires Sent(st, b.id) < Limit
    ensures var s := Send(st, b.id, a.username);
            && s.outcome == Created
            && Pair(a.id, b.id) in s.next.requests
            && Pair(b.id, a.id) in s.next.requests
  {
    FindByUsernameExact(st.users, a);
  }

  /** After a send goes through, the sender is among the recipient's
      pending requests. */
  lemma SentRequestIsPending(st: State, a: User, b: User)
    requires Valid(st) && a in st.users && b in st.users
    requires Send(st, a.id, b.username).outcome == Created
    ensures a.username in Pending(Send(st, a.id, b.username).next, b.id)
  {
    FindByUsernameExact(st.users, b);
  }

  /** An accepted request never shows as pending: the pair has one row
      and a username names one user. */
  lemma AcceptedNeverPending(st: State, v: User, u: UserId)
    requires Valid(st) && v in st.users
    requires Pair(v.id, u) in st.requests && st.requests[Pair(v.id, u)]
    ensures v.username !in Pending(st, u)
  {
    if v.username in Pending(st, u) {
      var w :| w in st.users && w.username == v.username && IsPendingFrom(st.requests, w.id, u);
      SameNameSameUser(st, v, w);
    }
  }

  /** Friendship reads the same from both sides. */
  lemma FriendsSymmetric(st: State, a: User, b: User)
    requires Valid(st) && a in st.users && b in st.users
    ensures a.username in Friends(st, b.id) <==> b.username in Friends(st, a.id)
  {
    if a.username in Friends(st, b.id) {
      var w :| w in st.users && w.username == a.username && IsFriend(st.requests, b.id, w.id);
      SameNameSameUser(st, a, w);
      assert IsFriend(st.requests, a.id, b.id);
    }
    if b.username in Friends(st, a.id) {
      var w :| w in st.users && w.username == b.username && IsFriend(st.requests, a.id, w.id);
      SameNameSameUser(st, b, w);
      assert IsFriend(st.requests, b.id, a.id);
    }
  }

  /** The recipient's response to an existing request from `a` reaches
      exactly that row: accepting sets its flag, rejecting deletes it. */
  lemma RespondReachesRow(st: State, a: User, b: UserId, response: string)
    requires Valid(st) && a in st.users && Pair(a.id, b) in st.requests
    requires response == "accept" || response == "reject"
    ensures var s := Respond(st, b, a.username, response);
            && s.outcome == (if response == "accept" then Accepted else Rejected)
            && s.next == st.(requests := if response == "accept" then st.requests[Pair(a.id, b) := true]
                                         else st.requests - {Pair(a.id, b)})
  {
    FindByUsernameExact(st.users, a);
  }

  /** The recipient accepting a request from `a` to `b`: each then appears
      in the other's friend list, and the request leaves `b`'s pending
      list. Accepting again changes nothing. */
  lemma AcceptMakesFriends(st: State, a: User, b: User)
    requires Valid(st) && a in st.users && b in st.users
    requires Pair(a.id, b.id) in st.requests
    ensures var s := Respond(st, b.id, a.username, "accept");
            && s.outcome == Accepted
            && a.username in Friends(s.next, b.id)
            && b.username in Friends(s.next, a.id)
            && a.username !in Pending(s.next, b.id)
            && Respond(s.next, b.id, a.username, "accept") == Step(Accepted, s.next)
  {
    RespondReachesRow(st, a, b.id, "accept");
    var next := Respond(st, b.id, a.username, "accept").next;
    RespondPreservesValid(st, b.id, a.username, "accept");
    assert IsFriend(next.requests, b.id, a.id);
    assert IsFriend(next.requests, a.id, b.id);
    AcceptedNeverPending(next, a, b.id);
    RespondReachesRow(next, a, b.id, "accept");
  }

  /** The recipient rejecting a request, pending or accepted: the row is
      gone, `a` is no longer among `b`'s pending senders, a second
      rejection finds nothing, and `a` may send the request again once the
      counter has room. */
  lemma RejectAllowsResend(st: State, a: User, b: User)
    requires Valid(st) && a in st.users && b in st.users
    requires Pair(a.id, b.id) in st.requests
    ensures var s := Respond(st, b.id, a.username, "reject");
            && s.outcome == Rejected
            && Pair(a.id, b.id) !in s.next.requests
            && a.username !in Pending(s.next, b.id)
            && Respond(s.next, b.id, a.username, "reject").outcome == NotFoundRequest
            && (Sent(st, a.id) < Limit ==> Send(s.next, a.id, b.username).outcome == Created)
  {
    RespondReachesRow(st, a, b.id, "reject");
    var next := Respond(st, b.id, a.username, "reject").next;
    RespondPreservesValid(st, b.id, a.username, "reject");
    if a.username in Pending(next, b.id) {
      var w :| w in next.users && w.username == a.username && IsPendingFrom(next.requests, w.id, b.id);
      SameNameSameUser(next, a, w);
    }
    FindByUsernameExact(next.users, a);
    FindByUsernameExact(next.users, b);
  }

  /** Each request that goes through restarts the sender's window: the
      counter stays at its new value for the next `Window` seconds however
      old the earlier sends are, and reads 0 from then on. */
  lemma SendRestartsWindow(st: State, caller: UserId, toName: string, dt: nat)
    requires Send(st, caller, toName).outcome == Created
    ensures Sent(Tick(Send(st, caller, toName).next, dt), caller)
            == if dt < Window then Sent(st, caller) + 1 else 0
  {
    SetThenCount(st.cache, caller, Sent(st, caller) + 1, st.now, st.now + dt);
  }

  /** Once the sender's counter has expired, or was never written, the
      rate limit lets a request through. */
  lemma ExpiredCounterAllowsSend(st: State, caller: UserId, v: User)
    requires Valid(st) && v in st.users
    requires caller !in st.cache || !Live(st.cache[caller], st.now)
    requires Pair(caller, v.id) !in st.requests
    ensures Send(st, caller, v.username).outcome == Created
  {
    FindByUsernameExact(st.users, v);
  }

  /** Searching with the empty query (which is not an email) matches every
      user, since the empty string occurs in every folded username. */
  lemma EmptySearchListsEveryone(users: seq<User>, isValidEmail: string -> bool, fold: string -> string)
    requires !isValidEmail("") && fold("") == ""
    ensures forall v | v in users :: v in Search(users, "", isValidEmail, fold)
  {
    forall v | v in users
      ensures v in Search(users, "", isValidEmail, fold)
    {
      EmptyQueryOccursEverywhere(fold(v.username));
    }
  }

  /** Deleting a user leaves no request that names them. */
  lemma DeleteLeavesNoRequests(st: State, id: UserId)
    ensures var next := DeleteUser(st, id);
            && !HasId(next.users, id)
            && (forall p | p in next.requests :: p.from != id && p.to != id)
            && (forall x :: x !in Friends(next, id) && x !in Pending(next, id))
  {
    var next := DeleteUser(st, id);
    forall x
      ensures x !in Friends(next, id) && x !in Pending(next, id)
    {
      forall v | v in next.users
        ensures !IsFriend(next.requests, id, v.id) && !IsPendingFrom(next.requests, v.id, id)
      {
        assert Pair(v.id, id) !in next.requests && Pair(id, v.id) !in next.requests;
      }
    }
  }

  /** Listing by user rows loses no request: with both ends of every
      request being users, the sender of each pending request to `u` is in
      `u`'s pending list. */
  lemma PendingListsEverySender(st: State, p: Pair)
    requires Valid(st) && p in st.requests && !st.requests[p]
    ensures exists v | v in st.users :: v.id == p.from && v.username in Pending(st, p.to)
  {
    var v :| v in st.users && v.id == p.from;
    assert IsPendingFrom(st.requests, v.id, p.to);
    assert v.username in Pending(st, p.to);
  }

  /** Likewise each accepted request puts each end in the other's list. */
  lemma FriendsListsEveryAcceptedRequest(st: State, p: Pair)
    requires Valid(st) && p in st.requests && st.requests[p]
    ensures exists v | v in st.users :: v.id == p.from && v.username in Friends(st, p.to)
    ensures exists w | w in st.users :: w.id == p.to && w.username in Friends(st, p.from)
  {
    var v :| v in st.users && v.id == p.from;
    var w :| w in st.users && w.id == p.to;
    assert IsFriend(st.requests, p.to, v.id);
    assert IsFriend(st.requests, p.from, w.id);
    assert v.username in Friends(st, p.to);
    assert w.username in Friends(st, p.from);
  }

  /** Emails are unique only as written, while the email search compares
      them after case folding: two users whose emails fold alike are both
      found, so the email search can return more than one user. */
  lemma EmailSearchMayFindTwo(users: seq<User>, query: string, isValidEmail: string -> bool,
                              fold: string -> string, v: User, w: User)
    requires v in users && w in users && v.email != w.email
    requires isValidEmail(query) && fold(v.email) == fold(query) && fold(w.email) == fold(query)
    ensures var r := Search(users, query, isValidEmail, fold);
            v in r && w in r && |r| >= 2
  {
    var r := Search(users, query, isValidEmail, fold);
    assert v in r && w in r;
    var i :| 0 <= i < |r| && r[i] == v;
    var j :| 0 <= j < |r| && r[j] == w;
    assert i != j;
  }
}
