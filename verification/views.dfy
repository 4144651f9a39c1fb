/** The friend-request endpoints over one store. A store holds the user
    table, the request table, the rate-limit cache and the clock. The
    endpoints that write (send, respond, register) map a store and their
    input to an outcome and the next store; the list endpoints (friends,
    pending, search) give the list they answer with; deleting a user and
    the passing of time give the next store. The authenticated caller
    (`request.user`) is passed as an id. */
module Views {
  import opened Strings
  import opened Optional
  import opened Users
  import opened RateLimit
  import opened FriendRequests

  datatype State = State(
    users: seq<User>,
    requests: Requests,
    cache: Cache,
    now: nat,
    nextUserId: UserId)

  /** What an endpoint reports; the HTTP status each maps to is left to the
      framework. */
  datatype Outcome =
    | Created           // 201, request sent
    | NotFoundUser      // 404, no user with that username
    | NotFoundRequest   // 404, no request from that user to the caller
    | RateLimited       // 429
    | Duplicate         // 400, "Friend request already sent."
    | Accepted          // 200
    | Rejected          // 200
    | BadInput          // 400, the request body failed validation

  datatype Step = Step(outcome: Outcome, next: State)

  /** The user a username resolves to, when there is one. */
  function Lookup(st: State, name: string): Option<User>
  {
    FindByUsername(st.users, name)
  }

  /** The caller's live counter as the send endpoint reads it. */
  function Sent(st: State, caller: UserId): nat
  {
    Count(st.cache, caller, st.now)
  }

  /** `SendFriendRequestView.perform_create`. The checks run in a fixed
      order: the target lookup, then the rate limit, then the duplicate
      check; only a request that passes all three is stored, and only then
      is the counter written. Nothing rejects a request to oneself, and only
      the same direction counts as a duplicate. */
  function Send(st: State, caller: UserId, toName: string): (s: Step)
    ensures s.outcome in {Created, NotFoundUser, RateLimited, Duplicate}
    ensures s.outcome == NotFoundUser <==> !HasUsername(st.users, toName)
    ensures s.outcome == RateLimited <==> HasUsername(st.users, toName) && Sent(st, caller) >= Limit
    ensures s.outcome == Duplicate <==>
              && HasUsername(st.users, toName)
              && Sent(st, caller) < Limit
              && Pair(caller, Lookup(st, toName).value.id) in st.requests
    ensures s.outcome != Created ==> s.next == st
    ensures s.outcome == Created ==>
              exists v | v in st.users ::
                && v.username == toName
                && Pair(caller, v.id) !in st.requests
                && s.next == st.(requests := st.requests[Pair(caller, v.id) := false],
                                 cache := Set(st.cache, caller, Sent(st, caller) + 1, st.now))
    ensures forall k | k != caller :: Sent(s.next, k) == Sent(st, k)
  {
    match Lookup(st, toName)
    case None => Step(NotFoundUser, st)
    case Some(target) =>
      var count := Sent(st, caller);
      if count >= Limit then Step(RateLimited, st)
      else if Pair(caller, target.id) in st.requests then Step(Duplicate, st)
      else
        match Create(st.requests, caller, target.id)
        case None => Step(Duplicate, st)
        case Some(reqs) =>
          Step(Created, st.(requests := reqs, cache := Set(st.cache, caller, count + 1, st.now)))
  }

  /** The two choices `FriendRequestResponseSerializer` admits. */
  datatype Action = AcceptIt | RejectIt

  /** `FriendRequestResponseSerializer.is_valid`: `username` must be a
      non-empty string without NUL characters and `response` one of the two
      choices; anything else fails validation before any lookup. */
  function Validate(username: string, response: string): Option<Action>
  {
    if |username| == 0 || '\0' in username then None
    else if response == "accept" then Some(AcceptIt)
    else if response == "reject" then Some(RejectIt)
    else None
  }

  /** `RespondFriendRequestView.post`, called by the recipient. The sender
      is looked up first, then the request from that sender to the caller;
      accepting sets the flag, rejecting deletes the row whatever its flag.
      Validation leaves no third action, so the "Invalid response" branch of
      the view is never taken. */
  function Respond(st: State, caller: UserId, fromName: string, response: string): (s: Step)
    ensures s.outcome in {BadInput, NotFoundUser, NotFoundRequest, Accepted, Rejected}
    ensures s.outcome == BadInput <==>
              fromName == "" || '\0' in fromName || (response != "accept" && response != "reject")
    ensures s.outcome == NotFoundUser <==>
              && fromName != "" && '\0' !in fromName && (response == "accept" || response == "reject")
              && !HasUsername(st.users, fromName)
    ensures s.outcome == NotFoundRequest <==>
              && fromName != "" && '\0' !in fromName && (response == "accept" || response == "reject")
              && HasUsername(st.users, fromName)
              && Pair(Lookup(st, fromName).value.id, caller) !in st.requests
    ensures s.outcome !in {Accepted, Rejected} ==> s.next == st
    ensures s.outcome == Accepted ==>
              exists v | v in st.users ::
                && v.username == fromName
                && Pair(v.id, caller) in st.requests
                && response == "accept"
                && s.next == st.(requests := st.requests[Pair(v.id, caller) := true])
    ensures s.outcome == Rejected ==>
              exists v | v in st.users ::
                && v.username == fromName
                && Pair(v.id, caller) in st.requests
                && response == "reject"
                && s.next == st.(requests := st.requests - {Pair(v.id, caller)})
  {
    match Validate(fromName, response)
    case None => Step(BadInput, st)
    case Some(action) =>
      match Lookup(st, fromName)
      case None => Step(NotFoundUser, st)
      case Some(sender) =>
        var p := Pair(sender.id, caller);
        if p !in st.requests then Step(NotFoundRequest, st)
        else
          match action
          case AcceptIt => Step(Accepted, st.(requests := Accept(st.requests, p)))
          case RejectIt => Step(Rejected, st.(requests := Reject(st.requests, p)))
  }

  /** `FriendsListView.get`: the users with an accepted request to or from
      `u`, each once (`distinct()`), in username order, shown by username. */
  function Friends(st: State, u: UserId): (r: seq<string>)
    ensures forall x :: x in r <==> exists v | v in st.users :: v.username == x && IsFriend(st.requests, u, v.id)
    ensures Ascending(r)
    ensures WellFormed(st.users) ==> StrictlyAscending(r)
  {
    var friends := Where(st.users, (v: User) => IsFriend(st.requests, u, v.id));
    var sorted := SortByName(friends);
    SortKeepsRows(friends);
    NamesMembership(sorted);
    Names(sorted)
  }

  /** `PendingFriendRequestsView.get_queryset` and `list`: the senders of
      the requests to `u` that are not accepted, ordered by sender (the
      user model's ordering, by username), shown by username. */
  function Pending(st: State, u: UserId): (r: seq<string>)
    ensures forall x :: x in r <==> exists v | v in st.users :: v.username == x && IsPendingFrom(st.requests, v.id, u)
    ensures Ascending(r)
    ensures WellFormed(st.users) ==> StrictlyAscending(r)
  {
    var senders := Where(st.users, (v: User) => IsPendingFrom(st.requests, v.id, u));
    var sorted := SortByName(senders);
    SortKeepsRows(senders);
    NamesMembership(sorted);
    Names(sorted)
  }

  /** `UserSearchView.get_queryset`. A query that passes email validation
      matches emails exactly up to case (`email__iexact`); any other query,
      the empty one included, matches usernames that contain it up to case
      (`username__icontains`). Email validation and case folding are
      parameters. The result is in username order. */
  function Search(users: seq<User>, query: string, isValidEmail: string -> bool, fold: string -> string): (r: seq<User>)
    ensures isValidEmail(query) ==> forall v :: v in r <==> v in users && fold(v.email) == fold(query)
    ensures !isValidEmail(query) ==> forall v :: v in r <==> v in users && IsSubstring(fold(query), fold(v.username))
    ensures |r| <= |users|
    ensures SortedByName(r)
    ensures WellFormed(users) ==> StrictlySortedByName(r)
  {
    var q := fold(query);
    var found :=
      if isValidEmail(query) then Where(users, (v: User) => fold(v.email) == q)
      else Where(users, (v: User) => Contains(fold(v.username), q));
    SortKeepsRows(found);
    SortByName(found)
  }

  /** `UserProfileRegistrationView.create`: a body that fails validation is
      answered 400 and changes nothing; otherwise the new user takes the
      next id and the answer is 201. */
  function RegisterUser(st: State, body: Signup, checks: FieldChecks): (s: Step)
    ensures s.outcome in {Created, BadInput}
    ensures s.outcome == BadInput <==>
              || !UsernameAcceptable(checks, body.username)
              || !EmailAcceptable(checks, body.email)
              || !PasswordAcceptable(body.password)
              || HasUsername(st.users, body.username)
              || HasEmail(st.users, body.email)
    ensures s.outcome == BadInput ==> s.next == st
    ensures s.outcome == Created ==>
              s.next == st.(users := st.users + [User(st.nextUserId, body.username, body.email)],
                            nextUserId := st.nextUserId + 1)
  {
    match Register(st.users, st.nextUserId, body, checks)
    case Refused(_, _, _, _, _) => Step(BadInput, st)
    case Registered(t, _) => Step(Created, st.(users := t, nextUserId := st.nextUserId + 1))
  }

  /** Deleting a user row, with the cascade it triggers on the request
      table. The cache is not touched. */
  function DeleteUser(st: State, id: UserId): (r: State)
    ensures forall v :: v in r.users <==> v in st.users && v.id != id
    ensures forall p :: p in r.requests <==> p in st.requests && p.from != id && p.to != id
    ensures forall p | p in r.requests :: r.requests[p] == st.requests[p]
    ensures r.cache == st.cache && r.now == st.now && r.nextUserId == st.nextUserId
  {
    st.(users := Where(st.users, (v: User) => v.id != id), requests := Cascade(st.requests, id))
  }

  /** The clock moves forward. */
  function Tick(st: State, dt: nat): State
  {
    st.(now := st.now + dt)
  }
}
