# Friend-request engine of a Django REST social backend, in Dafny

This project models the core of a small social-network API: users register
with a unique username and email, send friend requests to each other by
username, accept or reject the requests they receive, list their pending
requests and their friends, and search users by email or username. Sending
is throttled per sender by a counter kept in a cache.

The model is functional. A store (`Views.State`) holds

- the user table, a sequence of `User(id, username, email)` rows whose id,
  username and email are each unique (`Users.WellFormed`);
- the friend-request table, a finite map from the ordered pair
  `(from_user, to_user)` to the `is_accepted` flag. `unique_together` allows
  one row per ordered pair, so the map has exactly the table's content;
- the rate-limit cache, a map from sender id to `Counter(count, expiry)`;
- the clock, in whole seconds, and the next free user id.

Every operation is a pure function of the store and its input. The
endpoints that change the store (send, respond, register) give a `Views.Step`:
an outcome (`Created`, `NotFoundUser`, `NotFoundRequest`, `RateLimited`,
`Duplicate`, `Accepted`, `Rejected`, `BadInput`) and the next store. The list
endpoints (friends, pending, search) give the list they answer with, and
deleting a user gives the next store. The authenticated
caller is passed as a user id. `Invariants.Op`, `Apply` and `Run` replay any
sequence of requests, turning away those whose caller has no user row, as
the authentication check does.

Files, one module each:

| file | module | models |
|---|---|---|
| `strings.dfy` | `Strings` | username order (lexicographic, by character code) and substring matching |
| `optional.dfy` | `Optional` | a lookup that may find nothing |
| `users.dfy` | `Users` | `UserProfile`: the table, lookups, registration, ordering by username |
| `ratelimit.dfy` | `RateLimit` | the per-sender cache counter |
| `requests.dfy` | `FriendRequests` | `FriendRequest`: create, accept, reject, cascade |
| `views.dfy` | `Views` | the send, respond, friends, pending, search and registration endpoints, and the deletion of a user |
| `invariants.dfy` | `Invariants` | the store invariant and runs of requests |
| `scenarios.dfy` | `Scenarios` | properties spanning several calls |

Behaviour kept as the code has it:

- A request to oneself is accepted: the send view has no check for it
  (`Scenarios.SelfRequestAllowed`).
- Only the same direction is a duplicate: A→B and B→A can both exist
  (`Scenarios.ReverseDirectionAllowed`).
- The send view checks the target, then the rate limit, then for a
  duplicate. So an unknown target is reported as not found even for a sender
  over the limit, and a sender over the limit is reported as rate-limited even
  for a pair that already exists.
- Every successful send writes the counter with a fresh 60-second timeout.
  The window therefore restarts at each success: it is neither a fixed
  window nor a sliding one. A sender whose sends are less than 60 seconds
  apart keeps counting up however long ago the first one was
  (`Scenarios.SendRestartsWindow`).
- Rejecting deletes the row whether it was pending or already accepted.
- Both list endpoints are ordered by username. The pending list is ordered
  by `from_user`, and Django orders a foreign key by the related model's
  ordering, which is `username`. The order is modelled as a binary collation (character codes).
- `email__iexact` compares emails after case folding, while the unique
  constraint on `email` compares them exactly. So an email search can return
  two users whose emails differ only in case. The model states the search
  result exactly and claims "at most one" only for the exact lookup
  (`Users.AtMostOneWithEmail`).

Email validation (`validate_email`) and case folding are uninterpreted:
`Views.Search` takes them as function parameters. The pending and friends
lists are computed by filtering the user table for senders or friends.
Under the foreign-key part of `Invariants.Valid`, every request row's ends
are users, so this finds the same users as a scan of the request table.

## Model

| member | source | states |
|---|---|---|
| `Views.Send` | social_network/api/views.py:163-192 | The target is looked up first; an unknown username gives NotFoundUser, whatever the counter says. A live counter at 3 or more gives RateLimited, even for an existing pair. An existing (from, to) row, pending or accepted, gives Duplicate. Each failure leaves the store unchanged. A success adds exactly one pending (caller, target) entry and changes no other entry. It sets the caller's counter to old+1 with expiry now+60 and leaves every other sender's count as it was. |
| `Views.Respond` | social_network/api/views.py:253-293 | A body whose username is empty or holds a NUL character, or whose response is not "accept" or "reject", gives BadInput. An unknown sender gives NotFoundUser. A known sender with no (sender, caller) row gives NotFoundRequest. None of these changes the store. "accept" sets only that row's flag to true. "reject" deletes only that row, whatever its flag. The "Invalid response" outcome cannot occur. |
| `Views.Friends` | social_network/api/views.py:306-322 | A username is listed iff it belongs to a user with an accepted request to or from u. The list is in username order, and without repeats when the user table is well formed. |
| `Views.Pending` | social_network/api/views.py:217-243 | A username is listed iff it belongs to a user whose request to u is not accepted. The list is in username order, and without repeats when the user table is well formed. |
| `Views.Search` | social_network/api/views.py:116-140 | A query that is a valid email returns exactly the users whose folded email equals the folded query. Any other query returns exactly the users whose folded username contains the folded query. The result is in username order. |
| `Views.RegisterUser` | social_network/api/views.py:34-56 | The answer is BadInput, with the store unchanged, iff some field fails its own checks or the username or email is taken. Otherwise it is Created, and one user is appended with the next id and the submitted username and email. |
| `Views.DeleteUser` | social_network/api/models.py:48-59 | Deleting user id removes that user's row. It also removes exactly the requests where id is sender or recipient, keeps every other request's flag, and leaves the cache and clock alone. |
| `Users.FindByUsername` | social_network/api/views.py:166-171 | The lookup returns a row with that username, or nothing exactly when no row has it. |
| `Users.FindByUsernameExact` | social_network/api/views.py:168 | In a well-formed table, looking up a user's username returns that user. |
| `Users.FindByEmail` | social_network/api/views.py:77-82 | The login lookup returns a row with that email, or nothing exactly when no row has it. |
| `Users.FindByEmailExact` | social_network/api/models.py:10 | Emails are unique, so looking up a user's email returns that user. |
| `Users.AtMostOneWithEmail` | social_network/api/models.py:10 | At most one row of a well-formed table carries a given email. |
| `Users.Register` | social_network/api/serializers.py:5-23 | Registration is refused iff the username is blank, holds a NUL character, is longer than 150 or fails the character check; or the email is blank, holds a NUL character, is longer than 254 or fails the format check; or the password is blank, holds a NUL character or is longer than 128; or the username or email is taken. Each failing check is reported. Otherwise the new row is exactly (next id, submitted username, submitted email), appended to the table. |
| `Users.Names` | social_network/api/serializers.py:62-73 | Position i of the list holds row i's username. Rows sorted (strictly sorted) by username give an ascending (strictly ascending) list of names. |
| `Users.RegisterKeepsWellFormed` | social_network/api/models.py:10 | A registration that goes through keeps the username and email columns unique, given a next id no row holds. |
| `Users.SortByName` | social_network/api/models.py:40 | The result is a permutation of its input in ascending username order. It is strictly ascending when the rows come from a well-formed table. |
| `Users.InsertByName` | social_network/api/models.py:40 | Inserting one row into a list in username order keeps the list in order and adds exactly that row. |
| `Users.Where` | social_network/api/views.py:310-313 | A filtered queryset holds exactly the rows that satisfy the filter. Its unique columns stay unique. |
| `Strings.Contains` | social_network/api/views.py:126 | The substring test holds iff the query occurs at some position of the string. |
| `Strings.LexLeTransitive` | social_network/api/models.py:40 | The username order is transitive. |
| `Strings.LexLeTotal` | social_network/api/models.py:40 | Any two usernames are comparable. |
| `Strings.LexLeAntisymmetric` | social_network/api/models.py:40 | Two usernames that are each at most the other are equal, so the order is a total order. |
| `RateLimit.Set` | social_network/api/views.py:189 | Writing a counter stores the value with expiry now+60 and changes no other key. |
| `RateLimit.SetKeepsOtherCounts` | social_network/api/views.py:174 | One sender's write never changes the count another sender reads, at any time. |
| `RateLimit.SetThenCount` | social_network/api/views.py:175-189 | A value written is read back for the next 60 seconds and reads as 0 after that. |
| `FriendRequests.Create` | social_network/api/serializers.py:43-57 | Creating a request for an existing pair is refused. For a fresh pair it adds exactly one entry, pending, and keeps every other entry. |
| `FriendRequests.Accept` | social_network/api/models.py:75-78 | Accepting keeps the row, sets its flag to true and touches no other row. |
| `FriendRequests.AcceptIdempotent` | social_network/api/models.py:75-78 | Accepting twice gives the same table as accepting once. |
| `FriendRequests.Reject` | social_network/api/models.py:80-82 | Rejecting removes exactly that row and keeps every other row's flag. |
| `FriendRequests.RejectThenCreate` | social_network/api/models.py:80-82 | After a rejection the same pair can be created again, and the new row is pending. |
| `FriendRequests.Cascade` | social_network/api/models.py:48-59 | Exactly the rows naming the deleted user as sender or recipient disappear. |
| `Invariants.SendPreservesValid` | social_network/api/views.py:181-189 | A send by an existing user keeps the store invariant: references stay valid and no counter exceeds 3. |
| `Invariants.RespondPreservesValid` | social_network/api/views.py:283-290 | Accepting or rejecting keeps the store invariant. |
| `Invariants.RegisterPreservesValid` | social_network/api/serializers.py:11-23 | Registration keeps the user table's unique columns unique. |
| `Invariants.DeletePreservesValid` | social_network/api/models.py:48-59 | After a user is deleted with its cascade, every remaining request still names two existing users. |
| `Invariants.RunPreservesValid` | social_network/api/models.py:42-66 | Any sequence of requests applied to a valid store reaches a valid store. |
| `Invariants.EveryReachableStoreIsValid` | social_network/api/models.py:42-66 | Every store reachable from the empty store by any sequence of requests satisfies the invariant. |
| `Invariants.ApplyCounts` | social_network/api/views.py:173-189 | A request raises a sender's counter by one iff it is a successful send by that sender, and that needs the counter below 3. Sends by others, responses, registrations, deletions and ticks that do not expire the counter leave it alone, so counters are per sender. |
| `Invariants.RunCounts` | social_network/api/views.py:173-189 | Over a run in which the sender's counter does not expire, the counter grows by exactly the sender's number of successful sends and never passes 3. |
| `Invariants.AtMostLimitPerWindow` | social_network/api/views.py:173-178 | While a sender's counter stays live, at most 3 minus its current count of that sender's requests get through, whatever else happens in between. |
| `Invariants.NoTicksKeepCounter` | social_network/api/views.py:175 | With the clock standing still no counter expires, so the bound holds over every run without ticks. |
| `Scenarios.SendTwice` | social_network/api/views.py:174-183 | Repeating a successful send is refused and changes nothing. The refusal is Duplicate while the counter has room and RateLimited once it is full. |
| `Scenarios.SelfRequestAllowed` | social_network/api/views.py:163-192 | A user below the limit can send a request to themself, and it is stored as pending. |
| `Scenarios.ReverseDirectionAllowed` | social_network/api/views.py:181 | With A→B stored, B's send to A is created, and both rows then exist. |
| `Scenarios.SentRequestIsPending` | social_network/api/views.py:225 | After A's send to B succeeds, A's username is in B's pending list. |
| `Scenarios.AcceptedNeverPending` | social_network/api/views.py:225 | A sender whose request is accepted is not in the recipient's pending list. |
| `Scenarios.FriendsSymmetric` | social_network/api/views.py:310-313 | a is listed among b's friends iff b is listed among a's. |
| `Scenarios.RespondReachesRow` | social_network/api/views.py:270-290 | For an existing request, "accept" sets exactly that row's flag and "reject" deletes exactly that row. |
| `Scenarios.AcceptMakesFriends` | social_network/api/views.py:283-286 | After B accepts A's request, each is in the other's friend list and A leaves B's pending list. Accepting again changes nothing. |
| `Scenarios.RejectAllowsResend` | social_network/api/views.py:287-290 | After B rejects A's request, pending or accepted, the row is gone and A leaves B's pending list. A second reject finds nothing. A may send again if A's counter has room. |
| `Scenarios.SendRestartsWindow` | social_network/api/views.py:189 | After a successful send, the caller's count reads old+1 for the next 60 seconds and 0 from then on, however old the earlier sends were. |
| `Scenarios.ExpiredCounterAllowsSend` | social_network/api/views.py:175-178 | With an expired or absent counter, a send to an existing user with no prior row is created. |
| `Scenarios.EmptySearchListsEveryone` | social_network/api/views.py:121-126 | The empty query, not being an email, returns every user. |
| `Scenarios.DeleteLeavesNoRequests` | social_network/api/models.py:48-59 | After deleting a user, no request names them, and their friend and pending lists are empty. |
| `Scenarios.PendingListsEverySender` | social_network/api/views.py:225 | In a valid store, the sender of every pending request to u is listed in u's pending list. Listing by user rows therefore loses no request row. |
| `Scenarios.FriendsListsEveryAcceptedRequest` | social_network/api/views.py:310-313 | In a valid store, each end of every accepted request is listed in the other end's friend list. |
| `Scenarios.EmailSearchMayFindTwo` | social_network/api/views.py:123-124 | Two users whose stored emails differ but fold alike are both returned by an email query that folds to the same value. So the email search can return more than one user, even though emails are unique as written. |

## Left out

- HTTP and framework plumbing: status codes, response bodies, routing in social_network/api/urls.py.
- Login and token issuance (views.py:61-94). Only the email lookup is modelled (`Users.FindByEmail`). Password hashing and checking belong to the hasher.
- Pagination of the search results (views.py:97-100).
- Concurrency. Requests run one at a time. The check-then-insert race between views.py:181 and :186 and the non-atomic counter read-modify-write at :175/:189 are not modelled. The database's pair uniqueness appears as the shape of the request map.
- The catch-all exception handlers (views.py:226-227, 324-326). The modelled queries cannot fail.
- Email-format validation and case folding are not implemented. They are parameters of `Views.Search`.
- `Users.Register`, `Views.RegisterUser`: the username character check and the email format check are parameters (`Users.FieldChecks`), not implemented. The trimming of surrounding whitespace that the serializer's character fields do is not modelled. The password is only validated; its hash is not stored in the model.
- `Views.Respond`: CharField's trimming of surrounding whitespace from the username is not modelled. An empty username and one holding a NUL character are refused as written.
- The friend-request row's auto-increment id: no modelled output shows it.
- There is no endpoint that deletes users. `Views.DeleteUser` models only the database cascade that such a deletion triggers.
- The project's cache settings are outside the model. The model uses the local-memory backend's expiry rule: an entry counts as expired once the clock reaches its expiry. Time is in whole seconds.
- `Invariants.AtMostLimitPerWindow` and `Invariants.RunCounts`: eviction of a live entry before its expiry is not modelled, and both bounds assume none happens. The local-memory backend culls entries once it holds `MAX_ENTRIES` keys, and memcached or Redis evict under memory pressure. An evicted counter reads 0, so the sender gets three more sends before 60 seconds have passed.
- Collation: usernames are ordered by character code. A database with a locale collation may order them differently.
