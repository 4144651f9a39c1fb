/** The store invariant every endpoint preserves, and what it gives over a
    whole run of operations: in particular that no sender gets more than
    `Limit` requests through while the clock stands still. */
module Invariants {
  import opened Users
  import opened RateLimit
  import opened FriendRequests
  import opened Views

  /** The database's constraints on the store:
      - the user table's unique columns, and ids below the next id;
      - no blank username and none with a NUL character (the field's own
        checks refuse both);
      - both ends of every request are users (the foreign keys);
      - no counter holds more than `Limit`.
      At most one request per ordered pair holds by the shape of the map. */
  predicate Valid(st: State)
  {
    && WellFormed(st.users)
    && (forall v | v in st.users :: v.id < st.nextUserId)
    && (forall v | v in st.users :: v.username != "" && '\0' !in v.username)
    && (forall p | p in st.requests :: HasId(st.users, p.from) && HasId(st.users, p.to))
    && (forall k | k in st.cache :: st.cache[k].count <= Limit)
  }

  /** The empty store a fresh deployment starts from. */
  function Empty(now: nat): (st: State)
    ensures Valid(st)
    ensures |st.users| == 0 && |st.requests| == 0
  {
    State([], map[], map[], now, 0)
  }

  lemma SendPreservesValid(st: State, caller: UserId, toName: string)
    requires Valid(st) && HasId(st.users, caller)
    ensures Valid(Send(st, caller, toName).next)
  {
  }

  lemma RespondPreservesValid(st: State, caller: UserId, fromName: string, response: string)
    requires Valid(st)
    ensures Valid(Respond(st, caller, fromName, response).next)
  {
  }

  lemma RegisterPreservesValid(st: State, body: Signup, checks: FieldChecks)
    requires Valid(st)
    ensures Valid(RegisterUser(st, body, checks).next)
  {
    var r := Register(st.users, st.nextUserId, body, checks);
    if r.Registered? {
      assert !HasId(st.users, st.nextUserId);
      RegisterKeepsWellFormed(st.users, st.nextUserId, body, checks);
      var next := RegisterUser(st, body, checks).next;
      forall p | p in next.requests
        ensures HasId(next.users, p.from) && HasId(next.users, p.to)
      {
        assert forall v | v in st.users :: v in next.users;
      }
    }
  }

  lemma DeletePreservesValid(st: State, id: UserId)
    requires Valid(st)
    ensures Valid(DeleteUser(st, id))
  {
    var next := DeleteUser(st, id);
    forall p | p in next.requests
      ensures HasId(next.users, p.from) && HasId(next.users, p.to)
    {
      var a :| a in st.users && a.id == p.from;
      var b :| b in st.users && b.id == p.to;
      assert a in next.users && b in next.users;
    }
  }

  /** One request reaching the store. The friend-request endpoints require
      an authenticated caller: a caller id with no user row is turned away
      and the store stays as it was. Registration is open to anyone. */
  datatype Op =
    | SendOp(caller: UserId, target: string)
    | RespondOp(caller: UserId, sender: string, response: string)
    | RegisterOp(body: Signup, checks: FieldChecks)
    | DeleteOp(id: UserId)
    | TickOp(dt: nat)

  function Apply(st: State, op: Op): State
  {
    match op
    case SendOp(c, t) => if HasId(st.users, c) then Send(st, c, t).next else st
    case RespondOp(c, f, r) => if HasId(st.users, c) then Respond(st, c, f, r).next else st
    case RegisterOp(b, k) => RegisterUser(st, b, k).next
    case DeleteOp(id) => DeleteUser(st, id)
    case TickOp(dt) => Tick(st, dt)
  }

  function Run(st: State, ops: seq<Op>): State
    decreases |ops|
  {
    if |ops| == 0 then st else Run(Apply(st, ops[0]), ops[1..])
  }

  lemma ApplyPreservesValid(st: State, op: Op)
    requires Valid(st)
    ensures Valid(Apply(st, op))
  {
    match op
    case SendOp(c, t) =>
      if HasId(st.users, c) {
        SendPreservesValid(st, c, t);
      }
    case RespondOp(c, f, r) =>
      RespondPreservesValid(st, c, f, r);
    case RegisterOp(b, k) =>
      RegisterPreservesValid(st, b, k);
    case DeleteOp(id) =>
      DeletePreservesValid(st, id);
    case TickOp(dt) =>
  }

  /** Every store a run reaches from a valid one satisfies the invariant. */
  lemma {:induction false} RunPreservesValid(st: State, ops: seq<Op>)
    requires Valid(st)
    ensures Valid(Run(st, ops))
    decreases |ops|
  {
    if |ops| > 0 {
      ApplyPreservesValid(st, ops[0]);
      RunPreservesValid(Apply(st, ops[0]), ops[1..]);
    }
  }

  /** Every store reachable from a fresh deployment satisfies the
      invariant. */
  lemma EveryReachableStoreIsValid(now: nat, ops: seq<Op>)
    ensures Valid(Run(Empty(now), ops))
  {
    RunPreservesValid(Empty(now), ops);
  }

  /** `op` is a send by `c` that the store accepts. */
  predicate CreatedBy(st: State, op: Op, c: UserId)
  {
    && op.SendOp?
    && op.caller == c
    && HasId(st.users, c)
    && Send(st, c, op.target).outcome == Created
  }

  /** The number of requests `c` gets through over a run. */
  function SentBy(st: State, ops: seq<Op>, c: UserId): nat
    decreases |ops|
  {
    if |ops| == 0 then 0
    else (if CreatedBy(st, ops[0], c) then 1 else 0) + SentBy(Apply(st, ops[0]), ops[1..], c)
  }

  /** No step of the run lets `c`'s counter expire: every tick leaves the
      count `c` reads as it was. A run of this kind lies within one live
      window of `c`'s counter. */
  predicate CounterSurvives(st: State, ops: seq<Op>, c: UserId)
    decreases |ops|
  {
    |ops| == 0 ||
    (&& (ops[0].TickOp? ==> Sent(Apply(st, ops[0]), c) == Sent(st, c))
     && CounterSurvives(Apply(st, ops[0]), ops[1..], c))
  }

  /** An operation raises `c`'s counter by one exactly when it is a send by
      `c` that goes through, which needs the counter below `Limit`; a send
      by anyone else, a response, a registration or a deletion leaves it
      alone, and so does a tick that does not make it expire. */
  lemma ApplyCounts(st: State, op: Op, c: UserId)
    requires op.TickOp? ==> Sent(Apply(st, op), c) == Sent(st, c)
    ensures CreatedBy(st, op, c) ==> Sent(st, c) < Limit
    ensures Sent(Apply(st, op), c) == Sent(st, c) + if CreatedBy(st, op, c) then 1 else 0
  {
    match op
    case SendOp(d, t) =>
      if HasId(st.users, d) && Send(st, d, t).outcome == Created && d != c {
        SetKeepsOtherCounts(st.cache, d, Sent(st, d) + 1, st.now, c, st.now);
      }
    case RespondOp(_, _, _) =>
    case RegisterOp(_, _) =>
    case DeleteOp(_) =>
    case TickOp(_) =>
  }

  /** While `c`'s counter does not expire, it grows by one per request of
      `c` that gets through and never past `Limit`. */
  lemma {:induction false} RunCounts(st: State, ops: seq<Op>, c: UserId)
    requires CounterSurvives(st, ops, c)
    ensures Sent(Run(st, ops), c) == Sent(st, c) + SentBy(st, ops, c)
    ensures Sent(st, c) <= Limit ==> Sent(Run(st, ops), c) <= Limit
    ensures Sent(st, c) >= Limit ==> SentBy(st, ops, c) == 0
    decreases |ops|
  {
    if |ops| > 0 {
      ApplyCounts(st, ops[0], c);
      RunCounts(Apply(st, ops[0]), ops[1..], c);
    }
  }

  /** At most `Limit` requests from one sender get through while its
      counter stays live, fewer by what the counter already holds. */
  lemma AtMostLimitPerWindow(st: State, ops: seq<Op>, c: UserId)
    requires Valid(st) && CounterSurvives(st, ops, c)
    ensures SentBy(st, ops, c) <= Limit - Sent(st, c)
  {
    RunCounts(st, ops, c);
  }

  /** With the clock standing still no counter can expire, so the bound
      holds over every run without ticks. */
  lemma {:induction false} NoTicksKeepCounter(st: State, ops: seq<Op>, c: UserId)
    requires forall i | 0 <= i < |ops| :: !ops[i].TickOp?
    ensures CounterSurvives(st, ops, c)
    decreases |ops|
  {
    if |ops| > 0 {
      assert forall i | 0 <= i < |ops| - 1 :: ops[1..][i] == ops[i + 1];
      NoTicksKeepCounter(Apply(st, ops[0]), ops[1..], c);
    }
  }
}
