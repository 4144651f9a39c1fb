/** The user table (`UserProfile`): rows with a primary key, a unique
    username and a unique email, listed in username order. */
module Users {
  import opened Strings
  import opened Optional

  type UserId = nat

  /** The parts of a user the friend-request core reads. The password hash
      is kept by the password hasher and is not part of this model. */
  datatype User = User(id: UserId, username: string, email: string)

  /** Two rows that share the primary key, the username or the email. */
  predicate Clash(a: User, b: User)
  {
    a.id == b.id || a.username == b.username || a.email == b.email
  }

  /** The table's unique columns: no two rows clash. */
  predicate WellFormed(t: seq<User>)
  {
    forall i, j | 0 <= i < j < |t| :: !Clash(t[i], t[j])
  }

  /** `x` clashes with no row of `t`, so it may be added to it. */
  predicate Fresh(x: User, t: seq<User>)
  {
    forall v | v in t :: !Clash(x, v)
  }

  predicate HasId(t: seq<User>, id: UserId)
  {
    exists v | v in t :: v.id == id
  }

  predicate HasUsername(t: seq<User>, name: string)
  {
    exists v | v in t :: v.username == name
  }

  predicate HasEmail(t: seq<User>, email: string)
  {
    exists v | v in t :: v.email == email
  }

  lemma WellFormedCons(x: User, t: seq<User>)
    ensures WellFormed([x] + t) <==> Fresh(x, t) && WellFormed(t)
  {
    var s := [x] + t;
    if WellFormed(s) {
      forall v | v in t
        ensures !Clash(x, v)
      {
        var m :| 0 <= m < |t| && t[m] == v;
        assert s[0] == x && s[m + 1] == v;
      }
      forall i, j | 0 <= i < j < |t|
        ensures !Clash(t[i], t[j])
      {
        assert s[i + 1] == t[i] && s[j + 1] == t[j];
      }
    }
    if Fresh(x, t) && WellFormed(t) {
      forall i, j | 0 <= i < j < |s|
        ensures !Clash(s[i], s[j])
      {
        assert s[j] == t[j - 1];
        if i > 0 {
          assert s[i] == t[i - 1];
        }
      }
    }
  }

  lemma WellFormedSnoc(t: seq<User>, x: User)
    requires WellFormed(t) && Fresh(x, t)
    ensures WellFormed(t + [x])
  {
    var s := t + [x];
    forall i, j | 0 <= i < j < |s|
      ensures !Clash(s[i], s[j])
    {
      assert s[i] == t[i];
      if j < |t| {
        assert s[j] == t[j];
      } else {
        assert s[i] in t;
      }
    }
  }

  lemma WellFormedAt(t: seq<User>, v: User, w: User)
    requires WellFormed(t) && v in t && w in t && v != w
    ensures !Clash(v, w)
  {
    var i :| 0 <= i < |t| && t[i] == v;
    var j :| 0 <= j < |t| && t[j] == w;
    if i > j {
      assert !Clash(t[j], t[i]);
    }
  }

  /** `UserProfile.objects.get(username=...)`: the row with that username,
      or nothing (`DoesNotExist`). */
  function FindByUsername(t: seq<User>, name: string): (r: Option<User>)
    ensures r.Some? ==> r.value in t && r.value.username == name
    ensures r.None? <==> !HasUsername(t, name)
  {
    if |t| == 0 then None
    else if t[0].username == name then Some(t[0])
    else
      assert forall v | v in t && v != t[0] :: v in t[1..];
      FindByUsername(t[1..], name)
  }

  /** `UserProfile.objects.get(email=...)`, the lookup a login starts from. */
  function FindByEmail(t: seq<User>, email: string): (r: Option<User>)
    ensures r.Some? ==> r.value in t && r.value.email == email
    ensures r.None? <==> !HasEmail(t, email)
  {
    if |t| == 0 then None
    else if t[0].email == email then Some(t[0])
    else
      assert forall v | v in t && v != t[0] :: v in t[1..];
      FindByEmail(t[1..], email)
  }

  /** In a well-formed table a username names exactly one row, so the
      lookup finds that row. */
  lemma FindByUsernameExact(t: seq<User>, v: User)
    requires WellFormed(t) && v in t
    ensures FindByUsername(t, v.username) == Some(v)
  {
    var r := FindByUsername(t, v.username);
    if r.value != v {
      WellFormedAt(t, r.value, v);
    }
  }

  /** Emails are unique, so an email lookup can match one row at most: any
      two rows carrying the email are the same row. */
  lemma FindByEmailExact(t: seq<User>, v: User)
    requires WellFormed(t) && v in t
    ensures FindByEmail(t, v.email) == Some(v)
  {
    var r := FindByEmail(t, v.email);
    if r.value != v {
      WellFormedAt(t, r.value, v);
    }
  }

  /** A filtered queryset over the table, in table order. */
  function Where(t: seq<User>, p: User -> bool): (r: seq<User>)
    ensures forall v :: v in r <==> v in t && p(v)
    ensures |r| <= |t|
    ensures WellFormed(t) ==> WellFormed(r)
  {
    if |t| == 0 then []
    else
      var rest := Where(t[1..], p);
      assert t == [t[0]] + t[1..];
      WellFormedCons(t[0], t[1..]);
      WellFormedCons(t[0], rest);
      if p(t[0]) then [t[0]] + rest else rest
  }

  /** The rows whose email is exactly `email`: at most one. */
  lemma AtMostOneWithEmail(t: seq<User>, email: string)
    requires WellFormed(t)
    ensures |Where(t, (v: User) => v.email == email)| <= 1
  {
    var r := Where(t, (v: User) => v.email == email);
    if |r| > 1 {
      assert r[0] in r && r[1] in r;
      assert !Clash(r[0], r[1]);
    }
  }

  /** A registration body as submitted. The password only has to pass
      validation: its hash is not part of this model. */
  datatype Signup = Signup(username: string, email: string, password: string)

  /** Django's column lengths for `AbstractUser.username`, `EmailField` and
      `AbstractUser.password`; the serializer refuses longer values. */
  const UsernameMaxLength: nat := 150
  const EmailMaxLength: nat := 254
  const PasswordMaxLength: nat := 128

  /** The field validators whose rules are not modelled: the username
      character check of `AbstractUser` and the email format check of
      `EmailField`. */
  datatype FieldChecks = FieldChecks(usernameChars: string -> bool, emailFormat: string -> bool)

  /** Each field's own checks: required and not blank, free of NUL
      characters (every serializer character field refuses them), within its
      length, and passing its validator. */
  predicate UsernameAcceptable(checks: FieldChecks, username: string)
  {
    username != "" && '\0' !in username && |username| <= UsernameMaxLength && checks.usernameChars(username)
  }

  predicate EmailAcceptable(checks: FieldChecks, email: string)
  {
    email != "" && '\0' !in email && |email| <= EmailMaxLength && checks.emailFormat(email)
  }

  predicate PasswordAcceptable(password: string)
  {
    password != "" && '\0' !in password && |password| <= PasswordMaxLength
  }

  /** Registration (`UserProfileSerializer`, validated then created): each
      field must pass its own checks, and the unique constraints on both
      columns refuse a taken username or a taken email. A body that passes
      everything adds one row with exactly the submitted username and email
      and the next primary key. Every failing check is reported. */
  datatype Registration =
    | Registered(table: seq<User>, user: User)
    | Refused(usernameBad: bool, emailBad: bool, passwordBad: bool, usernameTaken: bool, emailTaken: bool)

  function Register(t: seq<User>, nextId: UserId, body: Signup, checks: FieldChecks): (r: Registration)
    ensures r.Refused? <==>
              || !UsernameAcceptable(checks, body.username)
              || !EmailAcceptable(checks, body.email)
              || !PasswordAcceptable(body.password)
              || HasUsername(t, body.username)
              || HasEmail(t, body.email)
    ensures r.Refused? ==>
              && r.usernameBad == !UsernameAcceptable(checks, body.username)
              && r.emailBad == !EmailAcceptable(checks, body.email)
              && r.passwordBad == !PasswordAcceptable(body.password)
              && r.usernameTaken == HasUsername(t, body.username)
              && r.emailTaken == HasEmail(t, body.email)
    ensures r.Registered? ==>
              && r.user == User(nextId, body.username, body.email)
              && r.table == t + [r.user]
  {
    var badName := !UsernameAcceptable(checks, body.username);
    var badEmail := !EmailAcceptable(checks, body.email);
    var badPassword := !PasswordAcceptable(body.password);
    var taken := HasUsername(t, body.username);
    var used := HasEmail(t, body.email);
    if badName || badEmail || badPassword || taken || used then Refused(badName, badEmail, badPassword, taken, used)
    else Registered(t + [User(nextId, body.username, body.email)], User(nextId, body.username, body.email))
  }

  /** A registration that goes through keeps the table's unique columns
      unique, given a next id no row holds yet. */
  lemma RegisterKeepsWellFormed(t: seq<User>, nextId: UserId, body: Signup, checks: FieldChecks)
    requires WellFormed(t) && !HasId(t, nextId)
    ensures var r := Register(t, nextId, body, checks);
            r.Registered? ==> WellFormed(r.table)
  {
    var r := Register(t, nextId, body, checks);
    if r.Registered? {
      WellFormedSnoc(t, r.user);
    }
  }

  predicate SortedByName(t: seq<User>)
  {
    forall i, j | 0 <= i < j < |t| :: LexLe(t[i].username, t[j].username)
  }

  predicate StrictlySortedByName(t: seq<User>)
  {
    forall i, j | 0 <= i < j < |t| :: LexLt(t[i].username, t[j].username)
  }

  /** Every row's username, in row order: the projection a list response
      shows (`FriendListSerializer`, `PendingFriendRequestSerializer`). */
  function Names(t: seq<User>): (r: seq<string>)
    ensures |r| == |t|
    ensures forall i | 0 <= i < |t| :: r[i] == t[i].username
    ensures SortedByName(t) ==> Ascending(r)
    ensures StrictlySortedByName(t) ==> StrictlyAscending(r)
  {
    seq(|t|, i requires 0 <= i < |t| => t[i].username)
  }

  lemma NamesMembership(t: seq<User>)
    ensures forall x :: x in Names(t) <==> exists v | v in t :: v.username == x
  {
    var r := Names(t);
    forall v | v in t
      ensures v.username in r
    {
      var i :| 0 <= i < |t| && t[i] == v;
      assert r[i] == v.username;
    }
  }

  /** No row of `t` sorts before `x`. */
  predicate AllAtLeast(x: User, t: seq<User>)
  {
    forall v | v in t :: LexLe(x.username, v.username)
  }

  predicate NameFresh(x: User, t: seq<User>)
  {
    forall v | v in t :: v.username != x.username
  }

  lemma SortedTail(x: User, t: seq<User>)
    requires SortedByName([x] + t)
    ensures AllAtLeast(x, t) && SortedByName(t)
  {
    var s := [x] + t;
    forall v | v in t
      ensures LexLe(x.username, v.username)
    {
      var m :| 0 <= m < |t| && t[m] == v;
      assert s[0] == x && s[m + 1] == v;
    }
    forall i, j | 0 <= i < j < |t|
      ensures LexLe(t[i].username, t[j].username)
    {
      assert s[i + 1] == t[i] && s[j + 1] == t[j];
    }
  }

  lemma StrictlySortedTail(x: User, t: seq<User>)
    requires StrictlySortedByName([x] + t)
    ensures NameFresh(x, t) && StrictlySortedByName(t)
  {
    var s := [x] + t;
    forall v | v in t
      ensures v.username != x.username
    {
      var m :| 0 <= m < |t| && t[m] == v;
      assert s[0] == x && s[m + 1] == v;
    }
    forall i, j | 0 <= i < j < |t|
      ensures LexLt(t[i].username, t[j].username)
    {
      assert s[i + 1] == t[i] && s[j + 1] == t[j];
    }
  }

  lemma SortedConsBuild(x: User, t: seq<User>)
    requires AllAtLeast(x, t) && SortedByName(t)
    ensures SortedByName([x] + t)
  {
    var s := [x] + t;
    forall i, j | 0 <= i < j < |s|
      ensures LexLe(s[i].username, s[j].username)
    {
      assert s[j] == t[j - 1];
      if i == 0 {
        assert t[j - 1] in t;
      } else {
        assert s[i] == t[i - 1];
      }
    }
  }

  lemma StrictlySortedConsBuild(x: User, t: seq<User>)
    requires AllAtLeast(x, t) && NameFresh(x, t) && StrictlySortedByName(t)
    ensures StrictlySortedByName([x] + t)
  {
    var s := [x] + t;
    forall i, j | 0 <= i < j < |s|
      ensures LexLt(s[i].username, s[j].username)
    {
      assert s[j] == t[j - 1];
      if i == 0 {
        assert t[j - 1] in t;
      } else {
        assert s[i] == t[i - 1];
      }
    }
  }

  /** A sorted list's head is at most every row of it. */
  lemma HeadIsLeast(t: seq<User>)
    requires |t| > 0 && SortedByName(t)
    ensures AllAtLeast(t[0], t)
  {
    LexLeReflexive(t[0].username);
    assert t == [t[0]] + t[1..];
    SortedTail(t[0], t[1..]);
  }

  lemma LowerBoundTransfers(x: User, y: User, t: seq<User>)
    requires LexLe(x.username, y.username) && AllAtLeast(y, t)
    ensures AllAtLeast(x, t)
  {
    forall v | v in t
      ensures LexLe(x.username, v.username)
    {
      LexLeTransitive(x.username, y.username, v.username);
    }
  }

  function InsertByName(x: User, s: seq<User>): (r: seq<User>)
    requires SortedByName(s)
    ensures multiset(r) == multiset(s) + multiset{x}
    ensures SortedByName(r)
    ensures StrictlySortedByName(s) && NameFresh(x, s) ==> StrictlySortedByName(r)
    decreases |s|
  {
    if |s| == 0 then
      SortedConsBuild(x, []);
      StrictlySortedConsBuild(x, []);
      [x]
    else if LexLe(x.username, s[0].username) then
      InsertInFront(x, s);
      [x] + s
    else
      assert s == [s[0]] + s[1..];
      SortedTail(s[0], s[1..]);
      var rest := InsertByName(x, s[1..]);
      InsertBehindHead(x, s, rest);
      [s[0]] + rest
  }

  lemma InsertInFront(x: User, s: seq<User>)
    requires |s| > 0 && SortedByName(s) && LexLe(x.username, s[0].username)
    ensures SortedByName([x] + s)
    ensures StrictlySortedByName(s) && NameFresh(x, s) ==> StrictlySortedByName([x] + s)
  {
    HeadIsLeast(s);
    LowerBoundTransfers(x, s[0], s);
    SortedConsBuild(x, s);
    if StrictlySortedByName(s) && NameFresh(x, s) {
      StrictlySortedConsBuild(x, s);
    }
  }

  lemma InsertBehindHead(x: User, s: seq<User>, rest: seq<User>)
    requires |s| > 0 && SortedByName(s) && !LexLe(x.username, s[0].username)
    requires multiset(rest) == multiset(s[1..]) + multiset{x}
    requires SortedByName(rest)
    requires StrictlySortedByName(s[1..]) && NameFresh(x, s[1..]) ==> StrictlySortedByName(rest)
    ensures SortedByName([s[0]] + rest)
    ensures StrictlySortedByName(s) && NameFresh(x, s) ==> StrictlySortedByName([s[0]] + rest)
  {
    assert s == [s[0]] + s[1..];
    SortedTail(s[0], s[1..]);
    LexLeTotal(x.username, s[0].username);
    forall v | v in rest
      ensures v in s[1..] || v == x
    {
      assert v in multiset(rest);
    }
    assert AllAtLeast(s[0], rest);
    SortedConsBuild(s[0], rest);
    if StrictlySortedByName(s) && NameFresh(x, s) {
      StrictlySortedTail(s[0], s[1..]);
      assert forall v | v in s[1..] :: v in s;
      StrictlySortedConsBuild(s[0], rest);
    }
  }

  /** `ordering = ['username']`: a listing of users sorted by username; a
      permutation of its input, and strictly ascending when the input rows
      come from a well-formed table. */
  function SortByName(t: seq<User>): (r: seq<User>)
    ensures multiset(r) == multiset(t)
    ensures SortedByName(r)
    ensures WellFormed(t) ==> StrictlySortedByName(r)
    decreases |t|
  {
    if |t| == 0 then []
    else
      assert t == [t[0]] + t[1..];
      WellFormedCons(t[0], t[1..]);
      var rest := SortByName(t[1..]);
      assert forall v | v in rest :: v in t[1..] by {
        forall v | v in rest
          ensures v in t[1..]
        {
          assert v in multiset(rest);
        }
      }
      InsertByName(t[0], rest)
  }

  lemma SortKeepsRows(t: seq<User>)
    ensures forall v :: v in SortByName(t) <==> v in t
    ensures |SortByName(t)| == |t|
  {
    var r := SortByName(t);
    assert |multiset(r)| == |multiset(t)|;
    forall v
      ensures v in r <==> v in t
    {
      assert v in r <==> v in multiset(r);
    }
  }
}
