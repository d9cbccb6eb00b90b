/** Authentication: the bearer-token gate in front of the booking and review
    routes, login, and registration into the users table. Password hashing
    and token signing are foreign libraries; they enter the model as
    functions passed in (`matches` for bcrypt's compare, a `TokenService`
    for jwt's sign and verify under the process-wide secret). */
module Auth {
  import opened Sql
  import opened Http

  // ---------------------------------------------------------------------
  // Splitting the Authorization header
  // ---------------------------------------------------------------------

  /** `s.split(sep)` in JavaScript: the fields between occurrences of `sep`,
      empty fields included; there is always at least one field. */
  function Split(s: string, sep: char): (fields: seq<string>)
    ensures |fields| >= 1
  {
    if s == [] then [[]]
    else
      var rest := Split(s[1..], sep);
      if s[0] == sep then [[]] + rest else [[s[0]] + rest[0]] + rest[1..]
  }

  /** `fields.join(sep)`: the partner of `Split`. */
  function Join(fields: seq<string>, sep: char): string
    requires |fields| >= 1
  {
    if |fields| == 1 then fields[0] else fields[0] + [sep] + Join(fields[1..], sep)
  }

  /** Splitting loses nothing: joining the fields again gives the input back. */
  lemma {:induction false} JoinSplit(s: string, sep: char)
    ensures Join(Split(s, sep), sep) == s
  {
    if s != [] {
      var rest := Split(s[1..], sep);
      JoinSplit(s[1..], sep);
      if s[0] == sep {
        assert Split(s, sep)[1..] == rest;
      } else if |rest| > 1 {
        assert Split(s, sep)[1..] == rest[1..];
        assert Join(rest, sep) == rest[0] + [sep] + Join(rest[1..], sep);
      }
      assert s == [s[0]] + s[1..];
    }
  }

  /** No field contains the separator. */
  lemma {:induction false} SplitFieldsSeparatorFree(s: string, sep: char)
    ensures forall k :: 0 <= k < |Split(s, sep)| ==> sep !in Split(s, sep)[k]
  {
    if s != [] {
      SplitFieldsSeparatorFree(s[1..], sep);
      var rest := Split(s[1..], sep);
      assert sep !in rest[0];
    }
  }

  /** A string without the separator is one field. */
  lemma {:induction false} SplitSingle(a: string, sep: char)
    requires sep !in a
    ensures Split(a, sep) == [a]
  {
    if a != [] {
      SplitSingle(a[1..], sep);
      assert a == [a[0]] + a[1..];
    }
  }

  /** The text before the first separator is the first field, and what
      follows it is split on its own. */
  lemma {:induction false} SplitAtFirst(a: string, sep: char, b: string)
    requires sep !in a
    ensures Split(a + [sep] + b, sep) == [a] + Split(b, sep)
  {
    if a == [] {
      assert a + [sep] + b == [sep] + b;
      assert ([sep] + b)[1..] == b;
    } else {
      SplitAtFirst(a[1..], sep, b);
      assert (a + [sep] + b)[1..] == a[1..] + [sep] + b;
      assert a == [a[0]] + a[1..];
    }
  }

  // ---------------------------------------------------------------------
  // The gate (server.js `authenticateToken`)
  // ---------------------------------------------------------------------

  /** `req.headers['authorization']?.split(' ')[1]`, kept only when truthy:
      the second space-separated field of the header, if it exists and is
      not empty. The first field (the scheme word) is not inspected. */
  function ExtractToken(header: Option<string>): (r: Option<string>)
    ensures header.None? ==> r.None?
    ensures r.Some? ==> r.value != "" && ' ' !in r.value
  {
    match header
    case None => None
    case Some(h) =>
      var fields := Split(h, ' ');
      SplitFieldsSeparatorFree(h, ' ');
      if |fields| >= 2 && fields[1] != "" then Some(fields[1]) else None
  }

  /** A header of the shape `<scheme> <token>` or `<scheme> <token> <more>`
      yields the token, whatever the scheme word is. */
  lemma SchemeThenToken(scheme: string, token: string, more: string)
    requires ' ' !in scheme && ' ' !in token && token != ""
    requires more == "" || more[0] == ' '
    ensures ExtractToken(Some(scheme + " " + token + more)) == Some(token)
  {
    SplitAtFirst(scheme, ' ', token + more);
    assert scheme + " " + token + more == scheme + [' '] + (token + more);
    if more == "" {
      assert token + more == token;
      SplitSingle(token, ' ');
    } else {
      SplitAtFirst(token, ' ', more[1..]);
      assert token + more == token + [' '] + more[1..];
    }
  }

  /** A header without a space has no second field: `"Bearer"` is denied. */
  lemma NoSpaceNoToken(h: string)
    requires ' ' !in h
    ensures ExtractToken(Some(h)) == None
  {
    SplitSingle(h, ' ');
  }

  /** An empty second field is denied: `"Bearer "` and `"Bearer  x"`. */
  lemma EmptySecondFieldNoToken(scheme: string, rest: string)
    requires ' ' !in scheme
    requires rest == "" || rest[0] == ' '
    ensures ExtractToken(Some(scheme + " " + rest)) == None
  {
    SplitAtFirst(scheme, ' ', rest);
    assert scheme + " " + rest == scheme + [' '] + rest;
    if rest != "" {
      assert Split(rest, ' ')[0] == [];
    }
  }

  /** The second word of `h` by position: the characters after the first
      space up to the next space or the end, when there are any. */
  function SecondWord(h: string): Option<string>
  {
    if ' ' !in h then None
    else
      var i := FirstSpace(h);
      var j := NextSpaceOrEnd(h, i + 1);
      if j == i + 1 then None else Some(h[i + 1..j])
  }

  /** The split-based extraction agrees on every header with the
      position-based reading above. */
  lemma ExtractTokenIsSecondWord(h: string)
    ensures ExtractToken(Some(h)) == SecondWord(h)
  {
    if ' ' !in h {
      NoSpaceNoToken(h);
    } else {
      var i := FirstSpace(h);
      var j := NextSpaceOrEnd(h, i + 1);
      if j == i + 1 {
        assert h == h[..i] + " " + h[i + 1..];
        EmptySecondFieldNoToken(h[..i], h[i + 1..]);
      } else {
        assert h == h[..i] + " " + h[i + 1..j] + h[j..];
        assert h[i + 1..j] != "" by { assert h[i + 1] == h[i + 1..j][0]; }
        SchemeThenToken(h[..i], h[i + 1..j], h[j..]);
      }
    }
  }

  /** The index of the first space of `h`. */
  function FirstSpace(h: string): (i: nat)
    requires ' ' in h
    ensures i < |h| && h[i] == ' ' && ' ' !in h[..i]
  {
    if h[0] == ' ' then 0
    else
      assert h == [h[0]] + h[1..];
      var k := FirstSpace(h[1..]);
      assert h[..k + 1] == [h[0]] + h[1..][..k];
      k + 1
  }

  /** The index of the first space of `h` at or after `from`, or `|h|`. */
  function NextSpaceOrEnd(h: string, from: nat): (j: nat)
    requires from <= |h|
    ensures from <= j <= |h| && ' ' !in h[from..j] && (j == |h| || h[j] == ' ')
    decreases |h| - from
  {
    if from == |h| || h[from] == ' ' then from
    else
      var j := NextSpaceOrEnd(h, from + 1);
      assert h[from..j] == [h[from]] + h[from + 1..j];
      j
  }

  /** The claims a session token carries: `{userId, email}`. */
  datatype Claims = Claims(userId: int, email: string)

  /** jwt's sign and verify, both bound to the process-wide secret. */
  datatype TokenService = TokenService(sign: Claims -> string, verify: string -> Option<Claims>)

  /** What the model assumes of jwt: a signed token verifies to exactly the
      claims it was signed with, and is a single non-empty word (base64url
      segments joined by dots). */
  ghost predicate Lawful(ts: TokenService)
  {
    forall c :: ts.verify(ts.sign(c)) == Some(c) && ts.sign(c) != "" && ' ' !in ts.sign(c)
  }

  /** The three outcomes of `authenticateToken`: continue with `req.user`, or
      answer with a failure and never reach the route. */
  datatype Gate = Admit(user: Claims) | Refuse(failure: Failure)

  function Authenticate(header: Option<string>, ts: TokenService): (g: Gate)
    ensures g.Refuse? ==> g.failure == AccessDenied || g.failure == InvalidToken
  {
    match ExtractToken(header)
    case None => Refuse(AccessDenied)
    case Some(token) =>
      match ts.verify(token)
      case None => Refuse(InvalidToken)
      case Some(user) => Admit(user)
  }

  /** Access denied (401) exactly when no token could be extracted; invalid
      token (403) exactly when one was extracted but did not verify; and the
      admitted user is what verification returned. */
  lemma AuthenticateOutcomes(header: Option<string>, ts: TokenService)
    ensures Authenticate(header, ts) == Refuse(AccessDenied) <==> ExtractToken(header) == None
    ensures Authenticate(header, ts) == Refuse(InvalidToken)
        <==> ExtractToken(header).Some? && ts.verify(ExtractToken(header).value) == None
    ensures Authenticate(header, ts).Admit?
        <==> ExtractToken(header).Some? && ts.verify(ExtractToken(header).value).Some?
    ensures Authenticate(header, ts).Admit?
        ==> ts.verify(ExtractToken(header).value) == Some(Authenticate(header, ts).user)
  {
  }

  /** `Authorization: <any scheme> <token>` with a token that was signed by
      the service admits exactly the signed claims. */
  lemma SignedTokenAdmits(scheme: string, ts: TokenService, c: Claims)
    requires Lawful(ts)
    requires ' ' !in scheme
    ensures Authenticate(Some(scheme + " " + ts.sign(c)), ts) == Admit(c)
  {
    var t := ts.sign(c);
    assert scheme + " " + t + "" == scheme + " " + t;
    SchemeThenToken(scheme, t, "");
  }

  // ---------------------------------------------------------------------
  // Users, login and registration
  // ---------------------------------------------------------------------

  /** A row of `users`; `password` holds the bcrypt digest. */
  datatype User = User(userId: int, name: string, emailId: string, password: string, homeCity: string, budget: int)

  /** The `user` object of a successful login response. */
  datatype Profile = Profile(id: int, name: string, email: string, homeCity: string, budget: int)

  datatype Session = Session(token: string, user: Profile)

  /** `email_id` is a unique key of `users`. */
  ghost predicate UniqueEmails(users: seq<User>)
  {
    forall i, j :: 0 <= i < |users| && 0 <= j < |users| && users[i].emailId == users[j].emailId ==> i == j
  }

  /** `SELECT * FROM users WHERE email_id = ?`, first row. */
  function ByEmail(users: seq<User>, emailId: string): (r: Option<User>)
    ensures r.None? <==> forall i :: 0 <= i < |users| ==> users[i].emailId != emailId
    ensures r.Some? ==> r.value in users && r.value.emailId == emailId
  {
    First(users, (u: User) => u.emailId == emailId)
  }

  /** POST /api/auth/login: look the email up, compare the password with
      the stored digest, and sign `{userId, email}` of the matched row. An
      unknown email and a wrong password give the same failure. */
  function Login(users: seq<User>, emailId: string, password: string,
                 matches: (string, string) -> bool, ts: TokenService): (r: Reply<Session>)
    ensures r.Err? ==> r.failure == InvalidCredentials
    ensures r.Ok? <==> exists u :: u in users && u.emailId == emailId && u == ByEmail(users, emailId).value
                                          && matches(password, u.password)
    ensures r.Ok? ==> var u := ByEmail(users, emailId).value;
      && r.value.token == ts.sign(Claims(u.userId, u.emailId))
      && r.value.user == Profile(u.userId, u.name, u.emailId, u.homeCity, u.budget)
  {
    match ByEmail(users, emailId)
    case None => Err(InvalidCredentials)
    case Some(u) =>
      if !matches(password, u.password) then Err(InvalidCredentials)
      else Ok(Session(ts.sign(Claims(u.userId, u.emailId)), Profile(u.userId, u.name, u.emailId, u.homeCity, u.budget)))
  }

  /** For a registered user (emails unique), login succeeds exactly when the
      password matches that user's digest, and the token then carries that
      user's id and email. */
  lemma LoginIffPasswordMatches(users: seq<User>, k: nat, password: string,
                                matches: (string, string) -> bool, ts: TokenService)
    requires UniqueEmails(users) && k < |users|
    ensures Login(users, users[k].emailId, password, matches, ts).Ok? <==> matches(password, users[k].password)
    ensures Login(users, users[k].emailId, password, matches, ts).Ok?
        ==> Login(users, users[k].emailId, password, matches, ts).value.token
            == ts.sign(Claims(users[k].userId, users[k].emailId))
  {
    var u := users[k];
    assert forall i :: 0 <= i < |users| && users[i].emailId == u.emailId ==> users[i] == u;
    FirstOnKey(users, (x: User) => x.emailId == u.emailId, u);
  }

  /** An email no user has is refused with the same failure as a wrong
      password. */
  lemma LoginUnknownEmail(users: seq<User>, emailId: string, password: string,
                          matches: (string, string) -> bool, ts: TokenService)
    requires forall i :: 0 <= i < |users| ==> users[i].emailId != emailId
    ensures Login(users, emailId, password, matches, ts) == Err(InvalidCredentials)
  {
  }

  /** The token a login hands out passes the gate as `Bearer <token>` and
      admits exactly the matched user's claims. */
  lemma LoginTokenAdmits(users: seq<User>, emailId: string, password: string,
                         matches: (string, string) -> bool, ts: TokenService)
    requires Lawful(ts)
    requires Login(users, emailId, password, matches, ts).Ok?
    ensures var u := ByEmail(users, emailId).value;
      Authenticate(Some("Bearer " + Login(users, emailId, password, matches, ts).value.token), ts)
        == Admit(Claims(u.userId, emailId))
  {
    var u := ByEmail(users, emailId).value;
    assert u.emailId == emailId;
    var t := ts.sign(Claims(u.userId, u.emailId));
    assert "Bearer " + t == "Bearer" + " " + t;
    SignedTokenAdmits("Bearer", ts, Claims(u.userId, u.emailId));
  }

  /** The users table (AUTO_INCREMENT `user_id`, unique `email_id`). */
  class UserTable {
    var rows: seq<User>
    var nextId: int

    ghost predicate Valid()
      reads this
    {
      AutoIncrement(rows, (u: User) => u.userId, nextId) && UniqueEmails(rows)
    }

    constructor ()
      ensures Valid() && rows == [] && nextId == 1
    {
      rows := [];
      nextId := 1;
    }

    /** POST /api/auth/register. `digest` is what `bcrypt.hash` produced, or
        `None` when it threw (salting makes it an input here). A taken email
        fails the unique key (400); a hashing failure is a 500; otherwise
        exactly one row is appended and its new id returned. */
    method Register(name: string, emailId: string, digest: Option<string>, homeCity: string, budget: int)
      returns (r: Reply<int>)
      requires Valid()
      modifies this
      ensures Valid()
      ensures digest == None ==> r == Err(Internal) && rows == old(rows) && nextId == old(nextId)
      ensures digest.Some? && ByEmail(old(rows), emailId).Some?
        ==> r == Err(EmailExists) && rows == old(rows) && nextId == old(nextId)
      ensures digest.Some? && ByEmail(old(rows), emailId).None?
        ==> && r == Ok(old(nextId))
            && rows == old(rows) + [User(old(nextId), name, emailId, digest.value, homeCity, budget)]
            && nextId == old(nextId) + 1
    {
      if digest == None {
        return Err(Internal);
      }
      if ByEmail(rows, emailId).Some? {
        return Err(EmailExists);
      }
      var user := User(nextId, name, emailId, digest.value, homeCity, budget);
      AutoIncrementInsert(rows, (u: User) => u.userId, nextId, user);
      rows := rows + [user];
      r := Ok(nextId);
      nextId := nextId + 1;
    }
  }

  /** Registering and then logging in with a password the digest was made
      from succeeds and signs the new row's id and email. */
  lemma RegisterThenLogin(users: seq<User>, u: User, password: string,
                          matches: (string, string) -> bool, ts: TokenService)
    requires ByEmail(users, u.emailId).None?
    requires matches(password, u.password)
    ensures Login(users + [u], u.emailId, password, matches, ts).Ok?
    ensures Login(users + [u], u.emailId, password, matches, ts).value.token
         == ts.sign(Claims(u.userId, u.emailId))
  {
    var s := users + [u];
    assert s[|users|] == u;
    assert forall i :: 0 <= i < |users| ==> users[i].emailId != u.emailId;
    assert forall i :: 0 <= i < |s| && s[i].emailId == u.emailId ==> i == |users|;
    FirstOnKey(s, (x: User) => x.emailId == u.emailId, u);
  }
}
