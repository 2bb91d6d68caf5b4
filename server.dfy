/**
  The request handlers of the HTTP connection: route dispatch, the login
  body parser and credential search, the `sessionId` cookie parser and the
  choice of status in the profile and logout handlers. Requests and
  responses are plain records; the user table is the list the database
  returns, and the session table is passed in explicitly.
*/
module Server {

  import opened Wrappers
  import opened Hex
  import opened Text
  import opened Sessions

  // ---------------------------------------------------------------------
  // Requests, responses, users

  /** The request method: the two the routes use, and every other one. */
  datatype Verb = Get | Post | OtherVerb

  /** A request: method, target, the value of its Cookie header if it has one, and its body. */
  datatype Request = Request(verb: Verb, target: string, cookie: Option<string>, body: string)

  datatype Status = Ok | Unauthorized | NotFound

  /** A response: status, body, and the Set-Cookie and Content-Type headers when set. */
  datatype Response = Response(status: Status, body: string, setCookie: Option<string>, contentType: Option<string>)

  function Plain(status: Status, body: string): Response
  {
    Response(status, body, None, None)
  }

  /** A row of the users table (`Models::User`). */
  datatype User = User(id: int32, username: string, password: string)

  /** What a value-initialised `Models::User` holds: id 0 and empty strings. */
  const NoUser := User(0, "", "")

  /** The rows whose id is the given one, in table order, each as often as in the table. */
  function UsersWithId(users: seq<User>, id: int32): (rows: seq<User>)
    ensures |rows| <= |users|
    ensures forall u :: u in rows <==> u in users && u.id == id
    ensures forall u :: multiset(rows)[u] == if u.id == id then multiset(users)[u] else 0
  {
    if users == [] then []
    else
      assert users == [users[0]] + users[1..];
      (if users[0].id == id then [users[0]] else []) + UsersWithId(users[1..], id)
  }

  /** When the row at i is the only one with that id, it is the only row selected. */
  lemma {:induction false} UsersWithIdUnique(users: seq<User>, id: int32, i: nat)
    requires i < |users| && users[i].id == id
    requires forall j :: 0 <= j < |users| && j != i ==> users[j].id != id
    ensures UsersWithId(users, id) == [users[i]]
  {
    if i > 0 {
      forall j | 0 <= j < |users[1..]| && j != i - 1
        ensures users[1..][j].id != id
      {
        assert users[1..][j] == users[j + 1];
      }
      UsersWithIdUnique(users[1..], id, i - 1);
    }
  }

  /** When two rows have that id, the query selects at least two rows. */
  lemma {:induction false} UsersWithIdTwo(users: seq<User>, id: int32, i: nat, j: nat)
    requires i < j < |users| && users[i].id == id && users[j].id == id
    ensures |UsersWithId(users, id)| >= 2
  {
    assert users[j] == users[1..][j - 1];
    if i == 0 {
      assert users[j] in UsersWithId(users[1..], id);
    } else {
      UsersWithIdTwo(users[1..], id, i - 1, j - 1);
    }
  }

  /**
    `getUserById`: the row with that id when exactly one row has it,
    otherwise (no row, or two or more) the empty user with id 0.
  */
  function GetUserById(users: seq<User>, id: int32): (u: User)
    ensures u == NoUser || (u in users && u.id == id)
    ensures (exists v :: v in users && v.id == id) || u == NoUser
    ensures forall i :: 0 <= i < |users| && users[i].id == id
                        && (forall j :: 0 <= j < |users| && j != i ==> users[j].id != id)
                        ==> u == users[i]
    ensures forall i, j :: 0 <= i < j < |users| && users[i].id == id && users[j].id == id ==> u == NoUser
  {
    var rows := UsersWithId(users, id);
    forall i | 0 <= i < |users| && users[i].id == id
               && (forall j :: 0 <= j < |users| && j != i ==> users[j].id != id)
      ensures rows == [users[i]]
    {
      UsersWithIdUnique(users, id, i);
    }
    forall i, j | 0 <= i < j < |users| && users[i].id == id && users[j].id == id
      ensures |rows| >= 2
    {
      UsersWithIdTwo(users, id, i, j);
    }
    if |rows| == 1 then rows[0] else NoUser
  }

  // ---------------------------------------------------------------------
  // Routing

  datatype Handler = Login | Profile | Logout | NoRoute

  /** The handler a request goes to; every request goes to exactly one. */
  function Route(verb: Verb, target: string): (h: Handler)
    ensures h == Login <==> verb == Post && target == "/login"
    ensures h == Profile <==> verb == Get && target == "/profile"
    ensures h == Logout <==> verb == Post && target == "/logout"
    ensures h == NoRoute <==> !(verb == Post && target == "/login") && !(verb == Get && target == "/profile")
                              && !(verb == Post && target == "/logout")
  {
    if verb == Post && target == "/login" then Login
    else if verb == Get && target == "/profile" then Profile
    else if verb == Post && target == "/logout" then Logout
    else NoRoute
  }

  // ---------------------------------------------------------------------
  // Single-character search

  lemma FindCharAt(s: string, c: char, from: nat, k: nat)
    requires from <= k < |s| && s[k] == c
    requires forall i :: from <= i < k ==> s[i] != c
    ensures Find(s, [c], from) == Some(k)
  {
    assert IsAt(s, [c], k) by { assert s[k..k + 1] == [c]; }
    var q := Find(s, [c], from).value;
    assert s[q] == s[q..q + 1][0];
  }

  lemma FindCharAbsent(s: string, c: char, from: nat)
    requires forall i :: from <= i < |s| ==> s[i] != c
    ensures Find(s, [c], from) == None
  {
    forall j: nat | from <= j
      ensures !IsAt(s, [c], j)
    {
      if j + 1 <= |s| {
        assert s[j..j + 1][0] == s[j];
      }
    }
  }

  lemma FindCharIsChar(s: string, c: char, from: nat)
    ensures Find(s, [c], from).Some? ==> s[Find(s, [c], from).value] == c
    ensures forall i :: from <= i < |s| && (Find(s, [c], from).None? || i < Find(s, [c], from).value) ==> s[i] != c
  {
    var r := Find(s, [c], from);
    if r.Some? {
      var q := r.value;
      assert s[q] == s[q..q + 1][0];
    }
    forall i | from <= i < |s| && (r.None? || i < r.value)
      ensures s[i] != c
    {
      assert !IsAt(s, [c], i);
      assert s[i..i + 1] == [s[i]];
    }
  }

  // ---------------------------------------------------------------------
  // The session cookie

  const SessionKey := "sessionId="

  /**
    The session token in a Cookie header value: the text after the first
    `sessionId=` up to, not including, the next ';' or the end.
  */
  function ExtractSessionId(cookie: string): (r: Option<string>)
    ensures r.Some? <==> Occurs(cookie, SessionKey)
    ensures r.Some? ==> ';' !in r.value
    ensures r.Some? ==> exists p: nat ::
              && IsAt(cookie, SessionKey, p)
              && (forall q: nat :: q < p ==> !IsAt(cookie, SessionKey, q))
              && p + 10 + |r.value| <= |cookie|
              && cookie[p + 10..p + 10 + |r.value|] == r.value
              && (p + 10 + |r.value| == |cookie| || cookie[p + 10 + |r.value|] == ';')
  {
    FindOccurs(cookie, SessionKey);
    match Find(cookie, SessionKey, 0)
    case None => None
    case Some(pos) =>
      var v := UpToSemicolon(cookie, pos + 10);
      assert IsAt(cookie, SessionKey, pos) && forall q: nat :: q < pos ==> !IsAt(cookie, SessionKey, q);
      Some(v)
  }

  /** The text from `from` up to the next ';' or the end of the cookie. */
  function UpToSemicolon(cookie: string, from: nat): (v: string)
    requires from <= |cookie|
    ensures ';' !in v && from + |v| <= |cookie| && cookie[from..from + |v|] == v
    ensures from + |v| == |cookie| || cookie[from + |v|] == ';'
  {
    FindCharIsChar(cookie, ';', from);
    match Find(cookie, ";", from)
    case None => cookie[from..]
    case Some(end) => cookie[from..end]
  }

  /** The Set-Cookie value a successful login sends. */
  function SetCookie(token: string): (c: string)
    ensures IsAt(c, SessionKey, 0) && IsAt(c, token, 10) && c[10 + |token|..] == "; HttpOnly"
  {
    var c := SessionKey + token + "; HttpOnly";
    assert c[..10] == SessionKey && c[10..10 + |token|] == token;
    c
  }

  /** A token without ';' reads back out of its own Set-Cookie value. */
  lemma SetCookieRoundTrip(token: string)
    requires ';' !in token
    ensures ExtractSessionId(SetCookie(token)) == Some(token)
  {
    CookieRoundTrip(token, "; HttpOnly");
  }

  /**
    A token without ';' comes back out of a cookie that starts with
    `sessionId=` and the token, followed by nothing or by a ';' and any
    attributes, as in the Set-Cookie value of a login.
  */
  lemma CookieRoundTrip(token: string, rest: string)
    requires ';' !in token
    requires rest == [] || rest[0] == ';'
    ensures ExtractSessionId(SessionKey + token + rest) == Some(token)
  {
    var cookie := SessionKey + token + rest;
    assert IsAt(cookie, SessionKey, 0) by { assert cookie[0..10] == SessionKey; }
    assert Find(cookie, SessionKey, 0) == Some(0);
    var end := 10 + |token|;
    if rest == [] {
      FindCharAbsent(cookie, ';', 10);
      assert cookie[10..] == token;
    } else {
      FindCharAt(cookie, ';', 10, end);
      assert cookie[10..end] == token;
    }
  }

  /** Every generated token survives the trip through its Set-Cookie value. */
  lemma TokenCookieRoundTrip(part1: uint64, part2: uint64)
    ensures ExtractSessionId(SetCookie(GenerateToken(part1, part2))) == Some(GenerateToken(part1, part2))
  {
    var token := GenerateToken(part1, part2);
    assert ';' !in token by {
      forall i | 0 <= i < |token| ensures token[i] != ';' {
        assert IsHexDigit(token[i]);
      }
    }
    SetCookieRoundTrip(token);
  }

  /** The token of a request's cookie: none without a Cookie header or without `sessionId=` in it. */
  function CookieToken(cookie: Option<string>): (t: Option<string>)
    ensures t.Some? <==> cookie.Some? && Occurs(cookie.value, SessionKey)
    ensures t.Some? ==> ';' !in t.value
  {
    if cookie.None? then None else ExtractSessionId(cookie.value)
  }

  // ---------------------------------------------------------------------
  // Login

  datatype Credentials = Credentials(username: string, password: string)

  const UserKey := "\"username\":"
  const PassKey := "\"password\":"

  /**
    `body.find("\"", from) + 1` on `size_t`: one past the next quote, and 0
    when there is none, because npos + 1 wraps round to 0.
  */
  function AfterQuote(body: string, from: nat): (start: nat)
    ensures start <= |body|
    ensures start == 0 <==> forall i :: from <= i < |body| ==> body[i] != '"'
    ensures start > 0 ==> from < start && body[start - 1] == '"'
                          && forall i :: from <= i < start - 1 ==> body[i] != '"'
  {
    FindCharIsChar(body, '"', from);
    match Find(body, "\"", from)
    case None => 0
    case Some(q) => q + 1
  }

  /**
    The text from one past the next quote at or after `from` up to the
    following quote, or to the end of the body when there is none.
  */
  function QuotedFrom(body: string, from: nat): (v: string)
    ensures '"' !in v
    ensures var start := AfterQuote(body, from);
            && start + |v| <= |body| && body[start..start + |v|] == v
            && (start + |v| == |body| || body[start + |v|] == '"')
  {
    var start := AfterQuote(body, from);
    FindCharIsChar(body, '"', start);
    match Find(body, "\"", start)
    case None => body[start..]
    case Some(end) => body[start..end]
  }

  /**
    The naive login body parser: both fields are read only when both
    `"username":` and `"password":` occur in the body, the username from the
    quote after the first `"username":` and the password from the quote at
    or after the ':' of the first `"password":`; otherwise both are empty.
    No field it returns contains a quote.
  */
  function ParseCredentials(body: string): (c: Credentials)
    ensures !(Occurs(body, UserKey) && Occurs(body, PassKey)) ==> c == Credentials("", "")
    ensures Occurs(body, UserKey) && Occurs(body, PassKey) ==>
              c == Credentials(QuotedFrom(body, Find(body, UserKey, 0).value + 11),
                               QuotedFrom(body, Find(body, PassKey, 0).value + 10))
    ensures '"' !in c.username && '"' !in c.password
  {
    FindOccurs(body, UserKey);
    FindOccurs(body, PassKey);
    var userPos, passPos := Find(body, UserKey, 0), Find(body, PassKey, 0);
    if userPos.Some? && passPos.Some? then
      Credentials(QuotedFrom(body, userPos.value + 11), QuotedFrom(body, passPos.value + 10))
    else
      Credentials("", "")
  }

  /** The body the parser expects: `{"username":"<u>","password":"<p>"}`. */
  function LoginBody(c: Credentials): string
  {
    "{" + UserKey + "\"" + c.username + "\"," + PassKey + "\"" + c.password + "\"}"
  }

  /** Where LoginBody puts each part, for a username of length n. */
  lemma LoginBodyLayout(c: Credentials)
    ensures var body, n := LoginBody(c), |c.username|;
            && |body| == 29 + n + |c.password|
            && body[0] == '{' && body[1..12] == UserKey && body[12] == '"'
            && body[13..13 + n] == c.username && body[13 + n] == '"' && body[14 + n] == ','
            && body[15 + n..26 + n] == PassKey && body[26 + n] == '"'
            && body[27 + n..27 + n + |c.password|] == c.password && body[27 + n + |c.password|] == '"'
  {
    var u, p := c.username, c.password;
    var n, m := |u|, |p|;
    var body := LoginBody(c);
    var head := "{" + UserKey + "\"";
    var mid := "\"," + PassKey + "\"";
    assert body == head + u + mid + p + "\"}";
    assert |head| == 13 && |mid| == 14;
    assert body[..13] == head;
    assert body[13..13 + n] == u;
    assert body[13 + n..27 + n] == mid;
    assert body[27 + n..27 + n + m] == p;
    assert body[27 + n + m..] == "\"}";
    assert head[1..12] == UserKey && mid[2..13] == PassKey;
    assert body[1..12] == head[1..12];
    assert body[15 + n..26 + n] == mid[2..13];
    assert body[13 + n] == mid[0] && body[14 + n] == mid[1] && body[26 + n] == mid[13];
  }

  /** The username of a well-formed login body is read back. */
  lemma ParseLoginBodyUser(c: Credentials)
    requires '"' !in c.username
    ensures Find(LoginBody(c), UserKey, 0) == Some(1)
    ensures QuotedFrom(LoginBody(c), 12) == c.username
  {
    var body, n := LoginBody(c), |c.username|;
    LoginBodyLayout(c);
    assert IsAt(body, UserKey, 1);
    assert !IsAt(body, UserKey, 0) by { assert body[0..11][0] == '{'; }
    FindCharAt(body, '"', 12, 12);
    forall i | 13 <= i < 13 + n ensures body[i] != '"' {
      assert body[i] == body[13..13 + n][i - 13];
    }
    FindCharAt(body, '"', 13, 13 + n);
  }

  /** The password key does not start inside the `{"username":"` head of LoginBody. */
  lemma PassKeyNotInHead(c: Credentials, j: nat)
    requires j < 12 && j + 11 <= |LoginBody(c)|
    ensures !IsAt(LoginBody(c), PassKey, j)
  {
    var body := LoginBody(c);
    LoginBodyLayout(c);
    var w := body[j..j + 11];
    if j == 0 {
      assert w[0] == '{';
    } else if j == 1 || j == 10 {
      assert w[1] == body[j + 1] == body[1..12][j] == UserKey[j];
    } else {
      assert w[0] == body[j] == body[1..12][j - 1] == UserKey[j - 1];
    }
  }

  /** The password key does not start at the username's opening quote. */
  lemma PassKeyNotAtQuote(c: Credentials)
    requires '"' !in c.username && 23 <= |LoginBody(c)|
    ensures !IsAt(LoginBody(c), PassKey, 12)
  {
    var body, u, n := LoginBody(c), c.username, |c.username|;
    LoginBodyLayout(c);
    var w := body[12..23];
    if n >= 9 {
      assert w[9] == body[21] == body[13..13 + n][8] == u[8];
    } else if n == 8 {
      assert w[10] == body[22] == ',';
    } else {
      assert w[1 + n] == body[13 + n] == '"';
    }
  }

  /** The password key does not start inside the username or at the `",` after it. */
  lemma PassKeyNotInUser(c: Credentials, j: nat)
    requires '"' !in c.username
    requires 13 <= j < 15 + |c.username| && j + 11 <= |LoginBody(c)|
    ensures !IsAt(LoginBody(c), PassKey, j)
  {
    var body, u, n := LoginBody(c), c.username, |c.username|;
    LoginBodyLayout(c);
    var w := body[j..j + 11];
    if j < 13 + n {
      assert w[0] == body[j] == body[13..13 + n][j - 13] == u[j - 13];
    } else if j == 13 + n {
      assert w[1] == body[14 + n] == ',';
    } else {
      assert w[0] == body[14 + n] == ',';
    }
  }

  /** The first occurrence of the password key is the one LoginBody writes. */
  lemma PassKeyFirstAt(c: Credentials)
    requires '"' !in c.username
    ensures Find(LoginBody(c), PassKey, 0) == Some(15 + |c.username|)
  {
    var body, n := LoginBody(c), |c.username|;
    assert IsAt(body, PassKey, 15 + n) by { LoginBodyLayout(c); }
    forall j: nat | j < 15 + n && j + 11 <= |body|
      ensures !IsAt(body, PassKey, j)
    {
      if j < 12 {
        PassKeyNotInHead(c, j);
      } else if j == 12 {
        PassKeyNotAtQuote(c);
      } else {
        PassKeyNotInUser(c, j);
      }
    }
  }

  /** The password of a well-formed login body is read back. */
  lemma ParseLoginBodyPassword(c: Credentials)
    requires '"' !in c.username && '"' !in c.password
    ensures QuotedFrom(LoginBody(c), 25 + |c.username|) == c.password
  {
    var body, n, m := LoginBody(c), |c.username|, |c.password|;
    LoginBodyLayout(c);
    assert body[25 + n] == PassKey[10] == ':';
    FindCharAt(body, '"', 25 + n, 26 + n);
    forall i | 27 + n <= i < 27 + n + m ensures body[i] != '"' {
      assert body[i] == body[27 + n..27 + n + m][i - (27 + n)];
    }
    FindCharAt(body, '"', 27 + n, 27 + n + m);
  }

  /** The parser reads back any username and password that contain no quote. */
  lemma ParseLoginBody(c: Credentials)
    requires '"' !in c.username && '"' !in c.password
    ensures ParseCredentials(LoginBody(c)) == c
  {
    ParseLoginBodyUser(c);
    PassKeyFirstAt(c);
    ParseLoginBodyPassword(c);
  }

  predicate Matches(user: User, c: Credentials)
  {
    user.username == c.username && user.password == c.password
  }

  /** The index of the first user whose name and password are the given ones. */
  function FirstMatch(users: seq<User>, c: Credentials): (r: Option<nat>)
    ensures r.Some? ==> r.value < |users| && Matches(users[r.value], c)
    ensures forall k :: 0 <= k < |users| && (r.None? || k < r.value) ==> !Matches(users[k], c)
  {
    if users == [] then None
    else if Matches(users[0], c) then Some(0)
    else match FirstMatch(users[1..], c)
      case None => None
      case Some(i) => Some(i + 1)
  }

  /** The 200 answer of a login: a plain body and the token's Set-Cookie value. */
  function LoginSucceeded(token: string): (r: Response)
    ensures r.status == Ok && r.setCookie == Some(SetCookie(token)) && r.contentType.None?
  {
    Response(Ok, "Login successful. Session created.\n", Some(SetCookie(token)), None)
  }

  const InvalidCredentials := Plain(Unauthorized, "Invalid credentials\n")

  /**
    POST /login: success exactly when some user has the parsed name and
    password; then a session for the first such user is created under the
    token drawn from the two values and its Set-Cookie value is returned.
    Otherwise 401 and the table is untouched.
  */
  function LoginResult(m: Store, body: string, users: seq<User>, now: int, part1: uint64, part2: uint64)
    : (r: (Response, Store))
    ensures r.0.status == Ok || r.0 == InvalidCredentials
    ensures r.0.status == Ok <==> exists k :: 0 <= k < |users| && Matches(users[k], ParseCredentials(body))
    ensures r.0.status == Ok ==>
              && r.0.setCookie == Some(SetCookie(GenerateToken(part1, part2)))
              && exists k :: && 0 <= k < |users| && Matches(users[k], ParseCredentials(body))
                             && (forall j :: 0 <= j < k ==> !Matches(users[j], ParseCredentials(body)))
                             && r.1 == Create(m, GenerateToken(part1, part2), users[k].id, now)
    ensures r.0.status != Ok ==> r.1 == m
  {
    var c := ParseCredentials(body);
    match FirstMatch(users, c)
    case None => (InvalidCredentials, m)
    case Some(k) =>
      var token := GenerateToken(part1, part2);
      (LoginSucceeded(token), Create(m, token, users[k].id, now))
  }

  /** When the user at k is the first to match, login creates a session for that user. */
  lemma LoginResultAtMatch(m: Store, body: string, users: seq<User>, now: int, part1: uint64, part2: uint64, k: nat)
    requires k < |users| && Matches(users[k], ParseCredentials(body))
    requires forall j :: 0 <= j < k ==> !Matches(users[j], ParseCredentials(body))
    ensures LoginResult(m, body, users, now, part1, part2) ==
            (LoginSucceeded(GenerateToken(part1, part2)), Create(m, GenerateToken(part1, part2), users[k].id, now))
  {
    assert FirstMatch(users, ParseCredentials(body)) == Some(k);
  }

  /** When no user matches, login answers 401 and leaves the table alone. */
  lemma LoginResultNoMatch(m: Store, body: string, users: seq<User>, now: int, part1: uint64, part2: uint64)
    requires forall j :: 0 <= j < |users| ==> !Matches(users[j], ParseCredentials(body))
    ensures LoginResult(m, body, users, now, part1, part2) == (InvalidCredentials, m)
  {
    assert FirstMatch(users, ParseCredentials(body)) == None;
  }

  /**
    A body with no `"username":` or no `"password":` parses to empty
    credentials, so it logs in whichever user, if any, has an empty name and
    an empty password.
  */
  lemma MissingFieldsLogInEmptyUser(m: Store, body: string, users: seq<User>, now: int, part1: uint64, part2: uint64)
    requires !Occurs(body, UserKey)
    requires exists k :: 0 <= k < |users| && users[k].username == "" && users[k].password == ""
    ensures LoginResult(m, body, users, now, part1, part2).0.status == Ok
  {
    var k :| 0 <= k < |users| && users[k].username == "" && users[k].password == "";
    assert Matches(users[k], ParseCredentials(body));
  }

  // ---------------------------------------------------------------------
  // Profile and logout

  /** The JSON body of a profile: `{ "id": <id>, "username": "<name>" }`. */
  function ProfileBody(user: User): (b: string)
    ensures var digits, tail := IntToString(user.id as int), ", \"username\": \"" + user.username + "\" }";
            && |b| == 8 + |digits| + |tail|
            && IsAt(b, "{ \"id\": ", 0) && IsAt(b, digits, 8) && IsAt(b, tail, 8 + |digits|)
  {
    var digits, tail := IntToString(user.id as int), ", \"username\": \"" + user.username + "\" }";
    var b := "{ \"id\": " + digits + tail;
    assert b[..8] == "{ \"id\": " && b[8..8 + |digits|] == digits && b[8 + |digits|..] == tail;
    b
  }

  /**
    GET /profile: 401 without a session token in the cookie (the table is
    not consulted), 401 when the token does not validate, 404 when the
    session's user is not found (id 0), and otherwise 200 with that user as
    JSON. The table changes only by the validation of the token.
  */
  function ProfileResult(m: Store, cookie: Option<string>, now: int, users: seq<User>): (r: (Response, Store))
    ensures CookieToken(cookie).None? ==> r.0.status == Unauthorized && r.1 == m
    ensures CookieToken(cookie).Some? ==> r.1 == Validate(m, CookieToken(cookie).value, now).1
    ensures r.0.status == Ok <==>
              && CookieToken(cookie).Some? && IsLive(m, CookieToken(cookie).value, now)
              && GetUserById(users, m[CookieToken(cookie).value].userId).id != 0
    ensures r.0.status == NotFound <==>
              && CookieToken(cookie).Some? && IsLive(m, CookieToken(cookie).value, now)
              && GetUserById(users, m[CookieToken(cookie).value].userId).id == 0
    ensures r.0.status == Ok ==>
              var user := GetUserById(users, m[CookieToken(cookie).value].userId);
              && user in users && user.id == m[CookieToken(cookie).value].userId
              && r.0.body == ProfileBody(user) && r.0.contentType == Some("application/json")
  {
    if cookie.None? then (Plain(Unauthorized, "No session cookie found\n"), m)
    else match ExtractSessionId(cookie.value)
      case None => (Plain(Unauthorized, "Session cookie not found\n"), m)
      case Some(token) =>
        var (userId, m') := Validate(m, token, now);
        if userId.None? then (Plain(Unauthorized, "Invalid or expired session\n"), m')
        else
          var user := GetUserById(users, userId.value);
          if user.id == 0 then (Plain(NotFound, "User not found\n"), m')
          else (Response(Ok, ProfileBody(user), None, Some("application/json")), m')
  }

  /**
    POST /logout: 200 whenever the cookie carries a session token, live or
    not, after erasing it from the table; 401 otherwise, the table untouched.
  */
  function LogoutResult(m: Store, cookie: Option<string>): (r: (Response, Store))
    ensures r.0.status == Ok <==> CookieToken(cookie).Some?
    ensures r.0.status == Ok ==> r.0.body == "Logged out\n" && r.1 == Invalidate(m, CookieToken(cookie).value)
    ensures r.0.status != Ok ==> r.0.status == Unauthorized && r.1 == m
  {
    if cookie.None? then (Plain(Unauthorized, "No session cookie found\n"), m)
    else match ExtractSessionId(cookie.value)
      case None => (Plain(Unauthorized, "Session cookie not found\n"), m)
      case Some(token) => (Plain(Ok, "Logged out\n"), Invalidate(m, token))
  }

  /**
    A client that sends back the Set-Cookie value of a successful login
    within the hour is recognised by the profile route: the answer is not
    401.
  */
  lemma LoginThenProfile(m: Store, body: string, users: seq<User>, now: int, part1: uint64, part2: uint64, later: int)
    requires later < now + Ttl
    ensures var (res, m') := LoginResult(m, body, users, now, part1, part2);
            res.status == Ok ==> ProfileResult(m', res.setCookie, later, users).0.status != Unauthorized
  {
    var (res, m') := LoginResult(m, body, users, now, part1, part2);
    if res.status == Ok {
      var token := GenerateToken(part1, part2);
      TokenCookieRoundTrip(part1, part2);
      assert CookieToken(res.setCookie) == Some(token);
      assert IsLive(m', token, later);
    }
  }

  /** After a logout, the same cookie no longer opens the profile. */
  lemma LogoutThenProfile(m: Store, cookie: Option<string>, now: int, users: seq<User>)
    ensures ProfileResult(LogoutResult(m, cookie).1, cookie, now, users).0.status == Unauthorized
  {
  }

  // ---------------------------------------------------------------------
  // The handlers, over the shared session table

  /** `handleLogin`: the credential search over the user list, first match wins. */
  method HandleLogin(store: SessionManager, body: string, users: seq<User>, now: int, part1: uint64, part2: uint64)
    returns (res: Response)
    modifies store
    ensures match FirstMatch(users, ParseCredentials(body))
            case None => res == InvalidCredentials && store.sessions == old(store.sessions)
            case Some(k) =>
              && res == LoginSucceeded(GenerateToken(part1, part2))
              && store.sessions == Create(old(store.sessions), GenerateToken(part1, part2), users[k].id, now)
  {
    var c := ParseCredentials(body);
    var k := FindMatch(users, c);
    if k.None? {
      return InvalidCredentials;
    }
    var token := store.CreateSession(users[k.value].id, now, part1, part2);
    return LoginSucceeded(token);
  }

  /** The scan of the user table in `handleLogin`: the first row whose name and password match. */
  method FindMatch(users: seq<User>, c: Credentials) returns (k: Option<nat>)
    ensures k == FirstMatch(users, c)
  {
    for i := 0 to |users|
      invariant forall j :: 0 <= j < i ==> !Matches(users[j], c)
    {
      if users[i].username == c.username && users[i].password == c.password {
        assert FirstMatch(users, c) == Some(i);
        return Some(i);
      }
    }
    assert FirstMatch(users, c).None?;
    return None;
  }

  /** `handleProfile`. */
  method HandleProfile(store: SessionManager, cookie: Option<string>, now: int, users: seq<User>)
    returns (res: Response)
    modifies store
    ensures (res, store.sessions) == ProfileResult(old(store.sessions), cookie, now, users)
  {
    if cookie.None? {
      return Plain(Unauthorized, "No session cookie found\n");
    }
    var token := ExtractSessionId(cookie.value);
    if token.None? {
      return Plain(Unauthorized, "Session cookie not found\n");
    }
    var userId := store.ValidateSession(token.value, now);
    if userId.None? {
      return Plain(Unauthorized, "Invalid or expired session\n");
    }
    var user := GetUserById(users, userId.value);
    if user.id == 0 {
      return Plain(NotFound, "User not found\n");
    }
    return Response(Ok, ProfileBody(user), None, Some("application/json"));
  }

  /** `handleLogout`. */
  method HandleLogout(store: SessionManager, cookie: Option<string>) returns (res: Response)
    modifies store
    ensures (res, store.sessions) == LogoutResult(old(store.sessions), cookie)
  {
    if cookie.None? {
      return Plain(Unauthorized, "No session cookie found\n");
    }
    var token := ExtractSessionId(cookie.value);
    if token.None? {
      return Plain(Unauthorized, "Session cookie not found\n");
    }
    store.InvalidateSession(token.value);
    return Plain(Ok, "Logged out\n");
  }

  /** `handleRequest`: dispatch on method and target; anything else is 404. */
  method HandleRequest(store: SessionManager, req: Request, users: seq<User>, now: int, part1: uint64, part2: uint64)
    returns (res: Response)
    modifies store
    ensures match Route(req.verb, req.target)
            case Login => (res, store.sessions) == LoginResult(old(store.sessions), req.body, users, now, part1, part2)
            case Profile => (res, store.sessions) == ProfileResult(old(store.sessions), req.cookie, now, users)
            case Logout => (res, store.sessions) == LogoutResult(old(store.sessions), req.cookie)
            case NoRoute => res == Plain(NotFound, "Route not found") && store.sessions == old(store.sessions)
  {
    if req.verb == Post && req.target == "/login" {
      res := HandleLogin(store, req.body, users, now, part1, part2);
      match FirstMatch(users, ParseCredentials(req.body))
      case None =>
        LoginResultNoMatch(old(store.sessions), req.body, users, now, part1, part2);
      case Some(k) =>
        LoginResultAtMatch(old(store.sessions), req.body, users, now, part1, part2, k);
    } else if req.verb == Get && req.target == "/profile" {
      res := HandleProfile(store, req.cookie, now, users);
    } else if req.verb == Post && req.target == "/logout" {
      res := HandleLogout(store, req.cookie);
    } else {
      res := Plain(NotFound, "Route not found");
    }
  }
}
