# Session store and request handlers of a minimal authentication server

This project models, in Dafny, the core of a small C++ authentication
backend: the in-memory **session store** (`SessionManager`) that maps an
opaque token to the user it authenticates and the instant it expires, and
the **request handlers** that feed it (route dispatch, the naive login body
parser and credential search, the `sessionId` cookie parser, and the status
chosen by the profile and logout handlers).

- `wrappers.dfy` — `Option`, the `std::optional` / `npos` of the model.
- `hex.dfy` — fixed-width lower-case hexadecimal (`std::hex` with width 16
  and fill `'0'`) and its decoder, with both round trips proved.
- `text.dfy` — `std::string::find` as a total function returning an
  `Option`, and `std::to_string` for integers.
- `sessions.dfy` — the store: `SessionData`, the token format, the three
  operations as functions of the old table (`Create`, `Validate`,
  `Invalidate`), the class `SessionManager` whose methods update its
  `sessions` map in place and are proved equal to those functions, and
  lemmas about single operations and about whole histories of operations.
- `server.dfy` — requests and responses as records, `Route`, the cookie
  and body parsers, the first-match credential search, the result of each
  handler as a function of the old table (`LoginResult`, `ProfileResult`,
  `LogoutResult`), and the handler methods that call the store.

The clock is an explicit integer `now` (seconds; the one-hour lifetime is
`Ttl = 3600`). The random generator is the pair of 64-bit draws
`part1`, `part2` that a caller passes in. Every operation of the store holds
one mutex for its whole body, so it is modelled as one atomic step. The
session table is passed explicitly to the handlers in place of the
process-wide singleton. The users table is the list that `getAllUsers`
returns, and `getUserById` is a lookup in that same list.

In three places the code does less than one might expect. The model follows
the code:
- Tokens are not guaranteed unique. The code draws from `mt19937_64`, and a
  creation that draws a token already in the table overwrites that record
  (`Create` states this). What is proved is that different draws give
  different tokens (`GenerateTokenInjective`).
- The login parser reads the password from `passPos + 10` and the username
  from `userPos + 11`. Both are modelled as written. `ParseLoginBody` shows
  that a well-formed body still reads back correctly, because the character
  at `passPos + 10` is the key's `':'`.
- When no quote follows a key, `find(...) + 1` wraps `npos` round to 0 in
  `size_t`. `AfterQuote` models this wrap exactly.

## Model

| member | source | states |
|---|---|---|
| `Hex.HexDigits` | src/session_manager.cxx:60-62 | exactly n characters, each a lower-case hex digit |
| `Hex.ParseHex` | src/session_manager.cxx:60-62 | the value of an n-digit hex string is below 16^n |
| `Hex.ParseHexDigits` | src/session_manager.cxx:60-62 | decoding the zero-padded digits of x (x < 16^n) gives x back |
| `Hex.HexDigitsParse` | src/session_manager.cxx:60-62 | rendering the value of a hex string at its own width gives the same string back |
| `Hex.Hex16` | src/session_manager.cxx:61-62 | a 64-bit value is sixteen lower-case hex digits that decode to it |
| `Hex.DigitChar` | src/session_manager.cxx:61 | the digit written for a value below 16 is lower-case hex and decodes to that value |
| `Sessions.GenerateToken` | src/session_manager.cxx:53-65 | the token is 32 lower-case hex digits; the first 16 decode to the first draw, the last 16 to the second |
| `Sessions.GenerateTokenInjective` | src/session_manager.cxx:57-64 | equal tokens come only from equal pairs of draws |
| `Sessions.Create` | src/session_manager.cxx:17-29 | the token maps to `{userId, now + 1h}`, a previous record under it is replaced, every other record is unchanged |
| `Sessions.Validate` | src/session_manager.cxx:31-46 | a user is returned iff the token is present and `now < expiry`, and it is that record's user; an expired record is removed and nothing else changes |
| `Sessions.Invalidate` | src/session_manager.cxx:48-51 | the token is gone, every other record is unchanged |
| `Sessions.ValidateAbsent` | src/session_manager.cxx:34-35 | a token not in the table validates to none and leaves the table as it was |
| `Sessions.ValidateCreated` | src/session_manager.cxx:23-26 | a created session validates to its user before one hour after creation (so right after it) and to none from then on |
| `Sessions.NoResurrection` | src/session_manager.cxx:34-45 | after a validation answers none the token is absent, and any later validation, at any clock reading, answers none |
| `Sessions.InvalidateThenValidate` | src/session_manager.cxx:48-51 | invalidation is idempotent, and afterwards the token validates to none |
| `Sessions.StaysAbsent` | src/session_manager.cxx:17-51 | an absent token stays absent through any sequence of calls in which no creation draws that token |
| `Sessions.RunExpiresBy` | src/session_manager.cxx:23-26 | if no creation in a history reads the clock past t, every record afterwards expires by t + 1h, whatever clock the validations read |
| `Sessions.AllExpire` | src/session_manager.cxx:36-43 | one hour after the latest creation of any history from an empty table, no token validates |
| `Sessions.SessionManager.constructor` | include/session_manager.hxx:29-32 | the table starts empty |
| `Sessions.SessionManager.CreateSession` | include/session_manager.hxx:19-20 | returns the generated token, and the table becomes `Create` of the old table under that token |
| `Sessions.SessionManager.ValidateSession` | include/session_manager.hxx:22-23 | the result and the new table are those of `Validate` on the old table |
| `Sessions.SessionManager.InvalidateSession` | include/session_manager.hxx:25-26 | the new table is `Invalidate` of the old one |
| `Text.Find` | src/server.cxx:167 | the result is an occurrence at or after `from`, with no occurrence between `from` and it; none means no occurrence at or after `from` |
| `Text.FindOccurs` | src/server.cxx:168 | searching from the start succeeds iff the pattern occurs |
| `Text.DecimalDigit` | src/server.cxx:200 | the character written for a digit below 10 is a decimal digit of that value |
| `Text.NatToString` | src/server.cxx:200 | a non-empty string of decimal digits with no leading zero |
| `Text.ParseNatToString` | src/server.cxx:200 | the decimal digits written for n read back as n |
| `Text.IntToString` | src/server.cxx:200 | a '-' comes first exactly for negative numbers; the digits (after the '-', if any) are decimal and read back as the absolute value, so the string reads back as n; no leading zero after the sign |
| `Server.Route` | src/server.cxx:59-70 | POST /login, GET /profile, POST /logout go to their handlers, and exactly every other request gets no route |
| `Server.UpToSemicolon` | src/server.cxx:175-178 | the text from the position on contains no ';' and ends at the next ';' or at the end of the cookie |
| `Server.ExtractSessionId` | src/server.cxx:165-178 | a token is found iff `sessionId=` occurs; it contains no ';', starts right after the first `sessionId=` and ends at the next ';' or at the end |
| `Server.CookieRoundTrip` | src/server.cxx:166-178 | a ';'-free token after `sessionId=` and before nothing or a ';' is extracted unchanged |
| `Server.SetCookie` | src/server.cxx:132-133 | the value is `sessionId=`, then the token, then `; HttpOnly` |
| `Server.SetCookieRoundTrip` | src/server.cxx:132-133 | a token without ';' is extracted unchanged from its own Set-Cookie value |
| `Server.CookieToken` | src/server.cxx:157-173 | a token is found iff there is a Cookie header and it contains `sessionId=`; the token contains no ';' |
| `Server.TokenCookieRoundTrip` | src/server.cxx:132-133 | every generated token is extracted unchanged from the Set-Cookie value that carries it |
| `Server.AfterQuote` | src/server.cxx:108 | 0 iff no quote at or after `from` (`npos + 1` wraps); otherwise one past the first quote at or after `from`, with no quote between; never past the end |
| `Server.QuotedFrom` | src/server.cxx:108-110 | the text that starts right after `AfterQuote` and runs to the next quote or to the end of the body; it never contains a quote |
| `Server.ParseCredentials` | src/server.cxx:101-115 | both fields stay empty unless both keys occur; when both occur, the username is the quoted text read from the first `"username":` + 11 and the password the one read from the first `"password":` + 10; neither field contains a quote |
| `Server.ParseLoginBody` | src/server.cxx:103-115 | `{"username":"u","password":"p"}` parses to u and p when neither contains a quote |
| `Server.ParseLoginBodyUser` | src/server.cxx:108-110 | in a well-formed body the username key is first found at 1 and the quoted username reads back |
| `Server.ParseLoginBodyPassword` | src/server.cxx:112-114 | in a well-formed body the quoted password reads back from `passPos + 10` |
| `Server.PassKeyFirstAt` | src/server.cxx:104 | in a well-formed body the password key is first found where the body writes it |
| `Server.FirstMatch` | src/server.cxx:122-123 | the index of a user with both name and password equal, with no such user before it; none when no user has them |
| `Server.GetUserById` | src/database.cxx:57-83 | either the default user with id 0 or a user of the table with the requested id; when exactly one row has the id, that row; when two or more rows have it, the default user |
| `Server.UsersWithId` | src/database.cxx:68-73 | the rows are the users with that id, each as many times as in the table, and no other |
| `Server.UsersWithIdTwo` | src/database.cxx:73 | when two rows have the id, the query returns at least two rows, so `PQntuples(res) == 1` fails |
| `Server.UsersWithIdUnique` | src/database.cxx:73-76 | when exactly one row has the id, the query returns that row alone |
| `Server.LoginSucceeded` | src/server.cxx:131-134 | status 200 with the token's Set-Cookie value and no Content-Type |
| `Server.LoginResult` | src/server.cxx:117-147 | 200 iff some user has the parsed name and password; then the Set-Cookie carries the generated token and a session for the first such user is created; otherwise 401 "Invalid credentials" and the table is unchanged |
| `Server.LoginResultAtMatch` | src/server.cxx:122-138 | when the user at k is the first to match, the answer is the Set-Cookie response and a session for that user is created |
| `Server.LoginResultNoMatch` | src/server.cxx:143-147 | when no user matches, the answer is 401 "Invalid credentials" and the table is unchanged |
| `Server.MissingFieldsLogInEmptyUser` | src/server.cxx:101-105 | a body without `"username":` logs in a user whose name and password are empty |
| `Server.ProfileBody` | src/server.cxx:200-201 | `{ "id": `, the id as `IntToString` writes it (which reads back as the id), then `, "username": "`, the name and `" }`, laid out end to end |
| `Server.ProfileResult` | src/server.cxx:152-204 | 401 with the table unconsulted when there is no token in the cookie; 200 iff the token is live and its user is found, with that user's id and name as JSON; 404 iff live but the user lookup gives id 0; the table changes only by the validation |
| `Server.LogoutResult` | src/server.cxx:208-241 | 200 "Logged out" iff the cookie carries a token, live or not, which is then erased; otherwise 401 and the table is unchanged |
| `Server.LoginThenProfile` | src/server.cxx:127-133 | sending back the Set-Cookie value of a successful login within the hour is never answered 401 by the profile route |
| `Server.LogoutThenProfile` | src/server.cxx:230-235 | after a logout the same cookie gets 401 from the profile route |
| `Server.FindMatch` | src/server.cxx:122-123 | the loop over the users stops at the first one whose name and password match: the result is `FirstMatch` |
| `Server.HandleLogin` | src/server.cxx:96-148 | 401 "Invalid credentials" with the table unchanged when no user matches; otherwise the Set-Cookie response for the drawn token, and the table becomes `Create` of the old one for the first matching user |
| `Server.HandleProfile` | src/server.cxx:152-204 | the response and new table are those of `ProfileResult` |
| `Server.HandleLogout` | src/server.cxx:208-241 | the response and new table are those of `LogoutResult` |
| `Server.HandleRequest` | src/server.cxx:55-73 | each routed request gets its handler's response and table (for login, those of `LoginResult`); an unrouted one gets 404 "Route not found" and the table is unchanged |

## Left out

- Networking (`doRead`, `onRead`, `sendResponse`, `Server::doAccept`, socket shutdown) and HTTP framing (`prepare_payload`, header syntax). Requests and responses are plain records.
- The request method is reduced to GET, POST and "any other". The model assumes Beast's `req.find(field::cookie)` returns the value of the first Cookie header; that is the `cookie` field.
- The PostgreSQL access (`src/database.cxx`, `include/database.hxx`). `getAllUsers` is the input list of users. `getUserById` is a lookup in that list, and the model does not capture its SQL or connection errors (thrown exceptions).
- `src/main.cxx` (configuration and event loop), the logger, and `include/models/chat.hxx`. None of them holds logic of the core.
- The mutex. Each store operation is one atomic step because it holds the lock for its whole body. Interleavings are not modelled.
- The random generator (`mt19937_64` seeded by `random_device`) and its quality. The two draws are parameters, so unpredictability and uniqueness of tokens are not claimed.
- `std::chrono::system_clock`. Time points are unbounded integers in seconds, so overflow of `now + 1h` is not modelled, and neither is the clock's real resolution.
- The process-wide singleton `SessionManager::instance()`. The table is passed to the handlers explicitly.
