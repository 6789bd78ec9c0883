# fullstack-todo authentication store, in Dafny

The backend of fullstack-todo keeps two in-memory tables. `users_db` maps a
username to its password, and `tokens_db` maps a login token to a username.
Three endpoints act on them:

- `POST /register` adds a user unless the name is taken.
- `POST /login` checks the password. It then hands out a mock token (the
  username reversed, followed by `_token`) and records it.
- `GET /protected` takes the token from the `Authorization` header and
  greets its owner.

This project models that store and proves what the endpoints guarantee.

- `text.dfy` (module `Text`) holds the string operations the endpoints use:
  slice reversal `s[::-1]` (`Reverse`), `s.replace(p, "")` for a non-empty
  `p` (`RemoveAll`), and leading-prefix removal (`StripPrefix`).
- `auth.dfy` (module `Auth`) gives each endpoint as a function over the
  tables (`Db`). Register and login return an `Outcome`: the `Response`
  together with the new tables. The protected route only reads the tables
  and returns a bare `Response`. An
  `HTTPException` becomes `Err(status, detail)` with the source's status code
  and detail text. A success becomes `Ok(body)`, where `body` is the
  response's one field (the message or the token). `Consistent` is the
  invariant that links the two tables: every token maps to a registered user
  and is that user's derived token.
- `store.dfy` (module `Server`) is the imperative form. Class `AuthStore`
  holds the two maps as fields. Its `Register` and `Login` methods update
  them in place. Each method's postcondition gives the new maps and the
  response, ties them to the `Auth` function, and states that
  `Consistent` is preserved. `protected` only reads the tables. As
  written, it is `Auth.ProtectedAsWritten` applied to `AuthStore.State()`.
  `Auth.Protected` is the corrected route described under "## Findings".

Python's falsy checks are modelled exactly:

- A stored password of `""` never logs in (`Auth.EmptyPasswordNeverLogsIn`).
- A header of `""` counts as missing.
- A token that maps to the username `""` is refused as invalid
  (`Auth.EmptyUsernameRefused`).

## Model

| member | source | states |
|---|---|---|
| `Server.AuthStore.constructor` | fullstack-todo/backend/app.py:7-10 | both tables start empty, and the empty store is consistent |
| `Server.AuthStore.Register` | fullstack-todo/backend/app.py:26-31 | a taken name answers 400 "Username already exists" and leaves `users` as it was; a new name answers "User registered successfully" and sets `users[username] := password`; `tokens` never changes; the invariant is preserved |
| `Server.AuthStore.Login` | fullstack-todo/backend/app.py:34-42 | `users` never changes; the call fails exactly when the user is unknown, the stored password is empty or differs, and then answers 401 "Invalid credentials" and leaves `tokens` as it was; otherwise it answers the derived token and sets `tokens[token] := username`; the invariant is preserved |
| `Text.Reverse` | fullstack-todo/backend/app.py:40 | `s[::-1]`: the result has the length of `s` and holds its characters in reverse order, position by position |
| `Text.RemoveAll` | fullstack-todo/backend/app.py:49 | `s.replace(p, "")`, scanning left to right and dropping each non-overlapping `p`; never lengthens `s` and leaves a string shorter than `p` alone |
| `Text.ReverseReverse` | fullstack-todo/backend/app.py:40 | reversing twice gives back the original string |
| `Text.ReverseInjective` | fullstack-todo/backend/app.py:40 | two strings have the same reversal exactly when they are equal |
| `Text.ReverseConcat` | fullstack-todo/backend/app.py:40 | the reversal of `s + t` is the reversal of `t` followed by the reversal of `s` |
| `Text.RemoveAllAbsent` | fullstack-todo/backend/app.py:49 | `replace(p, "")` leaves a string without `p` unchanged |
| `Text.RemoveAllLength` | fullstack-todo/backend/app.py:49 | `replace(p, "")` strictly shortens a string in which `p` occurs |
| `Text.RemoveAllUnchangedIff` | fullstack-todo/backend/app.py:49 | `s.replace(p, "") == s` holds exactly when `p` does not occur in `s` |
| `Text.RemoveAllLeading` | fullstack-todo/backend/app.py:49 | a leading `p` is dropped and the scan resumes right after it |
| `Text.RemoveAllPrefixOnly` | fullstack-todo/backend/app.py:49 | `(p + t).replace(p, "") == t` when `t` does not contain `p` |
| `Text.StripPrefix` | fullstack-todo/backend/app.py:49 | the result with `p` put back in front is the input when the input starts with `p`, and is the input otherwise |
| `Text.StripPrefixOf` | fullstack-todo/backend/app.py:49 | removing the prefix `p` from `p + t` gives exactly `t`, whatever `t` holds |
| `Auth.Token` | fullstack-todo/backend/app.py:40 | the token is six characters longer than the username, ends in `_token`, and reversing its first characters (as many as the username has) gives back the username |
| `Auth.Register` | fullstack-todo/backend/app.py:26-31 | succeeds exactly when the name is new; a failure is status 400 and changes nothing; `tokens` is never touched; the name is present afterwards, exactly one key is added, and no existing user's password changes |
| `Auth.Login` | fullstack-todo/backend/app.py:34-42 | `users` is never touched; success needs a known user whose stored password is non-empty and equal to the one given; a failure is status 401 and changes nothing; a success answers the user's token, adds only that key and maps it to the user |
| `Auth.Lookup` | fullstack-todo/backend/app.py:50-53 | succeeds exactly when the token maps to a non-empty username, greeting that user; otherwise status 401 |
| `Auth.ProtectedAsWritten` | fullstack-todo/backend/app.py:45-53 | the route as written: every failure is status 401; a success needs a non-empty header and greets some non-empty username that a token maps to |
| `Auth.Protected` | fullstack-todo/backend/app.py:45-53 | the corrected route, removing only a leading "Bearer ": every failure is status 401; a success needs a non-empty header and greets some non-empty username that a token maps to |
| `Auth.TokenInjective` | fullstack-todo/backend/app.py:40 | two usernames get the same token exactly when they are equal, so distinct users never share a token |
| `Auth.ConsistentTokensInjective` | fullstack-todo/backend/app.py:40-41 | in a consistent store, two tokens name the same user exactly when they are the same token |
| `Auth.RegisterDuplicate` | fullstack-todo/backend/app.py:28-29 | registering a taken name answers 400 "Username already exists" and changes neither table |
| `Auth.RegisterNew` | fullstack-todo/backend/app.py:30-31 | registering a new name answers "User registered successfully", adds exactly that entry to `users`, keeps every other entry, and leaves `tokens` alone |
| `Auth.RegisterKeepsConsistent` | fullstack-todo/backend/app.py:30 | register preserves the invariant that links the two tables |
| `Auth.LoginRejects` | fullstack-todo/backend/app.py:36-38 | login fails exactly when the user is unknown, the stored password is empty or differs; a failure is 401 "Invalid credentials" and changes neither table |
| `Auth.LoginAccepts` | fullstack-todo/backend/app.py:39-42 | a matching non-empty password answers `reverse(username) + "_token"`, records that token for the user and leaves `users` alone |
| `Auth.EmptyPasswordNeverLogsIn` | fullstack-todo/backend/app.py:36-38 | a user whose stored password is empty fails every login with 401 |
| `Auth.LoginIdempotent` | fullstack-todo/backend/app.py:40-41 | repeating a successful login answers the same token and leaves both tables as the first login left them |
| `Auth.LoginKeepsConsistent` | fullstack-todo/backend/app.py:39-41 | login preserves the invariant that links the two tables |
| `Auth.RunKeepsConsistent` | fullstack-todo/backend/app.py:25-42 | any sequence of register and login calls preserves the invariant |
| `Auth.ReachableConsistent` | fullstack-todo/backend/app.py:7-10 | every store reached from the empty tables by register and login calls is consistent |
| `Auth.ProtectedMissingHeader` | fullstack-todo/backend/app.py:46-48 | an absent or empty header answers 401 "Missing Authorization header" |
| `Auth.ProtectedAsWrittenLooksUp` | fullstack-todo/backend/app.py:49-53 | for a non-empty header, the token is the header with every "Bearer " removed; the user is greeted with "Hello {u}, ..." exactly when that token maps to a non-empty username `u`, and otherwise the answer is 401 "Invalid token" |
| `Auth.ProtectedAsWrittenBearer` | fullstack-todo/backend/app.py:49-50 | as written, the header "Bearer " + `t` is looked up as `t` when `t` does not contain "Bearer " |
| `Auth.ProtectedBearer` | fullstack-todo/backend/app.py:49-50 | with only the leading "Bearer " removed, the header "Bearer " + `t` is looked up as `t` for every `t` |
| `Auth.LoginThenProtected` | fullstack-todo/backend/app.py:40-53 | on the corrected route, after a successful login, sending "Bearer " + the returned token greets the user, unless the username is empty |
| `Auth.LoginThenProtectedAsWritten` | fullstack-todo/backend/app.py:40-53 | on the route as written, the same round trip holds whenever the token does not itself contain "Bearer "; `Auth.ProtectedAsWrittenImpersonates` shows it can fail otherwise |
| `Auth.EmptyUsernameRefused` | fullstack-todo/backend/app.py:50-52 | in a consistent store, the empty username's token is always refused with 401 "Invalid token", on the route as written and on the corrected route |
| `Auth.ProtectedGreetsOwner` | fullstack-todo/backend/app.py:49-53 | in a consistent store, presenting user `u`'s token either greets `u` or answers 401 "Invalid token"; it never greets another user |
| `Auth.ProtectedAsWrittenImpersonates` | fullstack-todo/backend/app.py:49 | in the store reached by registering and logging in "x" and "x reraeB", the header for "x reraeB"'s token greets "x" as written, and "x reraeB" when only the prefix is removed |

## Findings

| source | as written | input that shows it | evidently intended | confidence | as-written member | corrected member |
|---|---|---|---|---|---|---|
| fullstack-todo/backend/app.py:49 | `authorization.replace("Bearer ", "")` removes every "Bearer " in the header, including one that belongs to the token | Register and log in "x" (password "p") and "x reraeB" (password "q"). The token of "x reraeB" is "Bearer x_token". The client sends "Bearer Bearer x_token", which reduces to "x_token", the token of "x". | remove only the leading "Bearer " scheme, so that a token is looked up as issued | medium; not executed | `Auth.ProtectedAsWrittenImpersonates` | `Auth.ProtectedGreetsOwner` |

`Auth.ProtectedAsWritten` models line 49 as written. `Auth.Protected` removes
only a leading "Bearer ", and the lemmas about the protected route use it.
The one exception is the lemmas whose names say "as written".

## Left out

- `home()` (fullstack-todo/backend/app.py:12-14) returns a constant message and touches no state.
- FastAPI routing, Pydantic validation of the request body, `Header` extraction and the HTTP transport are left out. Request fields arrive as plain strings, and exceptions are returned as `Err` values.
- Responses are reduced to their single field: the `message` or the `token` string.
- Concurrent requests are left out. FastAPI may run these synchronous handlers on several threads; the model runs calls one after another.
- `Text.RemoveAll` models `str.replace` only for a non-empty pattern. That is the only kind the backend uses; Python's behaviour for an empty pattern is not modelled.
- The frontend is left out: fullstack-todo/frontend/src/App.tsx and the pages Todos.tsx, Register.tsx, Login.tsx and Protected.tsx. It consists of HTTP calls, token storage in `localStorage`, routing and rendering. The only fact the model takes from it is that the client sends `Bearer ${token}` (Protected.tsx:21), the header that the protected-route lemmas use.
- The todo list is not modelled; the backend holds no todo state.
