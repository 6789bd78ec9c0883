/** The authentication store of the backend: a users table (username to
    password) and a tokens table (token to username), the three endpoints
    that act on them, and what they guarantee. The endpoints are modelled as
    functions from the old tables to a response and the new tables; HTTP
    exceptions become `Err` responses carrying their status and detail. */
module Auth {
  import opened Text

  datatype Option<T> = None | Some(value: T)

  /** A JSON body on success (the message or the token), or an
      `HTTPException` with its status code and detail text. */
  datatype Response = Ok(body: string) | Err(status: nat, detail: string)

  /** The two in-memory tables. */
  datatype Db = Db(users: map<string, string>, tokens: map<string, string>)

  /** What an endpoint answers and the tables it leaves behind. */
  datatype Outcome = Outcome(response: Response, db: Db)

  const Empty := Db(map[], map[])

  const UsernameTaken := "Username already exists"
  const Registered := "User registered successfully"
  const InvalidCredentials := "Invalid credentials"
  const MissingHeader := "Missing Authorization header"
  const InvalidToken := "Invalid token"
  const BearerPrefix := "Bearer "
  const TokenSuffix := "_token"

  /** The mock token handed out at login: the username reversed, then `_token`. */
  function Token(username: string): (t: string)
    ensures |t| == |username| + |TokenSuffix| && t[|username|..] == TokenSuffix
    ensures Reverse(t[..|username|]) == username
  {
    ReverseReverse(username);
    var t := Reverse(username) + TokenSuffix;
    assert t[..|username|] == Reverse(username);
    t
  }

  function Greeting(username: string): string
  {
    "Hello " + username + ", you have accessed a protected route!"
  }

  /** POST /register. */
  function Register(db: Db, username: string, password: string): (o: Outcome)
    ensures o.response.Ok? <==> username !in db.users
    ensures o.response.Err? ==> o.response.status == 400 && o.db == db
    ensures o.db.tokens == db.tokens
    ensures username in o.db.users && o.db.users.Keys == db.users.Keys + {username}
    ensures forall u :: u in db.users ==> o.db.users[u] == db.users[u]
  {
    if username in db.users then Outcome(Err(400, UsernameTaken), db)
    else Outcome(Ok(Registered), db.(users := db.users[username := password]))
  }

  /** POST /login. A missing user and an empty stored password are both
      "falsy" and fail like a wrong password. */
  function Login(db: Db, username: string, password: string): (o: Outcome)
    ensures o.db.users == db.users
    ensures o.response.Ok? ==> username in db.users && db.users[username] == password && password != ""
    ensures o.response.Err? ==> o.response.status == 401 && o.db == db
    ensures o.response.Ok? ==> o.db.tokens.Keys == db.tokens.Keys + {o.response.body}
    ensures o.response.Ok? ==> o.response.body == Token(username) && o.db.tokens[o.response.body] == username
  {
    var stored := if username in db.users then Some(db.users[username]) else None;
    if stored.None? || stored.value == "" || stored.value != password then
      Outcome(Err(401, InvalidCredentials), db)
    else
      var token := Token(username);
      Outcome(Ok(token), db.(tokens := db.tokens[token := username]))
  }

  /** The user a token stands for, if it stands for a non-empty username. */
  function Lookup(db: Db, token: string): (r: Response)
    ensures r.Ok? <==> token in db.tokens && db.tokens[token] != ""
    ensures r.Ok? ==> r.body == Greeting(db.tokens[token])
    ensures r.Err? ==> r.status == 401
  {
    if token !in db.tokens || db.tokens[token] == "" then Err(401, InvalidToken)
    else Ok(Greeting(db.tokens[token]))
  }

  /** GET /protected as written: every occurrence of "Bearer " is removed
      from the header before the lookup. */
  function ProtectedAsWritten(db: Db, authorization: Option<string>): (r: Response)
    ensures r.Err? ==> r.status == 401
    ensures r.Ok? ==> authorization.Some? && authorization.value != ""
    ensures r.Ok? ==> exists t :: t in db.tokens && db.tokens[t] != "" && r.body == Greeting(db.tokens[t])
  {
    if authorization.None? || authorization.value == "" then Err(401, MissingHeader)
    else Lookup(db, RemoveAll(authorization.value, BearerPrefix))
  }

  /** GET /protected with only a leading "Bearer " removed. */
  function Protected(db: Db, authorization: Option<string>): (r: Response)
    ensures r.Err? ==> r.status == 401
    ensures r.Ok? ==> authorization.Some? && authorization.value != ""
    ensures r.Ok? ==> exists t :: t in db.tokens && db.tokens[t] != "" && r.body == Greeting(db.tokens[t])
  {
    if authorization.None? || authorization.value == "" then Err(401, MissingHeader)
    else Lookup(db, StripPrefix(authorization.value, BearerPrefix))
  }

  /** Every token names a registered user and is the token derived from
      that user's name. */
  predicate Consistent(db: Db)
  {
    forall t :: t in db.tokens ==> db.tokens[t] in db.users && t == Token(db.tokens[t])
  }

  // ---------------------------------------------------------------------
  // Tokens

  /** A token determines the username it was derived from. */
  lemma TokenInjective(u: string, v: string)
    ensures Token(u) == Token(v) <==> u == v
  {
    if Token(u) == Token(v) {
      assert Reverse(u) == Token(u)[..|u|];
      assert Reverse(v) == Token(v)[..|v|];
      ReverseInjective(u, v);
    }
  }

  /** In a consistent store no two users share a token, and each token
      maps back to the user it was made for. */
  lemma ConsistentTokensInjective(db: Db, t1: string, t2: string)
    requires Consistent(db)
    requires t1 in db.tokens && t2 in db.tokens
    ensures db.tokens[t1] == db.tokens[t2] <==> t1 == t2
  {
  }

  // ---------------------------------------------------------------------
  // register

  lemma RegisterDuplicate(db: Db, username: string, password: string)
    requires username in db.users
    ensures Register(db, username, password) == Outcome(Err(400, UsernameTaken), db)
  {
  }

  lemma RegisterNew(db: Db, username: string, password: string)
    requires username !in db.users
    ensures var o := Register(db, username, password);
      && o.response == Ok(Registered)
      && o.db.users == db.users[username := password]
      && o.db.tokens == db.tokens
      && forall u :: u in db.users ==> u in o.db.users && o.db.users[u] == db.users[u]
  {
  }

  lemma RegisterKeepsConsistent(db: Db, username: string, password: string)
    requires Consistent(db)
    ensures Consistent(Register(db, username, password).db)
  {
  }

  // ---------------------------------------------------------------------
  // login

  /** Login fails, with 401 and no change, exactly when the user is unknown,
      the stored password is empty, or the password differs. */
  lemma LoginRejects(db: Db, username: string, password: string)
    ensures var o := Login(db, username, password);
      o.response.Err? <==> (username !in db.users || db.users[username] == "" || db.users[username] != password)
    ensures var o := Login(db, username, password);
      o.response.Err? ==> o == Outcome(Err(401, InvalidCredentials), db)
  {
  }

  /** A successful login answers the derived token, records it, and leaves
      the users table alone. */
  lemma LoginAccepts(db: Db, username: string, password: string)
    requires username in db.users && db.users[username] == password && password != ""
    ensures var o := Login(db, username, password);
      && o.response == Ok(Reverse(username) + "_token")
      && o.db.users == db.users
      && o.db.tokens == db.tokens[Token(username) := username]
  {
  }

  /** A user registered with an empty password can never log in. */
  lemma EmptyPasswordNeverLogsIn(db: Db, username: string, password: string)
    requires username in db.users && db.users[username] == ""
    ensures Login(db, username, password) == Outcome(Err(401, InvalidCredentials), db)
  {
  }

  /** Logging in again answers the same token and changes nothing more. */
  lemma LoginIdempotent(db: Db, username: string, password: string)
    requires Login(db, username, password).response.Ok?
    ensures var first := Login(db, username, password);
      Login(first.db, username, password) == first
  {
    var first := Login(db, username, password);
    var t := Token(username);
    assert first.db.tokens[t := username] == first.db.tokens;
  }

  lemma LoginKeepsConsistent(db: Db, username: string, password: string)
    requires Consistent(db)
    ensures Consistent(Login(db, username, password).db)
  {
  }

  /** One register or login request. */
  datatype Call = RegisterCall(username: string, password: string) | LoginCall(username: string, password: string)

  function Run(db: Db, calls: seq<Call>): Db
    decreases |calls|
  {
    if calls == [] then db
    else
      var next := match calls[0]
        case RegisterCall(u, p) => Register(db, u, p).db
        case LoginCall(u, p) => Login(db, u, p).db;
      Run(next, calls[1..])
  }

  lemma {:induction false} RunKeepsConsistent(db: Db, calls: seq<Call>)
    requires Consistent(db)
    ensures Consistent(Run(db, calls))
    decreases |calls|
  {
    if calls != [] {
      match calls[0]
      case RegisterCall(u, p) =>
        RegisterKeepsConsistent(db, u, p);
        RunKeepsConsistent(Register(db, u, p).db, calls[1..]);
      case LoginCall(u, p) =>
        LoginKeepsConsistent(db, u, p);
        RunKeepsConsistent(Login(db, u, p).db, calls[1..]);
    }
  }

  /** Every store reached from the empty one by register and login calls is
      consistent. */
  lemma ReachableConsistent(calls: seq<Call>)
    ensures Consistent(Run(Empty, calls))
  {
    RunKeepsConsistent(Empty, calls);
  }

  // ---------------------------------------------------------------------
  // protected

  lemma ProtectedMissingHeader(db: Db, authorization: Option<string>)
    requires authorization == None || authorization == Some("")
    ensures ProtectedAsWritten(db, authorization) == Err(401, MissingHeader)
    ensures Protected(db, authorization) == Err(401, MissingHeader)
  {
  }

  /** As written, the header minus every "Bearer " is the token; the user is
      greeted exactly when that token maps to a non-empty username. */
  lemma ProtectedAsWrittenLooksUp(db: Db, header: string)
    requires header != ""
    ensures var t := RemoveAll(header, BearerPrefix);
      && (ProtectedAsWritten(db, Some(header)).Ok? <==> t in db.tokens && db.tokens[t] != "")
      && (t in db.tokens && db.tokens[t] != "" ==> ProtectedAsWritten(db, Some(header)) == Ok(Greeting(db.tokens[t])))
      && (!(t in db.tokens && db.tokens[t] != "") ==> ProtectedAsWritten(db, Some(header)) == Err(401, InvalidToken))
  {
  }

  /** As written, "Bearer " followed by a token that does not itself contain
      "Bearer " is looked up as that token. */
  lemma ProtectedAsWrittenBearer(db: Db, token: string)
    requires !Occurs(token, BearerPrefix)
    ensures ProtectedAsWritten(db, Some(BearerPrefix + token)) == Lookup(db, token)
  {
    RemoveAllPrefixOnly(BearerPrefix, token);
  }

  /** With the leading "Bearer " removed, the header's token is looked up as
      it is, whatever characters it holds. */
  lemma ProtectedBearer(db: Db, token: string)
    ensures Protected(db, Some(BearerPrefix + token)) == Lookup(db, token)
  {
    StripPrefixOf(BearerPrefix, token);
  }

  /** After a successful login the user reaches the protected route with
      the token they received, unless their username is empty. */
  lemma LoginThenProtected(db: Db, username: string, password: string)
    requires Login(db, username, password).response.Ok?
    ensures var o := Login(db, username, password);
      && o.response.body == Token(username)
      && Protected(o.db, Some(BearerPrefix + o.response.body))
         == if username == "" then Err(401, InvalidToken) else Ok(Greeting(username))
  {
    ProtectedBearer(Login(db, username, password).db, Token(username));
  }

  /** As written, the same round trip holds when the token does not itself
      contain "Bearer ". */
  lemma LoginThenProtectedAsWritten(db: Db, username: string, password: string)
    requires Login(db, username, password).response.Ok?
    requires !Occurs(Token(username), BearerPrefix)
    ensures var o := Login(db, username, password);
      ProtectedAsWritten(o.db, Some(BearerPrefix + o.response.body))
      == if username == "" then Err(401, InvalidToken) else Ok(Greeting(username))
  {
    ProtectedAsWrittenBearer(Login(db, username, password).db, Token(username));
  }

  /** The empty username can register and log in (its token is "_token"),
      yet its token is always refused at the protected route because the
      name it maps to is falsy. */
  lemma EmptyUsernameRefused(db: Db)
    requires Consistent(db)
    ensures Protected(db, Some(BearerPrefix + Token(""))) == Err(401, InvalidToken)
    ensures ProtectedAsWritten(db, Some(BearerPrefix + Token(""))) == Err(401, InvalidToken)
  {
    ProtectedBearer(db, Token(""));
    assert Token("") == TokenSuffix;
    assert !Occurs(TokenSuffix, BearerPrefix) by {
      forall i: nat | i <= |TokenSuffix| ensures !OccursAt(TokenSuffix, BearerPrefix, i) {
        if i == 0 {
          assert TokenSuffix[0] != BearerPrefix[0];
        }
      }
    }
    ProtectedAsWrittenBearer(db, Token(""));
    if Token("") in db.tokens {
      TokenInjective(db.tokens[Token("")], "");
    }
  }

  /** In a consistent store, presenting a user's token greets that user
      and nobody else. */
  lemma ProtectedGreetsOwner(db: Db, username: string)
    requires Consistent(db)
    ensures var r := Protected(db, Some(BearerPrefix + Token(username)));
      r == Err(401, InvalidToken) || r == Ok(Greeting(username))
  {
    ProtectedBearer(db, Token(username));
    var t := Token(username);
    if t in db.tokens {
      TokenInjective(db.tokens[t], username);
    }
  }

  // ---------------------------------------------------------------------
  // The header the frontend sends is "Bearer " + token. Removing every
  // "Bearer " also removes one that is part of the token, which happens
  // when the username ends in " reraeB".

  /** The store after "x" and "x reraeB" register and both log in. */
  const TwoUsers := [RegisterCall("x", "p"), RegisterCall("x reraeB", "q"),
                     LoginCall("x", "p"), LoginCall("x reraeB", "q")]

  lemma TwoUsersTokens()
    ensures Token("x") == "x_token"
    ensures Token("x reraeB") == BearerPrefix + "x_token"
  {
    ReverseConcat("x", " reraeB");
    assert "x" + " reraeB" == "x reraeB";
    assert Reverse(" reraeB") == BearerPrefix;
  }

  lemma TwoUsersRun()
    ensures Run(Empty, TwoUsers).tokens == map["x_token" := "x", BearerPrefix + "x_token" := "x reraeB"]
  {
    TwoUsersTokens();
    var db1 := Register(Empty, "x", "p").db;
    var db2 := Register(db1, "x reraeB", "q").db;
    var db3 := Login(db2, "x", "p").db;
    var db4 := Login(db3, "x reraeB", "q").db;
    assert db2.users == map["x" := "p", "x reraeB" := "q"] && db2.tokens == map[];
    assert db3.tokens == map["x_token" := "x"];
    assert db4.tokens == map["x_token" := "x", BearerPrefix + "x_token" := "x reraeB"];
    var rest := TwoUsers[1..];
    assert Run(Empty, TwoUsers) == Run(db1, rest);
    assert Run(db1, rest) == Run(db2, rest[1..]);
    assert Run(db2, rest[1..]) == Run(db3, rest[1..][1..]);
    assert rest[1..][1..][1..] == [];
    assert Run(db3, rest[1..][1..]) == db4;
  }

  /** "Bearer Bearer x_token" loses both "Bearer " occurrences. */
  lemma DoubleBearerStrips()
    ensures RemoveAll(BearerPrefix + (BearerPrefix + "x_token"), BearerPrefix) == "x_token"
  {
    RemoveAllLeading(BearerPrefix, BearerPrefix + "x_token");
    assert !Occurs("x_token", BearerPrefix) by {
      forall i: nat | i <= |"x_token"| ensures !OccursAt("x_token", BearerPrefix, i) {
        if i == 0 {
          assert "x_token"[0] != BearerPrefix[0];
        }
      }
    }
    RemoveAllPrefixOnly(BearerPrefix, "x_token");
  }

  /** As written: user "x reraeB" logs in, receives "Bearer x_token", sends
      "Bearer Bearer x_token", and is greeted as user "x". Removing only the
      leading "Bearer " greets "x reraeB". */
  lemma ProtectedAsWrittenImpersonates()
    ensures var db := Run(Empty, TwoUsers);
      && Consistent(db)
      && Token("x reraeB") in db.tokens
      && ProtectedAsWritten(db, Some(BearerPrefix + Token("x reraeB"))) == Ok(Greeting("x"))
      && Protected(db, Some(BearerPrefix + Token("x reraeB"))) == Ok(Greeting("x reraeB"))
  {
    ReachableConsistent(TwoUsers);
    TwoUsersTokens();
    TwoUsersRun();
    DoubleBearerStrips();
    ProtectedBearer(Run(Empty, TwoUsers), Token("x reraeB"));
  }
}
