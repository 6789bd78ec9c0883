/** The backend's module-level tables as one object whose register and login
    methods update its two maps in place. */
module Server {
  import opened Auth

  class AuthStore {
    /** `users_db`: username to password. */
    var users: map<string, string>
    /** `tokens_db`: token to username. */
    var tokens: map<string, string>

    function State(): Db
      reads this
    {
      Db(users, tokens)
    }

    ghost predicate Valid()
      reads this
    {
      Consistent(State())
    }

    /** Both tables start empty. */
    constructor ()
      ensures users == map[] && tokens == map[]
      ensures Valid()
    {
      users := map[];
      tokens := map[];
    }

    method Register(username: string, password: string) returns (r: Response)
      modifies this
      ensures username in old(users) ==> r == Err(400, UsernameTaken) && users == old(users)
      ensures username !in old(users) ==> r == Ok(Registered) && users == old(users)[username := password]
      ensures tokens == old(tokens)
      ensures Outcome(r, State()) == Auth.Register(old(State()), username, password)
      ensures old(Valid()) ==> Valid()
    {
      if username in users {
        return Err(400, UsernameTaken);
      }
      users := users[username := password];
      r := Ok(Registered);
    }

    method Login(username: string, password: string) returns (r: Response)
      modifies this
      ensures users == old(users)
      ensures r.Err? <==> username !in users || users[username] == "" || users[username] != password
      ensures r.Err? ==> r == Err(401, InvalidCredentials) && tokens == old(tokens)
      ensures r.Ok? ==> r == Ok(Token(username)) && tokens == old(tokens)[Token(username) := username]
      ensures Outcome(r, State()) == Auth.Login(old(State()), username, password)
      ensures old(Valid()) ==> Valid()
    {
      var stored := if username in users then Some(users[username]) else None;
      if stored.None? || stored.value == "" || stored.value != password {
        return Err(401, InvalidCredentials);
      }
      var token := Token(username);
      tokens := tokens[token := username];
      r := Ok(token);
    }
  }
}
