/** The auth slice of the Redux store. Browser `localStorage` is a map from
    key to text that each reducer takes and returns alongside the state. */
module AuthSlice {
  import opened Common

  type Storage = map<string, string>

  /** The text `JSON.stringify(null)` gives, which `JSON.parse` reads back as
      `null`. */
  const NullText: string := "null"

  /** The JSON text of a user object: non-empty, and never the text of
      `null`. */
  type JsonText = s: string | |s| > 0 && s != NullText witness "{}"

  /** The signed-in user, held as the JSON text that stores it: writing a user
      stores this text and reading the text back gives the same user. */
  datatype User = User(json: JsonText)

  /** `JSON.stringify(user)` for a user or `null`. */
  function Stringify(user: Option<User>): (text: string)
    ensures text != ""
    ensures text == NullText <==> user.None?
  {
    match user
    case None => NullText
    case Some(u) => u.json
  }

  datatype AuthState = AuthState(
    token: Option<string>,
    user: Option<User>,
    loading: bool,
    error: Option<string>)

  const TokenKey: string := "token"
  const UserKey: string := "user"

  /** `localStorage.getItem(key)`: `null` when the key is absent. */
  function GetItem(st: Storage, key: string): (v: Option<string>)
    ensures v.Some? <==> key in st
    ensures v.Some? ==> v.value == st[key]
  {
    if key in st then Some(st[key]) else None
  }

  /** The user the stored text describes: none when the entry is absent or
      empty (both falsy) or is the text of `null`, otherwise the parsed
      text. */
  function StoredUser(st: Storage): (u: Option<User>)
    ensures u.Some? <==> UserKey in st && st[UserKey] != "" && st[UserKey] != NullText
    ensures u.Some? ==> u.value.json == st[UserKey]
  {
    match GetItem(st, UserKey)
    case None => None
    case Some(text) => if text == "" || text == NullText then None else Some(User(text))
  }

  /** Reading back the stored text of a user or of `null` gives it back. */
  lemma StoredUserStringify(st: Storage, user: Option<User>)
    ensures StoredUser(st[UserKey := Stringify(user)]) == user
  {
  }

  /** The state and the storage tell the same story about who is signed in. */
  predicate Agrees(s: AuthState, st: Storage)
  {
    s.token == GetItem(st, TokenKey) && s.user == StoredUser(st)
  }

  /** The slice's initial state, read from storage when the store is created. */
  function InitialState(st: Storage): (s: AuthState)
    ensures !s.loading && s.error.None?
    ensures s.token.Some? <==> TokenKey in st
    ensures s.token.Some? ==> s.token.value == st[TokenKey]
    ensures UserKey !in st ==> s.user.None?
    ensures Agrees(s, st)
  {
    AuthState(GetItem(st, TokenKey), StoredUser(st), false, None)
  }

  /** `setCredentials({token, user})`: the new state and the new storage. */
  function SetCredentials(s: AuthState, st: Storage, token: string, user: Option<User>): (r: (AuthState, Storage))
    ensures r.0.token == Some(token) && r.0.user == user
    ensures r.0.loading == s.loading && r.0.error == s.error
    ensures GetItem(r.1, TokenKey) == Some(token)
    ensures user.Some? ==> GetItem(r.1, UserKey) == Option<string>.Some(user.value.json)
    ensures user.None? ==> GetItem(r.1, UserKey) == Some(NullText)
    ensures Agrees(r.0, r.1)
    ensures forall k :: k != TokenKey && k != UserKey ==> GetItem(r.1, k) == GetItem(st, k)
  {
    StoredUserStringify(st[TokenKey := token], user);
    (s.(token := Some(token), user := user), st[TokenKey := token][UserKey := Stringify(user)])
  }

  /** `logout()`: the new state and the new storage. */
  function Logout(s: AuthState, st: Storage): (r: (AuthState, Storage))
    ensures r.0.token.None? && r.0.user.None?
    ensures r.0.loading == s.loading && r.0.error == s.error
    ensures TokenKey !in r.1 && UserKey !in r.1
    ensures Agrees(r.0, r.1)
    ensures forall k :: k != TokenKey && k != UserKey ==> GetItem(r.1, k) == GetItem(st, k)
  {
    (s.(token := None, user := None), st - {TokenKey, UserKey})
  }

  /** Logging out twice is logging out once. */
  lemma LogoutIdempotent(s: AuthState, st: Storage)
    ensures var r := Logout(s, st);
            Logout(r.0, r.1) == r
  {
    var r := Logout(s, st);
    assert r.1 - {TokenKey, UserKey} == r.1;
  }

  /** Reloading after `setCredentials` restores the token and the user. */
  lemma ReloadAfterSetCredentials(s: AuthState, st: Storage, token: string, user: Option<User>)
    ensures var r := SetCredentials(s, st, token, user);
            InitialState(r.1).token == Some(token) && InitialState(r.1).user == user
  {
  }

  /** Reloading after `logout` starts signed out. */
  lemma ReloadAfterLogout(s: AuthState, st: Storage)
    ensures var r := Logout(s, st);
            InitialState(r.1).token.None? && InitialState(r.1).user.None?
  {
  }

  /** The two reducers as dispatchable actions. */
  datatype AuthAction = SetCredentialsAction(token: string, user: Option<User>) | LogoutAction

  function Step(r: (AuthState, Storage), a: AuthAction): (AuthState, Storage)
  {
    match a
    case SetCredentialsAction(token, user) => SetCredentials(r.0, r.1, token, user)
    case LogoutAction => Logout(r.0, r.1)
  }

  /** The state and storage after dispatching `actions` in order. */
  function Run(r: (AuthState, Storage), actions: seq<AuthAction>): (AuthState, Storage)
    decreases |actions|
  {
    if |actions| == 0 then r else Run(Step(r, actions[0]), actions[1..])
  }

  /** Any sequence of the two reducers keeps state and storage in agreement,
      and never touches `loading` or `error`. */
  lemma {:induction false} RunAgrees(r: (AuthState, Storage), actions: seq<AuthAction>)
    requires Agrees(r.0, r.1)
    ensures Agrees(Run(r, actions).0, Run(r, actions).1)
    ensures Run(r, actions).0.loading == r.0.loading && Run(r, actions).0.error == r.0.error
    decreases |actions|
  {
    if |actions| > 0 {
      RunAgrees(Step(r, actions[0]), actions[1..]);
    }
  }

  /** From a freshly loaded store, what a reload would read always matches the
      state in memory. */
  lemma ReloadMatchesState(st: Storage, actions: seq<AuthAction>)
    ensures var r := Run((InitialState(st), st), actions);
            InitialState(r.1) == r.0
  {
    RunAgrees((InitialState(st), st), actions);
  }
}
