/** `SessionManager.current_session`: the cookies, tokens and users collected
    during an attack run, and the exploit log kept under its metadata. The
    state is a value and every operation returns the next state.

    Time is a parameter: `now` stands for `datetime.now()` and every instant
    is a number of seconds. The JWT library that reads a token's `exp` claim
    is a parameter too: `exp` is what `jwt.decode(...).get('exp')` yields,
    `None` when the claim is absent or the token cannot be decoded. */
module Session {
  import opened Wrappers
  import opened Text
  import opened Search
  import opened OrderedMap

  type Instant = int

  datatype User = User(password: string, userId: Option<int>, token: Option<string>, createdAt: Instant)

  datatype TokenEntry = TokenEntry(token: string, addedAt: Instant, expiresAt: Option<Instant>)

  datatype Cookie = Cookie(value: string, domain: Option<string>, path: string,
                           expires: Option<Instant>, addedAt: Instant)

  datatype Exploit = Exploit(challenge: string, payload: string, success: bool,
                             timestamp: Instant, details: map<string, string>)

  datatype State = State(cookies: Dict<Cookie>, tokens: Dict<TokenEntry>, users: Dict<User>,
                         exploits: seq<Exploit>)

  predicate Valid(s: State) {
    OrderedMap.Valid(s.cookies) && OrderedMap.Valid(s.tokens) && OrderedMap.Valid(s.users)
  }

  /** The state `__init__` builds and `clear_session` restores. */
  function Fresh(): (s: State)
    ensures Valid(s)
    ensures s.cookies.keys == [] && s.tokens.keys == [] && s.users.keys == [] && s.exploits == []
  {
    State(Empty(), Empty(), Empty(), [])
  }

  /** `clear_session()`: the cookies, tokens, users and metadata become empty. */
  function ClearSession(s: State): (r: State)
    ensures Valid(r)
    ensures forall n :: Get(r.cookies, n).None? && Get(r.tokens, n).None? && Get(r.users, n).None?
    ensures r.exploits == []
  {
    Fresh()
  }

  /** The expiry `add_token` records: `if exp` treats a zero claim like a missing one. */
  function Expiry(exp: Option<Instant>): (r: Option<Instant>)
    ensures r.Some? <==> exp.Some? && exp.value != 0
    ensures r.Some? ==> r == exp
  {
    if exp.Some? && exp.value != 0 then exp else None
  }

  /** `add_token(identifier, token)`. */
  function AddToken(s: State, identifier: string, token: string, exp: Option<Instant>, now: Instant): (r: State)
    requires Valid(s)
    ensures Valid(r)
    ensures Get(r.tokens, identifier) == Some(TokenEntry(token, now, Expiry(exp)))
    ensures forall n :: n != identifier ==> Get(r.tokens, n) == Get(s.tokens, n)
    ensures r.cookies == s.cookies && r.users == s.users && r.exploits == s.exploits
  {
    s.(tokens := Put(s.tokens, identifier, TokenEntry(token, now, Expiry(exp))))
  }

  /** `get_token(identifier)` at time `now`. */
  function GetToken(s: State, identifier: string, now: Instant): (r: Option<string>)
    ensures Get(s.tokens, identifier).None? ==> r.None?
    ensures Get(s.tokens, identifier).Some? ==>
              var t := Get(s.tokens, identifier).value;
              (r.None? <==> t.expiresAt.Some? && now > t.expiresAt.value)
              && (r.Some? ==> r.value == t.token)
  {
    match Get(s.tokens, identifier)
    case None => None
    case Some(t) =>
      if t.expiresAt.Some? && now > t.expiresAt.value then None else Some(t.token)
  }

  /** A stored token is returned until its recorded expiry has passed, and
      forever when none was recorded. */
  lemma AddTokenThenGet(s: State, identifier: string, token: string, exp: Option<Instant>, now: Instant, later: Instant)
    requires Valid(s)
    ensures GetToken(AddToken(s, identifier, token, exp, now), identifier, later) ==
            if Expiry(exp).Some? && later > Expiry(exp).value then None else Some(token)
  {
  }

  /** `add_user(email, password, user_id, token)`. A token that is `None` or
      empty is not stored under the tokens. */
  function AddUser(s: State, email: string, password: string, userId: Option<int>, token: Option<string>,
                   exp: Option<Instant>, now: Instant): (r: State)
    requires Valid(s)
    ensures Valid(r)
    ensures Get(r.users, email) == Some(User(password, userId, token, now))
    ensures forall n :: n != email ==> Get(r.users, n) == Get(s.users, n)
    ensures token.Some? && token.value != "" ==>
              Get(r.tokens, email) == Some(TokenEntry(token.value, now, Expiry(exp)))
              && forall n :: n != email ==> Get(r.tokens, n) == Get(s.tokens, n)
    ensures token.None? || token.value == "" ==> r.tokens == s.tokens
    ensures r.cookies == s.cookies && r.exploits == s.exploits
  {
    var withUser := s.(users := Put(s.users, email, User(password, userId, token, now)));
    if token.Some? && token.value != "" then AddToken(withUser, email, token.value, exp, now)
    else withUser
  }

  /** `add_cookie(name, value, domain, path, expires)`. */
  function AddCookie(s: State, name: string, value: string, domain: Option<string>, path: string,
                     expires: Option<Instant>, now: Instant): (r: State)
    requires Valid(s)
    ensures Valid(r)
    ensures Get(r.cookies, name) == Some(Cookie(value, domain, path, expires, now))
    ensures forall n :: n != name ==> Get(r.cookies, n) == Get(s.cookies, n)
    ensures r.tokens == s.tokens && r.users == s.users && r.exploits == s.exploits
  {
    s.(cookies := Put(s.cookies, name, Cookie(value, domain, path, expires, now)))
  }

  /** `get_cookie(name)`: the value of the stored cookie. */
  function GetCookie(s: State, name: string): (r: Option<string>)
    ensures r.Some? <==> Get(s.cookies, name).Some?
    ensures r.Some? ==> r.value == Get(s.cookies, name).value.value
  {
    match Get(s.cookies, name)
    case None => None
    case Some(c) => Some(c.value)
  }

  /** `get_cookies()`: the whole cookie dictionary, whose values `get_cookie`
      reads one at a time. */
  function GetCookies(s: State): (r: Dict<Cookie>)
    requires Valid(s)
    ensures OrderedMap.Valid(r)
    ensures forall n :: (GetCookie(s, n).Some? <==> n in r.keys)
    ensures forall n :: n in r.keys ==> GetCookie(s, n) == Some(r.entries[n].value)
  {
    s.cookies
  }

  /** After `add_cookie(n, v, ...)`, `get_cookie(n)` is `v` and every other
      cookie reads as before. */
  lemma AddCookieThenGet(s: State, name: string, value: string, domain: Option<string>, path: string,
                         expires: Option<Instant>, now: Instant, other: string)
    requires Valid(s)
    ensures GetCookie(AddCookie(s, name, value, domain, path, expires, now), name) == Some(value)
    ensures other != name ==>
              GetCookie(AddCookie(s, name, value, domain, path, expires, now), other) == GetCookie(s, other)
  {
  }

  /** A cleared session forgets every cookie and token. */
  lemma ClearForgets(s: State, name: string, now: Instant)
    ensures GetCookie(ClearSession(s), name).None?
    ensures GetToken(ClearSession(s), name, now).None?
    ensures GetExploitHistory(ClearSession(s), Some(name)) == []
    ensures GetAdminCredentials(ClearSession(s)) == DefaultAdmins[0]
  {
  }

  datatype Credentials = Credentials(email: string, password: string)

  /** `default_admins`, in order. */
  const DefaultAdmins: seq<Credentials> := [
    Credentials("admin@juice-sh.op", "admin123"),
    Credentials("admin@juice-sh.op", "admin"),
    Credentials("admin@juice-sh.op", "0192023a7bbd73250516f069df18b500")
  ]

  predicate IsAdminEmail(email: string) {
    Contains(Lower(email), "admin")
  }

  /** `get_admin_credentials()`: the first stored user, in insertion order,
      whose lower-cased email contains "admin"; otherwise the first default. */
  function GetAdminCredentials(s: State): (r: Credentials)
    requires Valid(s)
    ensures (forall i :: 0 <= i < |s.users.keys| ==> !IsAdminEmail(s.users.keys[i])) ==> r == DefaultAdmins[0]
    ensures forall i ::
              (0 <= i < |s.users.keys| && IsAdminEmail(s.users.keys[i])
               && forall j :: 0 <= j < i ==> !IsAdminEmail(s.users.keys[j]))
              ==> r == Credentials(s.users.keys[i], s.users.entries[s.users.keys[i]].password)
  {
    match FirstMatch(s.users.keys, IsAdminEmail)
    case None => DefaultAdmins[0]
    case Some(email) => Credentials(email, s.users.entries[email].password)
  }

  /** Re-adding a stored user keeps its place: with the first admin user
      written again, it is still the one reported, with its new password. */
  lemma ReAddKeepsAdmin(s: State, password: string, userId: Option<int>, token: Option<string>,
                        exp: Option<Instant>, now: Instant, i: nat)
    requires Valid(s) && i < |s.users.keys|
    requires IsAdminEmail(s.users.keys[i]) && forall j :: 0 <= j < i ==> !IsAdminEmail(s.users.keys[j])
    ensures var r := AddUser(s, s.users.keys[i], password, userId, token, exp, now);
            GetAdminCredentials(r) == Credentials(s.users.keys[i], password)
  {
    var email := s.users.keys[i];
    var r := AddUser(s, email, password, userId, token, exp, now);
    assert r.users.keys == s.users.keys;
    assert r.users.entries[email] == User(password, userId, token, now);
  }

  /** A new admin user added after users without "admin" becomes the one reported. */
  lemma NewAdminReported(s: State, email: string, password: string, userId: Option<int>, token: Option<string>,
                         exp: Option<Instant>, now: Instant)
    requires Valid(s) && email !in s.users.keys && IsAdminEmail(email)
    requires forall j :: 0 <= j < |s.users.keys| ==> !IsAdminEmail(s.users.keys[j])
    ensures GetAdminCredentials(AddUser(s, email, password, userId, token, exp, now)) == Credentials(email, password)
  {
    var r := AddUser(s, email, password, userId, token, exp, now);
    var n := |s.users.keys|;
    assert r.users.keys == s.users.keys + [email];
    assert r.users.keys[n] == email;
    assert forall j :: 0 <= j < n ==> r.users.keys[j] == s.users.keys[j];
  }

  /** `save_exploit_result(challenge, payload, success, details)`;
      `details or {}` makes a missing dictionary an empty one. */
  function SaveExploit(s: State, challenge: string, payload: string, success: bool,
                       details: Option<map<string, string>>, now: Instant): (r: State)
    ensures |r.exploits| == |s.exploits| + 1
    ensures r.exploits[..|s.exploits|] == s.exploits
    ensures r.exploits[|s.exploits|] == Exploit(challenge, payload, success, now, details.GetOr(map[]))
    ensures r.cookies == s.cookies && r.tokens == s.tokens && r.users == s.users
  {
    var entry := Exploit(challenge, payload, success, now, details.GetOr(map[]));
    s.(exploits := s.exploits + [entry])
  }

  /** `[e for e in exploits if e['challenge'] == challenge]`. */
  function Filter(xs: seq<Exploit>, challenge: string): (r: seq<Exploit>)
    ensures |r| <= |xs|
    ensures forall e :: e in r <==> e in xs && e.challenge == challenge
  {
    if |xs| == 0 then []
    else
      var rest := Filter(xs[..|xs| - 1], challenge);
      assert forall e :: e in xs <==> e in xs[..|xs| - 1] || e == xs[|xs| - 1];
      if xs[|xs| - 1].challenge == challenge then rest + [xs[|xs| - 1]] else rest
  }

  /** `get_exploit_history(challenge)`: everything when `challenge` is `None`
      or empty, otherwise the entries for that challenge in the order saved. */
  function GetExploitHistory(s: State, challenge: Option<string>): (r: seq<Exploit>)
    ensures challenge.None? || challenge.value == "" ==> r == s.exploits
    ensures challenge.Some? && challenge.value != "" ==>
              forall e :: e in r <==> e in s.exploits && e.challenge == challenge.value
  {
    if challenge.Some? && challenge.value != "" then Filter(s.exploits, challenge.value) else s.exploits
  }

  /** Saving a result appends it to the history of its own challenge and
      leaves every other challenge's history as it was. */
  lemma SaveThenHistory(s: State, challenge: string, payload: string, success: bool,
                        details: Option<map<string, string>>, now: Instant, query: string)
    requires query != ""
    ensures var r := SaveExploit(s, challenge, payload, success, details, now);
            GetExploitHistory(r, Some(query)) ==
            GetExploitHistory(s, Some(query))
            + (if challenge == query then [r.exploits[|s.exploits|]] else [])
  {
    var r := SaveExploit(s, challenge, payload, success, details, now);
    assert r.exploits[..|r.exploits| - 1] == s.exploits;
  }

  /** The filtered history keeps the saved order: it is the saved entries
      with the others removed. */
  lemma {:induction false} FilterKeepsOrder(xs: seq<Exploit>, ys: seq<Exploit>, challenge: string)
    ensures Filter(xs + ys, challenge) == Filter(xs, challenge) + Filter(ys, challenge)
    decreases |ys|
  {
    if |ys| == 0 {
      assert xs + ys == xs;
    } else {
      var zs := xs + ys;
      assert zs[..|zs| - 1] == xs + ys[..|ys| - 1];
      assert zs[|zs| - 1] == ys[|ys| - 1];
      FilterKeepsOrder(xs, ys[..|ys| - 1], challenge);
    }
  }
}
