/** API-key authentication with the five-minute key cache (api/db.js, api/middleware.js
    `requireApiKey`, api/services/accounts.js). Hashes are taken to be injective, so a key stands for its hash. */
module AuthCache {
  import opened Rows

  const AUTH_CACHE_TTL := 300_000

  datatype Account = Account(key: Option<string>, disabled: bool, plan: string)

  datatype Entry = Entry(id: UserId, plan: string, ts: int)

  datatype Reply = Authorized(id: UserId, plan: string) | Disabled | Rejected

  function Prefix(key: string): (p: string)
    ensures p <= key && |p| == if |key| < 8 then |key| else 8
  {
    if |key| <= 8 then key else key[..8]
  }

  /** The accounts the prefix index finds. */
  function Holders(users: map<UserId, Account>, prefix: string): set<UserId> {
    set u | u in users && users[u].key.Some? && Prefix(users[u].key.value) == prefix
  }

  /** A reply to `.eq("api_key_prefix", prefix).limit(5)`. */
  ghost predicate IsCandidates(users: map<UserId, Account>, prefix: string, cs: seq<UserId>) {
    && (forall i, j :: 0 <= i < j < |cs| ==> cs[i] != cs[j])
    && (forall c :: c in cs ==> c in Holders(users, prefix))
    && |cs| == (if |Holders(users, prefix)| < 5 then |Holders(users, prefix)| else 5)
  }

  ghost predicate UniqueKeys(users: map<UserId, Account>) {
    forall u, v :: u in users && v in users && users[u].key.Some? && users[u].key == users[v].key ==> u == v
  }

  /** What a key is worth: the account that holds it, whatever has been cached. */
  ghost function Worth(users: map<UserId, Account>, key: string): Reply {
    if u :| u in users && users[u].key == Some(key)
    then if users[u].disabled then Disabled else Authorized(u, users[u].plan)
    else Rejected
  }

  /** The comparison loop over the candidates. */
  function Compare(users: map<UserId, Account>, key: string, cs: seq<UserId>): Reply {
    if cs == [] then Rejected
    else if cs[0] in users && users[cs[0]].key == Some(key)
    then if users[cs[0]].disabled then Disabled else Authorized(cs[0], users[cs[0]].plan)
    else Compare(users, key, cs[1..])
  }

  lemma WorthOf(users: map<UserId, Account>, key: string, u: UserId)
    requires UniqueKeys(users) && u in users && users[u].key == Some(key)
    ensures Worth(users, key) == if users[u].disabled then Disabled else Authorized(u, users[u].plan)
  {}

  lemma {:induction false} CompareFinds(users: map<UserId, Account>, key: string, cs: seq<UserId>)
    requires UniqueKeys(users)
    ensures Compare(users, key, cs) ==
      if exists c :: c in cs && c in users && users[c].key == Some(key) then Worth(users, key) else Rejected
  {
    if cs != [] {
      assert cs == [cs[0]] + cs[1..];
      CompareFinds(users, key, cs[1..]);
      if cs[0] in users && users[cs[0]].key == Some(key) { WorthOf(users, key, cs[0]); }
    }
  }

  function Members(cs: seq<UserId>): set<UserId> { set c | c in cs }

  lemma CandidatesSize(cs: seq<UserId>)
    requires forall i, j :: 0 <= i < j < |cs| ==> cs[i] != cs[j]
    ensures |Members(cs)| == |cs|
  {
    if cs != [] {
      var init, last := cs[..|cs| - 1], cs[|cs| - 1];
      CandidatesSize(init);
      assert cs == init + [last] && last !in Members(init);
      assert Members(cs) == Members(init) + {last};
    }
  }

  lemma FewAreAllCandidates(users: map<UserId, Account>, prefix: string, cs: seq<UserId>)
    requires IsCandidates(users, prefix, cs) && |Holders(users, prefix)| <= 5
    ensures Members(cs) == Holders(users, prefix)
  {
    CandidatesSize(cs);
    var found, all := Members(cs), Holders(users, prefix);
    assert |all| == |cs|;
    assert found <= all && all == found + (all - found);
    assert |all| == |found| + |all - found|;
  }

  /** The lookup answers what the key is worth exactly when nobody holds the key or its
      holder is among the candidates; with at most five accounts under the prefix it always is. */
  lemma LookupIsCompleteExactly(users: map<UserId, Account>, key: string, cs: seq<UserId>)
    requires UniqueKeys(users) && IsCandidates(users, Prefix(key), cs)
    ensures Compare(users, key, cs) == Worth(users, key) <==>
      forall u :: u in users && users[u].key == Some(key) ==> u in cs
    ensures |Holders(users, Prefix(key))| <= 5 ==> Compare(users, key, cs) == Worth(users, key)
  {
    CompareFinds(users, key, cs);
    if u :| u in users && users[u].key == Some(key) {
      WorthOf(users, key, u);
      if |Holders(users, Prefix(key))| <= 5 {
        FewAreAllCandidates(users, Prefix(key), cs);
        assert u in Members(cs);
      }
    }
  }

  lemma {:induction false} PickFrom(from: set<UserId>, n: nat) returns (cs: seq<UserId>)
    requires |from| >= n
    ensures |cs| == n && (forall i, j :: 0 <= i < j < n ==> cs[i] != cs[j]) && forall c :: c in cs ==> c in from
  {
    cs := [];
    if n > 0 {
      var u :| u in from;
      cs := PickFrom(from - {u}, n - 1);
      assert forall i :: 0 <= i < |cs| ==> cs[i] in cs;
      cs := cs + [u];
    }
  }

  /** The five rows the index happens to return decide nothing exactly when the key is nobody's or at
      most five accounts share its prefix. */
  lemma EveryLookupIsCompleteExactly(users: map<UserId, Account>, key: string)
    requires UniqueKeys(users)
    ensures (forall cs :: IsCandidates(users, Prefix(key), cs) ==> Compare(users, key, cs) == Worth(users, key))
      <==> |Holders(users, Prefix(key))| <= 5 || forall u :: u in users ==> users[u].key != Some(key)
  {
    var all := Holders(users, Prefix(key));
    if |all| <= 5 || forall u :: u in users ==> users[u].key != Some(key) {
      forall cs | IsCandidates(users, Prefix(key), cs) ensures Compare(users, key, cs) == Worth(users, key) {
        LookupIsCompleteExactly(users, key, cs);
      }
    } else {
      var u :| u in users && users[u].key == Some(key);
      assert u in all && |all - {u}| == |all| - 1;
      var cs := PickFrom(all - {u}, 5);
      assert IsCandidates(users, Prefix(key), cs) && u !in cs;
      LookupIsCompleteExactly(users, key, cs);
    }
  }

  // ---- Operations ----

  datatype Op =
    | Authenticate(key: string, now: int, candidates: seq<UserId>)
    | CreateAccount(user: UserId, plan: string)
    | GenerateApiKey(user: UserId, minted: string)
    | SetDisabled(user: UserId, disabled: bool)
    | DeleteAccount(user: UserId)

  datatype State = State(users: map<UserId, Account>, cache: map<string, Entry>)

  function Invalidated(cache: map<string, Entry>, user: UserId): map<string, Entry> {
    map k | k in cache && cache[k].id != user :: cache[k]
  }

  function Changed(users: map<UserId, Account>, op: Op): map<UserId, Account> {
    match op
    case Authenticate(_, _, _) => users
    case CreateAccount(u, plan) => if u in users then users else users[u := Account(None, false, plan)]
    case GenerateApiKey(u, minted) => if u in users then users[u := users[u].(key := Some(minted))] else users
    case SetDisabled(u, d) => if u in users then users[u := users[u].(disabled := d)] else users
    case DeleteAccount(u) => users - {u}
  }

  /** An answer from the cache, if one is there and not expired. */
  function Hit(cache: map<string, Entry>, key: string, now: int): Option<Reply> {
    if key in cache && now - cache[key].ts <= AUTH_CACHE_TTL
    then Some(Authorized(cache[key].id, cache[key].plan)) else None
  }

  function Authenticated(st: State, key: string, now: int, cs: seq<UserId>): (State, Reply) {
    match Hit(st.cache, key, now)
    case Some(r) => (st, r)
    case None =>
      var swept, r := st.cache - {key}, Compare(st.users, key, cs);
      (st.(cache := if r.Authorized? then swept[key := Entry(r.id, r.plan, now)] else swept), r)
  }

  /** One operation with the cache. */
  function Do(st: State, op: Op): (State, Reply) {
    match op
    case Authenticate(key, now, cs) => Authenticated(st, key, now, cs)
    case CreateAccount(_, _) => (st.(users := Changed(st.users, op)), Rejected)
    case _ => (State(Changed(st.users, op), Invalidated(st.cache, op.user)), Rejected)
  }

  class Auth {
    var users: map<UserId, Account>
    var cache: map<string, Entry>

    ghost function Now(): State
      reads this
    {
      State(users, cache)
    }

    constructor ()
      ensures Now() == State(map[], map[])
    {
      users, cache := map[], map[];
    }

    method InvalidateAuthCache(user: UserId)
      modifies `cache
      ensures cache == Invalidated(old(cache), user)
    {
      var keys := cache.Keys;
      while keys != {}
        invariant keys <= old(cache).Keys
        invariant cache == map k | k in old(cache) && (k in keys || old(cache)[k].id != user) :: old(cache)[k]
        decreases |keys|
      {
        var k :| k in keys;
        if cache[k].id == user { cache := cache - {k}; }
        keys := keys - {k};
      }
    }

    method GetCachedUser(key: string, now: int) returns (hit: Option<Reply>)
      modifies `cache
      ensures hit == Hit(old(cache), key, now)
      ensures cache == if hit.Some? then old(cache) else old(cache) - {key}
    {
      if key !in cache { return None; }
      if now - cache[key].ts > AUTH_CACHE_TTL {
        cache := cache - {key};
        return None;
      }
      hit := Some(Authorized(cache[key].id, cache[key].plan));
    }

    /** `candidates` is the database's reply to the prefix query. */
    method RequireApiKey(key: string, now: int, candidates: seq<UserId>) returns (r: Reply)
      modifies `cache
      ensures (Now(), r) == Do(old(Now()), Authenticate(key, now, candidates))
    {
      var hit := GetCachedUser(key, now);
      if hit.Some? { return hit.value; }
      for i := 0 to |candidates|
        invariant cache == old(cache) - {key}
        invariant Compare(users, key, candidates[i..]) == Compare(users, key, candidates)
      {
        var u := candidates[i];
        assert candidates[i..][0] == u && candidates[i..][1..] == candidates[i + 1..];
        if u in users && users[u].key == Some(key) {
          if users[u].disabled { return Disabled; }
          cache := cache[key := Entry(u, users[u].plan, now)];
          return Authorized(u, users[u].plan);
        }
      }
      assert candidates[|candidates|..] == [];
      r := Rejected;
    }

    /** The cache is left alone: it cannot know an account that does not exist yet. */
    method CreateUser(user: UserId, plan: string) returns (ok: bool)
      modifies `users
      ensures ok == (user !in old(users))
      ensures Now() == Do(old(Now()), CreateAccount(user, plan)).0
    {
      ok := user !in users;
      if ok { users := users[user := Account(None, false, plan)]; }
    }

    method RotateKey(user: UserId, minted: string)
      modifies this
      ensures Now() == Do(old(Now()), GenerateApiKey(user, minted)).0
    {
      if user in users { users := users[user := users[user].(key := Some(minted))]; }
      InvalidateAuthCache(user);
    }

    method Disable(user: UserId, disabled: bool)
      modifies this
      ensures Now() == Do(old(Now()), SetDisabled(user, disabled)).0
    {
      if user in users { users := users[user := users[user].(disabled := disabled)]; }
      InvalidateAuthCache(user);
    }

    method Delete(user: UserId)
      modifies this
      ensures Now() == Do(old(Now()), DeleteAccount(user)).0
    {
      users := users - {user};
      InvalidateAuthCache(user);
    }
  }

  // ---- Runs ----

  /** Minted keys are new, and a lookup sees a reply of the database with at most five
      accounts under the prefix. */
  ghost predicate Allowed(users: map<UserId, Account>, op: Op) {
    match op
    case Authenticate(key, _, cs) => IsCandidates(users, Prefix(key), cs) && |Holders(users, Prefix(key))| <= 5
    case GenerateApiKey(_, minted) => forall u :: u in users ==> users[u].key != Some(minted)
    case _ => true
  }

  function UsersAfter(users: map<UserId, Account>, ops: seq<Op>): map<UserId, Account> {
    if ops == [] then users else Changed(UsersAfter(users, ops[..|ops| - 1]), ops[|ops| - 1])
  }

  function After(st: State, ops: seq<Op>): State {
    if ops == [] then st else Do(After(st, ops[..|ops| - 1]), ops[|ops| - 1]).0
  }

  ghost predicate AllAllowed(users: map<UserId, Account>, ops: seq<Op>) {
    forall i :: 0 <= i < |ops| ==> Allowed(UsersAfter(users, ops[..i]), ops[i])
  }

  /** Each cached key belongs to its account, which is enabled and on the cached plan. */
  ghost predicate CacheIsTrue(st: State) {
    forall k :: k in st.cache ==>
      && st.cache[k].id in st.users
      && st.users[st.cache[k].id] == Account(Some(k), false, st.cache[k].plan)
  }

  lemma AuthenticateKeepsCacheTrue(st: State, key: string, now: int, cs: seq<UserId>)
    requires UniqueKeys(st.users) && CacheIsTrue(st) && Allowed(st.users, Authenticate(key, now, cs))
    ensures var (st', r) := Authenticated(st, key, now, cs);
      st'.users == st.users && CacheIsTrue(st') && r == Worth(st.users, key)
  {
    LookupIsCompleteExactly(st.users, key, cs);
    if key in st.cache { WorthOf(st.users, key, st.cache[key].id); }
    if u :| u in st.users && st.users[u].key == Some(key) { WorthOf(st.users, key, u); }
  }

  lemma ChangeKeepsCacheTrue(st: State, op: Op)
    requires UniqueKeys(st.users) && CacheIsTrue(st) && Allowed(st.users, op) && !op.Authenticate?
    ensures var st' := Do(st, op).0;
      UniqueKeys(st'.users) && CacheIsTrue(st') && st'.users == Changed(st.users, op)
  {}

  lemma OpKeepsCacheTrue(st: State, op: Op)
    requires UniqueKeys(st.users) && CacheIsTrue(st) && Allowed(st.users, op)
    ensures var st' := Do(st, op).0;
      UniqueKeys(st'.users) && CacheIsTrue(st') && st'.users == Changed(st.users, op)
    ensures op.Authenticate? ==> Do(st, op).1 == Worth(st.users, op.key)
  {
    if op.Authenticate? {
      AuthenticateKeepsCacheTrue(st, op.key, op.now, op.candidates);
    } else {
      ChangeKeepsCacheTrue(st, op);
    }
  }

  lemma {:induction false} CacheStaysTrue(users: map<UserId, Account>, ops: seq<Op>)
    requires UniqueKeys(users) && AllAllowed(users, ops)
    ensures var st := After(State(users, map[]), ops);
      st.users == UsersAfter(users, ops) && UniqueKeys(st.users) && CacheIsTrue(st)
  {
    if ops != [] {
      var init := ops[..|ops| - 1];
      assert forall i :: 0 <= i < |init| ==> init[..i] == ops[..i] && init[i] == ops[i];
      CacheStaysTrue(users, init);
      assert Allowed(UsersAfter(users, ops[..|ops| - 1]), ops[|ops| - 1]);
      OpKeepsCacheTrue(After(State(users, map[]), init), ops[|ops| - 1]);
    }
  }

  /** After any run of authentications, key rotations, disables, enables, creations and deletions, at
      any times, an authentication answers what the key is worth at that moment. */
  lemma CacheIsInvisible(users: map<UserId, Account>, ops: seq<Op>, key: string, now: int, cs: seq<UserId>)
    requires UniqueKeys(users) && AllAllowed(users, ops)
    requires Allowed(UsersAfter(users, ops), Authenticate(key, now, cs))
    ensures Do(After(State(users, map[]), ops), Authenticate(key, now, cs)).1 == Worth(UsersAfter(users, ops), key)
  {
    CacheStaysTrue(users, ops);
    OpKeepsCacheTrue(After(State(users, map[]), ops), Authenticate(key, now, cs));
  }
}
