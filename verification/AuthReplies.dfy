/** What callers of the API see of key changes and of the key cache, over whole runs (api/db.js,
    api/middleware.js `requireApiKey`, api/services/accounts.js). */
module AuthReplies {
  import opened Rows
  import opened AuthCache

  /** The reply to `key` after the operations `run`. */
  function ReplyAfter(users: map<UserId, Account>, run: seq<Op>, key: string, now: int, cs: seq<UserId>): Reply {
    Do(After(State(users, map[]), run), Authenticate(key, now, cs)).1
  }

  /** The operation is about account `u`. */
  predicate Touches(op: Op, u: UserId) { !op.Authenticate? && !op.CreateAccount? && op.user == u }

  ghost predicate Untouched(run: seq<Op>, from: nat, u: UserId) {
    forall j :: from <= j < |run| ==> !Touches(run[j], u)
  }

  lemma UsersStep(users: map<UserId, Account>, run: seq<Op>, n: nat)
    requires n < |run|
    ensures UsersAfter(users, run[..n + 1]) == Changed(UsersAfter(users, run[..n]), run[n])
    ensures After(State(users, map[]), run[..n + 1]) == Do(After(State(users, map[]), run[..n]), run[n]).0
  {
    assert run[..n + 1][..n] == run[..n];
  }

  lemma ChangedLeaves(users: map<UserId, Account>, op: Op, u: UserId)
    ensures u in users && !Touches(op, u) ==> u in Changed(users, op) && Changed(users, op)[u] == users[u]
    ensures u in users && op.SetDisabled? ==>
      u in Changed(users, op) && Changed(users, op)[u] == users[u].(disabled := Changed(users, op)[u].disabled)
  {}

  lemma {:induction false} UntouchedStays(users: map<UserId, Account>, run: seq<Op>, from: nat, n: nat, u: UserId)
    requires from <= n <= |run| && Untouched(run, from, u) && u in UsersAfter(users, run[..from])
    ensures var m := UsersAfter(users, run[..n]); u in m && m[u] == UsersAfter(users, run[..from])[u]
  {
    if from < n {
      UntouchedStays(users, run, from, n - 1, u);
      UsersStep(users, run, n - 1);
      ChangedLeaves(UsersAfter(users, run[..n - 1]), run[n - 1], u);
    }
  }

  /** From `from` on nothing is done to the account but switching it off and on. */
  ghost predicate OnlySwitched(run: seq<Op>, from: nat, u: UserId) {
    forall j :: from <= j < |run| && Touches(run[j], u) ==> run[j].SetDisabled?
  }

  lemma {:induction false} SwitchedStays(users: map<UserId, Account>, run: seq<Op>, from: nat, n: nat, u: UserId)
    requires from <= n <= |run| && OnlySwitched(run, from, u) && u in UsersAfter(users, run[..from])
    ensures var was, m := UsersAfter(users, run[..from])[u], UsersAfter(users, run[..n]);
      u in m && m[u].key == was.key && m[u].plan == was.plan
  {
    if from < n {
      SwitchedStays(users, run, from, n - 1, u);
      UsersStep(users, run, n - 1);
      ChangedLeaves(UsersAfter(users, run[..n - 1]), run[n - 1], u);
    }
  }

  /** What is asked of a run, so that `key` can be tried at its end and after its first `h` operations. */
  ghost predicate Tried(users: map<UserId, Account>, run: seq<Op>, h: nat, key: string, now: int, cs: seq<UserId>) {
    && h <= |run| && UniqueKeys(users) && AllAllowed(users, run)
    && Allowed(UsersAfter(users, run[..h]), Authenticate(key, now, cs))
  }

  ghost predicate OnlyHolder(users: map<UserId, Account>, key: string, who: set<UserId>) {
    forall v :: v in users && users[v].key == Some(key) ==> v in who
  }

  /** What a reply says of the accounts. */
  ghost predicate Says(users: map<UserId, Account>, key: string, r: Reply) {
    && (OnlyHolder(users, key, {}) ==> r == Rejected)
    && (r.Authorized? ==> r.id in users && users[r.id] == Account(Some(key), false, r.plan))
    && (r.Authorized? ==> OnlyHolder(users, key, {r.id}))
    && (forall u :: u in users && users[u].key == Some(key) ==>
          r == if users[u].disabled then Disabled else Authorized(u, users[u].plan))
  }

  lemma WorthSays(users: map<UserId, Account>, key: string)
    requires UniqueKeys(users)
    ensures Says(users, key, Worth(users, key))
  {}

  lemma TriedSays(users: map<UserId, Account>, run: seq<Op>, h: nat, key: string, now: int, cs: seq<UserId>)
    requires Tried(users, run, h, key, now, cs)
    ensures Says(UsersAfter(users, run[..h]), key, ReplyAfter(users, run[..h], key, now, cs))
  {
    assert forall i :: 0 <= i < h ==> run[..h][..i] == run[..i] && run[..h][i] == run[i];
    CacheStaysTrue(users, run[..h]);
    CacheIsInvisible(users, run[..h], key, now, cs);
    WorthSays(UsersAfter(users, run[..h]), key);
  }

  lemma SwitchedTo(users: map<UserId, Account>, run: seq<Op>, h: nat, i: nat, u: UserId, off: bool)
    requires h <= i < |run| && run[i] == SetDisabled(u, off) && OnlySwitched(run, h, u) && Untouched(run, i + 1, u)
    requires u in UsersAfter(users, run[..h])
    ensures var m := UsersAfter(users, run);
      u in m && m[u] == UsersAfter(users, run[..h])[u].(disabled := off)
  {
    SwitchedStays(users, run, h, i, u);
    UsersStep(users, run, i);
    UntouchedStays(users, run, i + 1, |run|, u);
    assert run[..|run|] == run;
  }

  /** A key that was accepted follows the switch of its account: refused as disabled from the moment it is
      switched off, accepted again from the moment it is switched on, cached or not. */
  lemma KeyFollowsSwitch(users: map<UserId, Account>, run: seq<Op>, h: nat, i: nat, u: UserId, plan: string, off: bool,
                         key: string, then_: int, cs: seq<UserId>, now: int, cs': seq<UserId>)
    requires Tried(users, run, h, key, then_, cs) && Tried(users, run, |run|, key, now, cs')
    requires ReplyAfter(users, run[..h], key, then_, cs) == Authorized(u, plan)
    requires h <= i < |run| && run[i] == SetDisabled(u, off) && OnlySwitched(run, h, u) && Untouched(run, i + 1, u)
    ensures ReplyAfter(users, run, key, now, cs') == if off then Disabled else Authorized(u, plan)
  {
    TriedSays(users, run, h, key, then_, cs);
    TriedSays(users, run, |run|, key, now, cs');
    SwitchedTo(users, run, h, i, u, off);
    assert run[..|run|] == run;
  }

  /** From `from` on nobody is given `key`. */
  ghost predicate NotMinted(run: seq<Op>, from: nat, key: string) {
    forall j :: from <= j < |run| && run[j].GenerateApiKey? ==> run[j].minted != key
  }

  lemma HoldersStep(users: map<UserId, Account>, op: Op, key: string, who: set<UserId>)
    requires OnlyHolder(users, key, who) && NotMinted([op], 0, key)
    ensures OnlyHolder(Changed(users, op), key, who)
    ensures op.GenerateApiKey? || op.DeleteAccount? ==> OnlyHolder(Changed(users, op), key, who - {op.user})
  {
    assert [op][0] == op;
  }

  lemma {:induction false} HoldersStay(users: map<UserId, Account>, run: seq<Op>, from: nat, n: nat, key: string,
                                       who: set<UserId>)
    requires from <= n <= |run| && NotMinted(run, from, key) && OnlyHolder(UsersAfter(users, run[..from]), key, who)
    ensures OnlyHolder(UsersAfter(users, run[..n]), key, who)
  {
    if from < n {
      HoldersStay(users, run, from, n - 1, key, who);
      UsersStep(users, run, n - 1);
      HoldersStep(UsersAfter(users, run[..n - 1]), run[n - 1], key, who);
    }
  }

  lemma HolderGoes(users: map<UserId, Account>, run: seq<Op>, h: nat, i: nat, u: UserId, key: string)
    requires h <= i < |run| && (run[i] == DeleteAccount(u) || (run[i].GenerateApiKey? && run[i].user == u))
    requires NotMinted(run, h, key) && OnlyHolder(UsersAfter(users, run[..h]), key, {u})
    ensures OnlyHolder(UsersAfter(users, run), key, {})
  {
    HoldersStay(users, run, h, i, key, {u});
    UsersStep(users, run, i);
    HoldersStep(UsersAfter(users, run[..i]), run[i], key, {u});
    assert {u} - {u} == {};
    HoldersStay(users, run, i + 1, |run|, key, {});
    assert run[..|run|] == run;
  }

  /** A key that was accepted is rejected for good once its account was given another or was deleted, unless the
      same key is minted again. */
  lemma OldKeyIsRejected(users: map<UserId, Account>, run: seq<Op>, h: nat, i: nat, u: UserId, plan: string,
                         key: string, then_: int, cs: seq<UserId>, now: int, cs': seq<UserId>)
    requires Tried(users, run, h, key, then_, cs) && Tried(users, run, |run|, key, now, cs')
    requires ReplyAfter(users, run[..h], key, then_, cs) == Authorized(u, plan)
    requires h <= i < |run| && (run[i] == DeleteAccount(u) || (run[i].GenerateApiKey? && run[i].user == u))
    requires NotMinted(run, h, key)
    ensures ReplyAfter(users, run, key, now, cs') == Rejected
  {
    TriedSays(users, run, h, key, then_, cs);
    TriedSays(users, run, |run|, key, now, cs');
    HolderGoes(users, run, h, i, u, key);
    assert run[..|run|] == run;
  }

  lemma KeyMinted(users: map<UserId, Account>, run: seq<Op>, h: nat, i: nat, u: UserId, minted: string)
    requires h <= i < |run| && run[i] == GenerateApiKey(u, minted)
    requires Untouched(run[..i], h, u) && Untouched(run, i + 1, u) && u in UsersAfter(users, run[..h])
    ensures var m := UsersAfter(users, run);
      u in m && m[u] == UsersAfter(users, run[..h])[u].(key := Some(minted))
  {
    assert run[..|run|] == run && run[..i][..h] == run[..h] && run[..i][..i] == run[..i];
    UntouchedStays(users, run[..i], h, i, u);
    UsersStep(users, run, i);
    UntouchedStays(users, run, i + 1, |run|, u);
  }

  /** The key a rotation mints is accepted from then on, on the account's plan. */
  lemma NewKeyIsAccepted(users: map<UserId, Account>, run: seq<Op>, h: nat, i: nat, u: UserId, plan: string,
                         old_: string,
                         then_: int, cs: seq<UserId>, minted: string, now: int, cs': seq<UserId>)
    requires Tried(users, run, h, old_, then_, cs) && Tried(users, run, |run|, minted, now, cs')
    requires ReplyAfter(users, run[..h], old_, then_, cs) == Authorized(u, plan)
    requires h <= i < |run| && run[i] == GenerateApiKey(u, minted)
    requires Untouched(run[..i], h, u) && Untouched(run, i + 1, u)
    ensures ReplyAfter(users, run, minted, now, cs') == Authorized(u, plan)
  {
    TriedSays(users, run, h, old_, then_, cs);
    TriedSays(users, run, |run|, minted, now, cs');
    KeyMinted(users, run, h, i, u, minted);
    assert run[..|run|] == run;
  }

  lemma {:induction false} AbsentStays(users: map<UserId, Account>, run: seq<Op>, n: nat, u: UserId)
    requires n <= |run| && u !in users
    requires forall j :: 0 <= j < n && run[j].CreateAccount? ==> run[j].user != u
    ensures u !in UsersAfter(users, run[..n])
  {
    if n > 0 {
      AbsentStays(users, run, n - 1, u);
      UsersStep(users, run, n - 1);
    }
  }

  lemma Created(users: map<UserId, Account>, run: seq<Op>, h: nat, u: UserId, plan: string)
    requires h < |run| && run[h] == CreateAccount(u, plan) && u !in users
    requires forall j :: 0 <= j < h && run[j].CreateAccount? ==> run[j].user != u
    ensures var m := UsersAfter(users, run[..h + 1]); u in m && m[u] == Account(None, false, plan)
  {
    AbsentStays(users, run, h, u);
    UsersStep(users, run, h);
  }

  /** The first key of a new account is accepted, on the plan it was created with. */
  lemma FirstKeyIsAccepted(users: map<UserId, Account>, run: seq<Op>, h: nat, i: nat, u: UserId, plan: string,
                           minted: string, now: int, cs: seq<UserId>)
    requires Tried(users, run, |run|, minted, now, cs) && u !in users
    requires h < i < |run| && run[h] == CreateAccount(u, plan) && run[i] == GenerateApiKey(u, minted)
    requires forall j :: 0 <= j < h && run[j].CreateAccount? ==> run[j].user != u
    requires Untouched(run[..i], h + 1, u) && Untouched(run, i + 1, u)
    ensures ReplyAfter(users, run, minted, now, cs) == Authorized(u, plan)
  {
    TriedSays(users, run, |run|, minted, now, cs);
    Created(users, run, h, u, plan);
    KeyMinted(users, run, h + 1, i, u, minted);
    assert run[..|run|] == run;
  }

  // ---- How long a reply stands in ----

  /** Operation `i` of the run authenticated `key` at `at` with reply `r`, and it needed the database: without
      candidates it would have failed. */
  ghost predicate AskedDatabase(users: map<UserId, Account>, run: seq<Op>, i: nat, key: string, at: int, r: Reply) {
    && i < |run| && run[i].Authenticate? && run[i].key == key && run[i].now == at
    && ReplyAfter(users, run[..i], key, at, run[i].candidates) == r
    && ReplyAfter(users, run[..i], key, at, []) == Rejected
  }

  ghost predicate Sourced(users: map<UserId, Account>, run: seq<Op>, key: string, e: Entry) {
    exists i: nat :: AskedDatabase(users, run, i, key, e.ts, Authorized(e.id, e.plan))
  }

  lemma AskedEarlier(users: map<UserId, Account>, run: seq<Op>, n: nat, i: nat, key: string, at: int, r: Reply)
    requires n <= |run| && AskedDatabase(users, run[..n], i, key, at, r)
    ensures AskedDatabase(users, run, i, key, at, r)
  {
    assert run[..n][..i] == run[..i];
  }

  /** A cache entry is an old one or the reply just given. */
  lemma NewEntry(st: State, op: Op, key: string)
    ensures var c := Do(st, op).0.cache;
      key in c && !(key in st.cache && st.cache[key] == c[key]) ==>
        && op.Authenticate? && op.key == key && op.now == c[key].ts
        && Do(st, op).1 == Authorized(c[key].id, c[key].plan)
        && Do(st, Authenticate(key, op.now, [])).1 == Rejected
  {}

  /** An entry goes only with a change of its account, or when a later authentication finds it expired. */
  lemma EntryStep(st: State, op: Op, key: string, e: Entry)
    ensures var c := Do(st, op).0.cache;
      (key in st.cache && st.cache[key] == e && !Touches(op, e.id)
       && (op.Authenticate? ==> op.now - e.ts <= 300_000)) ==> key in c && c[key] == e
  {}

  lemma {:induction false} EntriesAreSourced(users: map<UserId, Account>, run: seq<Op>, n: nat, key: string)
    requires n <= |run|
    ensures var c := After(State(users, map[]), run[..n]).cache; key in c ==> Sourced(users, run, key, c[key])
  {
    if n > 0 {
      EntriesAreSourced(users, run, n - 1, key);
      UsersStep(users, run, n - 1);
      var before, after := After(State(users, map[]), run[..n - 1]), After(State(users, map[]), run[..n]);
      NewEntry(before, run[n - 1], key);
      if key in after.cache && !(key in before.cache && after.cache[key] == before.cache[key]) {
        var e := after.cache[key];
        assert AskedDatabase(users, run, n - 1, key, e.ts, Authorized(e.id, e.plan));
      }
    }
  }

  /** A reply given without the database is one the database gave for the same key at most 300000 ms before. */
  lemma CachedReplyIsRecent(users: map<UserId, Account>, run: seq<Op>, key: string, now: int)
    ensures var r := ReplyAfter(users, run, key, now, []);
      r != Rejected ==> exists i: nat, at :: AskedDatabase(users, run, i, key, at, r) && now - at <= 300_000
  {
    EntriesAreSourced(users, run, |run|, key);
    assert run[..|run|] == run;
    var c := After(State(users, map[]), run).cache;
    if key in c && Sourced(users, run, key, c[key]) {
      var i: nat :| AskedDatabase(users, run, i, key, c[key].ts, Authorized(c[key].id, c[key].plan));
    }
  }

  ghost predicate HasEntry(users: map<UserId, Account>, run: seq<Op>, n: nat, key: string, e: Entry)
    requires n <= |run|
  {
    var c := After(State(users, map[]), run[..n]).cache;
    key in c && c[key] == e
  }

  lemma HasEntryStep(users: map<UserId, Account>, run: seq<Op>, n: nat, key: string, e: Entry)
    requires n < |run| && HasEntry(users, run, n, key, e) && !Touches(run[n], e.id)
    requires run[n].Authenticate? ==> run[n].now - e.ts <= 300_000
    ensures HasEntry(users, run, n + 1, key, e)
  {
    UsersStep(users, run, n);
    EntryStep(After(State(users, map[]), run[..n]), run[n], key, e);
  }

  lemma {:induction false} EntryStays(users: map<UserId, Account>, run: seq<Op>, from: nat, n: nat, key: string,
                                      e: Entry)
    requires from <= n <= |run| && Untouched(run, from, e.id)
    requires forall j :: from <= j < |run| && run[j].Authenticate? ==> run[j].now - e.ts <= 300_000
    requires HasEntry(users, run, from, key, e)
    ensures HasEntry(users, run, n, key, e)
  {
    if from < n {
      EntryStays(users, run, from, n - 1, key, e);
      HasEntryStep(users, run, n - 1, key, e);
    }
  }

  /** A reply of the database is repeated without it for the next 300000 ms, unless something is done to the
      account: the clock does not run past `now` meanwhile. */
  lemma RecentReplyIsCached(users: map<UserId, Account>, run: seq<Op>, i: nat, key: string, at: int, u: UserId,
                            plan: string, now: int)
    requires AskedDatabase(users, run, i, key, at, Authorized(u, plan)) && now - at <= 300_000
    requires Untouched(run, i + 1, u)
    requires forall j :: i < j < |run| && run[j].Authenticate? ==> run[j].now <= now
    ensures ReplyAfter(users, run, key, now, []) == Authorized(u, plan)
  {
    UsersStep(users, run, i);
    EntryStays(users, run, i + 1, |run|, key, Entry(u, plan, at));
    assert run[..|run|] == run;
  }
}
