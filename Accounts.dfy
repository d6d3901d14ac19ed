/**
  The account merge of the events route: the Google accounts stored for the
  user and the ones carried by the session are merged into one entry per
  account id, each entry's access token is refreshed when it is about to
  expire, and entries left without an access token are dropped.
 */
module Accounts {
  import opened Wrappers

  datatype Source = Db | Session

  /** One linked Google account; `expires` is `accessTokenExpires` in epoch milliseconds. */
  datatype Account = Account(
    accountId: string,
    email: Option<string>,
    accessToken: Option<string>,
    refreshToken: Option<string>,
    expires: Option<int>,
    source: Source)

  /** What a token refresh that succeeds returns. */
  datatype Refreshed = Refreshed(accessToken: Option<string>, expiresAtMs: int, refreshToken: Option<string>)

  /** An account handed to the calendar reads; it always has an access token. */
  datatype Usable = Usable(
    accountId: string,
    email: Option<string>,
    accessToken: string,
    refreshToken: Option<string>,
    expires: Option<int>)

  /** JavaScript truthiness of an optional string. */
  predicate Truthy(s: Option<string>) {
    s.Some? && s.value != []
  }

  /** `x || 0` on an optional number. */
  function OrZero(x: Option<int>): int {
    if x.Some? then x.value else 0
  }

  /**
    `preferSess`: the session account wins when it brings a refresh token the
    existing entry lacks, or when it expires strictly later (missing = 0).
   */
  predicate Prefer(cand: Account, existing: Account) {
    (Truthy(cand.refreshToken) && !Truthy(existing.refreshToken))
    || OrZero(cand.expires) > OrZero(existing.expires)
  }

  predicate NoDup<T(==)>(s: seq<T>) {
    forall i, j :: 0 <= i < j < |s| ==> s[i] != s[j]
  }

  /** The `byId` Map as a value: the keys in insertion order and the entry under each key. */
  datatype ById = ById(order: seq<string>, entries: map<string, Account>)

  /** Each key once, the keys are exactly the ordered ones, and each entry sits under its own id. */
  ghost predicate WellFormed(b: ById) {
    && NoDup(b.order)
    && (forall k :: k in b.entries <==> k in b.order)
    && (forall k :: k in b.entries ==> b.entries[k].accountId == k)
  }

  /** `byId.set(a.accountId, a)`: a new key goes last, an existing key keeps its place. */
  function Put(b: ById, a: Account): ById {
    ById(if a.accountId in b.entries then b.order else b.order + [a.accountId],
         b.entries[a.accountId := a])
  }

  /** `byId.values()`, in insertion order. */
  function Values(b: ById): (vs: seq<Account>)
    requires forall k :: k in b.order ==> k in b.entries
    ensures |vs| == |b.order|
  {
    seq(|b.order|, i requires 0 <= i < |b.order| => b.entries[b.order[i]])
  }

  /** The ids of a list of accounts. */
  function Ids(accounts: seq<Account>): (ids: seq<string>)
    ensures |ids| == |accounts|
  {
    if accounts == [] then []
    else Ids(accounts[..|accounts| - 1]) + [accounts[|accounts| - 1].accountId]
  }

  /** The distinct elements of `xs`, in order of first appearance. */
  function FirstAppearances(xs: seq<string>): seq<string> {
    if xs == [] then []
    else
      var d := FirstAppearances(xs[..|xs| - 1]);
      if xs[|xs| - 1] in d then d else d + [xs[|xs| - 1]]
  }

  /** The last account of `accounts` with id `id`. */
  function LastWith(accounts: seq<Account>, id: string): (a: Account)
    requires id in Ids(accounts)
    ensures a in accounts && a.accountId == id
  {
    var last := accounts[|accounts| - 1];
    if last.accountId == id then last
    else
      assert Ids(accounts) == Ids(accounts[..|accounts| - 1]) + [last.accountId];
      LastWith(accounts[..|accounts| - 1], id)
  }

  /** The first loop: every stored account, in order, marked as coming from the database. */
  function SeedDb(db: seq<Account>): ById {
    if db == [] then ById([], map[])
    else Put(SeedDb(db[..|db| - 1]), db[|db| - 1].(source := Db))
  }

  /** The second loop: a session account is added when its id is new and replaces the entry when preferred. */
  function MergeSession(b: ById, sess: seq<Account>): ById {
    if sess == [] then b
    else
      var cur := MergeSession(b, sess[..|sess| - 1]);
      var cand := sess[|sess| - 1].(source := Session);
      if cand.accountId !in cur.entries || Prefer(cand, cur.entries[cand.accountId]) then Put(cur, cand)
      else cur
  }

  /** The whole `byId` Map after both loops. */
  function Merge(db: seq<Account>, sess: seq<Account>): ById {
    MergeSession(SeedDb(db), sess)
  }

  // ---------------------------------------------------------------------
  // Properties of the merge
  // ---------------------------------------------------------------------

  lemma {:induction false} FirstAppearancesFacts(xs: seq<string>)
    ensures NoDup(FirstAppearances(xs))
    ensures forall x :: x in FirstAppearances(xs) <==> x in xs
  {
    if xs != [] {
      var init := xs[..|xs| - 1];
      FirstAppearancesFacts(init);
      assert xs == init + [xs[|xs| - 1]];
    }
  }

  /** Setting a key keeps the Map well formed. */
  lemma PutWellFormed(b: ById, a: Account)
    requires WellFormed(b)
    ensures WellFormed(Put(b, a))
  {
    var r := Put(b, a);
    if a.accountId !in b.entries {
      forall i, j | 0 <= i < j < |r.order| ensures r.order[i] != r.order[j] {
        if j == |b.order| {
          assert r.order[i] == b.order[i];
        }
      }
    }
  }

  /** Putting keeps insertion order equal to the first appearances of the ids put so far. */
  lemma PutOrder(b: ById, a: Account, seen: seq<string>)
    requires WellFormed(b) && b.order == FirstAppearances(seen)
    ensures Put(b, a).order == FirstAppearances(seen + [a.accountId])
  {
    var xs := seen + [a.accountId];
    assert xs[..|xs| - 1] == seen;
  }

  lemma {:induction false} SeedDbFacts(db: seq<Account>)
    ensures WellFormed(SeedDb(db))
    ensures SeedDb(db).order == FirstAppearances(Ids(db))
  {
    if db != [] {
      var init := db[..|db| - 1];
      SeedDbFacts(init);
      PutWellFormed(SeedDb(init), db[|db| - 1].(source := Db));
      PutOrder(SeedDb(init), db[|db| - 1].(source := Db), Ids(init));
    }
  }

  lemma {:induction false} MergeSessionFacts(b: ById, sess: seq<Account>, seen: seq<string>)
    requires WellFormed(b) && b.order == FirstAppearances(seen)
    ensures WellFormed(MergeSession(b, sess))
    ensures MergeSession(b, sess).order == FirstAppearances(seen + Ids(sess))
  {
    if sess == [] {
      assert seen + Ids(sess) == seen;
    } else {
      var init := sess[..|sess| - 1];
      MergeSessionFacts(b, init, seen);
      var cur := MergeSession(b, init);
      var cand := sess[|sess| - 1].(source := Session);
      assert seen + Ids(sess) == (seen + Ids(init)) + [cand.accountId];
      PutWellFormed(cur, cand);
      PutOrder(cur, cand, seen + Ids(init));
      if cand.accountId in cur.entries {
        FirstAppearancesFacts(seen + Ids(init));
      }
    }
  }

  /**
    Each account id appears once, the stored accounts come first, and the
    order is that in which the ids first appear.
   */
  lemma MergeOrder(db: seq<Account>, sess: seq<Account>)
    ensures WellFormed(Merge(db, sess))
    ensures Merge(db, sess).order == FirstAppearances(Ids(db) + Ids(sess))
  {
    SeedDbFacts(db);
    MergeSessionFacts(SeedDb(db), sess, Ids(db));
  }

  /**
    One session account: it is added when its id is new and replaces the
    entry when preferred; every other entry, and the place of every key,
    stays as it was.
   */
  lemma SessionStep(db: seq<Account>, init: seq<Account>, a: Account)
    ensures var before, after, cand := Merge(db, init), Merge(db, init + [a]), a.(source := Session);
      && a.accountId in after.entries
      && after.entries[a.accountId]
         == (if a.accountId !in before.entries || Prefer(cand, before.entries[a.accountId]) then cand
             else before.entries[a.accountId])
      && after.order == (if a.accountId in before.entries then before.order else before.order + [a.accountId])
      && forall k :: k != a.accountId ==>
           (k in after.entries <==> k in before.entries) && (k in before.entries ==> after.entries[k] == before.entries[k])
  {
    assert (init + [a])[..|init|] == init;
  }

  /** The merged ids are exactly those of the stored and the session accounts. */
  lemma MergeKeys(db: seq<Account>, sess: seq<Account>, id: string)
    ensures id in Merge(db, sess).entries <==> id in Ids(db) || id in Ids(sess)
  {
    MergeOrder(db, sess);
    FirstAppearancesFacts(Ids(db) + Ids(sess));
  }

  lemma {:induction false} SeedDbEntry(db: seq<Account>, id: string)
    requires id in Ids(db)
    ensures id in SeedDb(db).entries && SeedDb(db).entries[id] == LastWith(db, id).(source := Db)
  {
    var init := db[..|db| - 1];
    assert Ids(db) == Ids(init) + [db[|db| - 1].accountId];
    if db[|db| - 1].accountId != id {
      SeedDbEntry(init, id);
    }
  }

  lemma {:induction false} SessionLeavesOthers(b: ById, sess: seq<Account>, id: string)
    requires id !in Ids(sess)
    ensures id in MergeSession(b, sess).entries <==> id in b.entries
    ensures id in b.entries ==> MergeSession(b, sess).entries[id] == b.entries[id]
  {
    if sess != [] {
      var init := sess[..|sess| - 1];
      assert Ids(sess) == Ids(init) + [sess[|sess| - 1].accountId];
      SessionLeavesOthers(b, init, id);
    }
  }

  /** An account only the database knows keeps its last stored entry. */
  lemma DbOnlyKeepsStored(db: seq<Account>, sess: seq<Account>, id: string)
    requires id in Ids(db) && id !in Ids(sess)
    ensures id in Merge(db, sess).entries
    ensures Merge(db, sess).entries[id] == LastWith(db, id).(source := Db)
  {
    SeedDbEntry(db, id);
    SessionLeavesOthers(SeedDb(db), sess, id);
  }

  lemma {:induction false} SessionCandidate(b: ById, sess: seq<Account>, id: string)
    requires id in MergeSession(b, sess).entries
    ensures || (id in b.entries && MergeSession(b, sess).entries[id] == b.entries[id])
            || exists j :: 0 <= j < |sess| && sess[j].accountId == id
                 && MergeSession(b, sess).entries[id] == sess[j].(source := Session)
  {
    if sess != [] {
      var init := sess[..|sess| - 1];
      var cur := MergeSession(b, init);
      var cand := sess[|sess| - 1].(source := Session);
      if MergeSession(b, sess) == cur || cand.accountId != id {
        SessionCandidate(b, init, id);
        if !(id in b.entries && cur.entries[id] == b.entries[id]) {
          var j :| 0 <= j < |init| && init[j].accountId == id && cur.entries[id] == init[j].(source := Session);
          assert sess[j] == init[j];
        }
      } else {
        assert sess[|sess| - 1].accountId == id;
      }
    }
  }

  /**
    Every merged entry is one of its candidates: the last stored account
    with that id, or a session account with that id; an id the database
    does not know always ends with a session entry.
   */
  lemma MergeEntryIsCandidate(db: seq<Account>, sess: seq<Account>, id: string)
    requires id in Merge(db, sess).entries
    ensures || (id in Ids(db) && Merge(db, sess).entries[id] == LastWith(db, id).(source := Db))
            || exists j :: 0 <= j < |sess| && sess[j].accountId == id
                 && Merge(db, sess).entries[id] == sess[j].(source := Session)
    ensures id !in Ids(db) ==> Merge(db, sess).entries[id].source == Session
  {
    SeedDbFacts(db);
    FirstAppearancesFacts(Ids(db));
    if id in Ids(db) {
      SeedDbEntry(db, id);
    }
    SessionCandidate(SeedDb(db), sess, id);
  }

  // ---------------------------------------------------------------------
  // Token refresh and filter
  // ---------------------------------------------------------------------

  /** `(!expiresAtMs || expiresAtMs < now) && refreshToken`, where `now` is the clock plus 60 seconds. */
  predicate DueForRefresh(a: Account, clock: int) {
    && (a.expires.None? || a.expires.value == 0 || a.expires.value < clock + 60000)
    && Truthy(a.refreshToken)
  }

  /**
    The tokens after the refresh attempt. `outcomes` holds, per account id,
    the answer of a refresh request that succeeds; an id without one stands
    for a request that fails.
   */
  function Refresh(a: Account, clock: int, outcomes: map<string, Refreshed>): (r: Account)
    ensures r.accountId == a.accountId && r.email == a.email && r.source == a.source
    ensures !DueForRefresh(a, clock) || a.accountId !in outcomes ==> r == a
    ensures DueForRefresh(a, clock) && a.accountId in outcomes ==>
              r.accessToken == outcomes[a.accountId].accessToken && r.expires == Some(outcomes[a.accountId].expiresAtMs)
    ensures DueForRefresh(a, clock) && a.accountId in outcomes ==>
              r.refreshToken == (if Truthy(outcomes[a.accountId].refreshToken) then outcomes[a.accountId].refreshToken
                                 else a.refreshToken)
    ensures DueForRefresh(a, clock) ==> Truthy(r.refreshToken)
  {
    if DueForRefresh(a, clock) && a.accountId in outcomes then
      var got := outcomes[a.accountId];
      a.(accessToken := got.accessToken,
         expires := Some(got.expiresAtMs),
         refreshToken := if Truthy(got.refreshToken) then got.refreshToken else a.refreshToken)
    else a
  }

  /** The record pushed onto `merged`. */
  function ToUsable(a: Account): Usable
    requires Truthy(a.accessToken)
  {
    Usable(a.accountId, a.email, a.accessToken.value, a.refreshToken, a.expires)
  }

  /** The third loop: refresh each entry and keep those that then have an access token. */
  function UsableAccounts(entries: seq<Account>, clock: int, outcomes: map<string, Refreshed>): (us: seq<Usable>)
    ensures |us| <= |entries|
    ensures forall i :: 0 <= i < |us| ==> us[i].accessToken != []
  {
    if entries == [] then []
    else
      var init := UsableAccounts(entries[..|entries| - 1], clock, outcomes);
      var a := Refresh(entries[|entries| - 1], clock, outcomes);
      if Truthy(a.accessToken) then init + [ToUsable(a)] else init
  }

  /** An account is used exactly when some entry still has an access token after its refresh attempt. */
  lemma {:induction false} UsableMembers(entries: seq<Account>, clock: int, outcomes: map<string, Refreshed>, u: Usable)
    ensures u in UsableAccounts(entries, clock, outcomes) <==>
              exists i :: 0 <= i < |entries| && Truthy(Refresh(entries[i], clock, outcomes).accessToken)
                && u == ToUsable(Refresh(entries[i], clock, outcomes))
  {
    if entries != [] {
      var init := entries[..|entries| - 1];
      UsableMembers(init, clock, outcomes, u);
      if exists i :: 0 <= i < |entries| && Truthy(Refresh(entries[i], clock, outcomes).accessToken)
           && u == ToUsable(Refresh(entries[i], clock, outcomes)) {
        var i :| 0 <= i < |entries| && Truthy(Refresh(entries[i], clock, outcomes).accessToken)
                 && u == ToUsable(Refresh(entries[i], clock, outcomes));
        if i < |init| {
          assert entries[i] == init[i];
        }
      }
    }
  }

  /** No two used accounts share an account id. */
  predicate DistinctIds(us: seq<Usable>) {
    forall i, j :: 0 <= i < j < |us| ==> us[i].accountId != us[j].accountId
  }

  /** Distinct entry ids give distinct used accounts, each with the id of an entry. */
  lemma {:induction false} UsableIdsDistinct(entries: seq<Account>, clock: int, outcomes: map<string, Refreshed>)
    requires NoDup(Ids(entries))
    ensures DistinctIds(UsableAccounts(entries, clock, outcomes))
    ensures forall u :: u in UsableAccounts(entries, clock, outcomes) ==> u.accountId in Ids(entries)
  {
    if entries != [] {
      var init := entries[..|entries| - 1];
      var last := entries[|entries| - 1];
      var ids := Ids(entries);
      assert ids == Ids(init) + [last.accountId];
      assert NoDup(Ids(init)) by {
        forall i, j | 0 <= i < j < |Ids(init)| ensures Ids(init)[i] != Ids(init)[j] {
          assert Ids(init)[i] == ids[i] && Ids(init)[j] == ids[j];
        }
      }
      assert last.accountId !in Ids(init) by {
        forall i | 0 <= i < |Ids(init)| ensures Ids(init)[i] != last.accountId {
          assert Ids(init)[i] == ids[i] && ids[|ids| - 1] == last.accountId;
          assert ids[i] != ids[|ids| - 1];
        }
      }
      UsableIdsDistinct(init, clock, outcomes);
      var us := UsableAccounts(init, clock, outcomes);
      var a := Refresh(last, clock, outcomes);
      if Truthy(a.accessToken) {
        var ys := us + [ToUsable(a)];
        assert ys == UsableAccounts(entries, clock, outcomes);
        forall i, j | 0 <= i < j < |ys| ensures ys[i].accountId != ys[j].accountId {
          assert ys[i] == us[i] && us[i] in us;
          if j == |us| {
            assert ys[j].accountId == last.accountId;
          } else {
            assert ys[j] == us[j];
          }
        }
      }
    }
  }

  /** The accounts the route works with: the merge, refreshed and filtered. */
  function MergedAccounts(db: seq<Account>, sess: seq<Account>, clock: int, outcomes: map<string, Refreshed>): seq<Usable> {
    MergeOrder(db, sess);
    UsableAccounts(Values(Merge(db, sess)), clock, outcomes)
  }

  /** Each account id appears at most once among the merged accounts, and only ids that were supplied. */
  lemma MergedAccountsDistinct(db: seq<Account>, sess: seq<Account>, clock: int, outcomes: map<string, Refreshed>)
    ensures DistinctIds(MergedAccounts(db, sess, clock, outcomes))
    ensures forall u :: u in MergedAccounts(db, sess, clock, outcomes) ==> u.accountId in Ids(db) || u.accountId in Ids(sess)
  {
    var b := Merge(db, sess);
    MergeOrder(db, sess);
    var vs := Values(b);
    assert Ids(vs) == b.order by {
      ValuesIds(b);
    }
    UsableIdsDistinct(vs, clock, outcomes);
    forall x | x in b.order ensures x in Ids(db) || x in Ids(sess) {
      MergeKeys(db, sess, x);
    }
  }

  lemma ValuesIds(b: ById)
    requires WellFormed(b)
    ensures Ids(Values(b)) == b.order
  {
    ValuesIdsPrefix(b, |b.order|);
    assert b.order[..|b.order|] == b.order;
    assert Values(b)[..|b.order|] == Values(b);
  }

  lemma {:induction false} ValuesIdsPrefix(b: ById, n: nat)
    requires WellFormed(b) && n <= |b.order|
    ensures Ids(Values(b)[..n]) == b.order[..n]
  {
    if n > 0 {
      ValuesIdsPrefix(b, n - 1);
      var vs := Values(b)[..n];
      assert vs[..n - 1] == Values(b)[..n - 1];
      assert b.order[..n] == b.order[..n - 1] + [b.order[n - 1]];
    }
  }

  // ---------------------------------------------------------------------
  // The Map and the merge as the route runs them
  // ---------------------------------------------------------------------

  /** The `byId` Map: its keys in insertion order and the entry under each. */
  class AccountMap {
    var order: seq<string>
    var entries: map<string, Account>

    ghost predicate Valid()
      reads this
    {
      WellFormed(ById(order, entries))
    }

    constructor ()
      ensures Valid() && order == [] && entries == map[]
    {
      order := [];
      entries := map[];
    }

    /** `byId.set(a.accountId, a)`. */
    method Set(a: Account)
      requires Valid()
      modifies this
      ensures Valid()
      ensures ById(order, entries) == Put(old(ById(order, entries)), a)
    {
      PutWellFormed(ById(order, entries), a);
      if a.accountId !in entries {
        order := order + [a.accountId];
      }
      entries := entries[a.accountId := a];
    }
  }

  /** `mergeAccountsFromDbAndSession` once the stored accounts are loaded and the clock is read. */
  method MergeAccountsFromDbAndSession(db: seq<Account>, sess: seq<Account>, clock: int, outcomes: map<string, Refreshed>)
    returns (merged: seq<Usable>)
    ensures merged == MergedAccounts(db, sess, clock, outcomes)
  {
    var byId := new AccountMap();
    for i := 0 to |db|
      invariant byId.Valid() && ById(byId.order, byId.entries) == SeedDb(db[..i])
    {
      assert db[..i + 1][..i] == db[..i];
      byId.Set(db[i].(source := Db));
    }
    assert db[..|db|] == db;
    SeedDbFacts(db);
    for i := 0 to |sess|
      invariant byId.Valid() && ById(byId.order, byId.entries) == MergeSession(SeedDb(db), sess[..i])
    {
      assert sess[..i + 1][..i] == sess[..i];
      var cand := sess[i].(source := Session);
      if cand.accountId !in byId.entries {
        byId.Set(cand);
      } else {
        var existing := byId.entries[cand.accountId];
        if Prefer(cand, existing) {
          byId.Set(cand);
        }
      }
    }
    assert sess[..|sess|] == sess;
    merged := RefreshAndKeep(Values(ById(byId.order, byId.entries)), clock, outcomes);
  }

  /** The third loop of the merge: refresh tokens that are due and push the entries that have one. */
  method RefreshAndKeep(values: seq<Account>, clock: int, outcomes: map<string, Refreshed>) returns (merged: seq<Usable>)
    ensures merged == UsableAccounts(values, clock, outcomes)
  {
    merged := [];
    for i := 0 to |values|
      invariant merged == UsableAccounts(values[..i], clock, outcomes)
    {
      assert values[..i + 1][..i] == values[..i];
      var entry := values[i];
      var accessToken := entry.accessToken;
      var refreshToken := entry.refreshToken;
      var expiresAtMs := entry.expires;
      if (expiresAtMs.None? || expiresAtMs.value == 0 || expiresAtMs.value < clock + 60000) && Truthy(refreshToken) {
        if entry.accountId in outcomes {
          var refreshed := outcomes[entry.accountId];
          accessToken := refreshed.accessToken;
          expiresAtMs := Some(refreshed.expiresAtMs);
          // `(data.refresh_token as string) || undefined`, then `?? refreshToken`
          refreshToken := if Truthy(refreshed.refreshToken) then refreshed.refreshToken else refreshToken;
        }
      }
      if Truthy(accessToken) {
        merged := merged + [Usable(entry.accountId, entry.email, accessToken.value, refreshToken, expiresAtMs)];
      }
    }
    assert values[..|values|] == values;
  }
}
