/**
 * The account/session manager: the `Account` tagged union and the `AccountService`
 * that owns the account list, the current account, the ghost overlay, the loading
 * flag, the durable "accounts" store and the "lastAccount" pointer of local storage.
 */
module Accounts {
  import opened Wrappers
  import opened Settings

  /** The variant-specific part of an account: what each backend needs to sign. */
  datatype Credential =
    | Local(secKey: seq<bv8>, iv: seq<bv8>)
    | PubkeyOnly
    | Extension
    | Serial
    | Amber
    | NostrConnect(clientSecretKey: string, signerRelays: seq<string>)

  /** An account: the fields common to every variant plus its credential. */
  datatype Account = Account(
    pubkey: string,
    relays: Option<seq<string>>,
    localSettings: Option<AppSettings>,
    credential: Credential)
  {
    /** Only the pubkey-only variant is read-only; every other variant can sign. */
    predicate Readonly() { credential.PubkeyOnly? }
  }

  /** The ephemeral read-only account that ghost mode shows for `pk`. */
  function GhostAccount(pk: string): (a: Account)
    ensures a.pubkey == pk && a.Readonly()
    ensures a.relays.None? && a.localSettings.None?
  {
    Account(pk, None, None, PubkeyOnly)
  }

  /** JavaScript truthiness of an optional string: absent and "" are both false. */
  predicate Truthy(s: Option<string>) { s.Some? && s.value != "" }

  // ---------------------------------------------------------------------------
  // The account list: specification predicates

  /** Some element of `accs` has pubkey `pk`. */
  ghost predicate Listed(accs: seq<Account>, pk: string) {
    exists a | a in accs :: a.pubkey == pk
  }

  /** No two elements of `accs` share a pubkey. */
  ghost predicate Distinct(accs: seq<Account>) {
    forall i, j | 0 <= i < j < |accs| :: accs[i].pubkey != accs[j].pubkey
  }

  /** A non-empty list lists a pubkey when its head or its tail does. */
  lemma ListedCons(accs: seq<Account>, pk: string)
    requires accs != []
    ensures Listed(accs, pk) <==> accs[0].pubkey == pk || Listed(accs[1..], pk)
  {
    assert accs == [accs[0]] + accs[1..];
  }

  /** The tail of a pubkey-unique list is unique and does not list the head's pubkey. */
  lemma DistinctTail(accs: seq<Account>)
    requires Distinct(accs) && accs != []
    ensures Distinct(accs[1..]) && !Listed(accs[1..], accs[0].pubkey)
  {
  }

  /** Putting an account whose pubkey is not listed in front of a unique list keeps it unique. */
  lemma DistinctCons(x: Account, s: seq<Account>)
    requires Distinct(s) && !Listed(s, x.pubkey)
    ensures Distinct([x] + s)
  {
    var r := [x] + s;
    forall i, j | 0 <= i < j < |r| ensures r[i].pubkey != r[j].pubkey {
      if i == 0 {
        assert r[j] == s[j - 1] && s[j - 1] in s;
      } else {
        assert r[i] == s[i - 1] && r[j] == s[j - 1];
      }
    }
  }

  /** Appending an account whose pubkey is not listed keeps a unique list unique. */
  lemma DistinctSnoc(s: seq<Account>, x: Account)
    requires Distinct(s) && !Listed(s, x.pubkey)
    ensures Distinct(s + [x])
  {
    var r := s + [x];
    forall i, j | 0 <= i < j < |r| ensures r[i].pubkey != r[j].pubkey {
      if j == |s| {
        assert r[i] == s[i] && s[i] in s;
      } else {
        assert r[i] == s[i] && r[j] == s[j];
      }
    }
  }

  // ---------------------------------------------------------------------------
  // The array operations the service applies to its list

  /** `accs.some(acc => acc.pubkey === pk)`. */
  function AnyWithPubkey(accs: seq<Account>, pk: string): (b: bool)
    ensures b <==> Listed(accs, pk)
  {
    if accs == [] then false
    else
      ListedCons(accs, pk);
      accs[0].pubkey == pk || AnyWithPubkey(accs[1..], pk)
  }

  /** `accs.find(acc => acc.pubkey === pk)`: the first element with that pubkey. */
  function Find(accs: seq<Account>, pk: string): (r: Option<Account>)
    ensures r.None? <==> !Listed(accs, pk)
    ensures r.Some? ==> r.value.pubkey == pk && r.value in accs
  {
    if accs == [] then None
    else if accs[0].pubkey == pk then Some(accs[0])
    else
      ListedCons(accs, pk);
      Find(accs[1..], pk)
  }

  /** `Find` returns the first element carrying the pubkey. */
  lemma {:induction false} FindFirst(accs: seq<Account>, pk: string, i: nat)
    requires i < |accs| && accs[i].pubkey == pk
    requires forall j | 0 <= j < i :: accs[j].pubkey != pk
    ensures Find(accs, pk) == Some(accs[i])
  {
    if i > 0 {
      assert accs[1..][i - 1] == accs[i];
      FindFirst(accs[1..], pk, i - 1);
    }
  }

  /** In a pubkey-unique list, `Find` by an element's pubkey returns that element. */
  lemma FindDistinct(accs: seq<Account>, i: nat)
    requires Distinct(accs) && i < |accs|
    ensures Find(accs, accs[i].pubkey) == Some(accs[i])
  {
    FindFirst(accs, accs[i].pubkey, i);
  }

  /** `accs.map(acc => acc.pubkey === a.pubkey ? a : acc)`. */
  function Replace(accs: seq<Account>, a: Account): (r: seq<Account>)
    ensures |r| == |accs|
    ensures forall i | 0 <= i < |accs| ::
      r[i] == (if accs[i].pubkey == a.pubkey then a else accs[i])
  {
    if accs == [] then []
    else [if accs[0].pubkey == a.pubkey then a else accs[0]] + Replace(accs[1..], a)
  }

  /**
   * Replacing in a pubkey-unique list overwrites exactly the one entry with that
   * pubkey, in place: the length, the order and every other entry stay as they were.
   */
  lemma ReplaceInPlace(accs: seq<Account>, a: Account, i: nat)
    requires Distinct(accs) && i < |accs| && accs[i].pubkey == a.pubkey
    ensures Replace(accs, a) == accs[i := a]
  {
    var r := Replace(accs, a);
    forall j | 0 <= j < |accs| ensures r[j] == accs[i := a][j] {
      if j != i {
        assert accs[j].pubkey != a.pubkey by {
          if j < i { assert accs[j].pubkey != accs[i].pubkey; }
          else { assert accs[i].pubkey != accs[j].pubkey; }
        }
      }
    }
  }

  /** Replacing a pubkey nobody has changes nothing. */
  lemma ReplaceAbsent(accs: seq<Account>, a: Account)
    requires !Listed(accs, a.pubkey)
    ensures Replace(accs, a) == accs
  {
    var r := Replace(accs, a);
    forall j | 0 <= j < |accs| ensures r[j] == accs[j] {
      assert accs[j] in accs;
    }
  }

  /** Replacing keeps every position's pubkey, so a pubkey-unique list stays unique. */
  lemma ReplaceKeepsPubkeys(accs: seq<Account>, a: Account)
    ensures forall j | 0 <= j < |accs| :: Replace(accs, a)[j].pubkey == accs[j].pubkey
    ensures Distinct(accs) ==> Distinct(Replace(accs, a))
  {
  }

  /** `accs.filter(acc => acc.pubkey !== pk)`. */
  function Without(accs: seq<Account>, pk: string): (r: seq<Account>)
    ensures |r| <= |accs|
    ensures forall x :: x in r <==> x in accs && x.pubkey != pk
  {
    if accs == [] then []
    else
      assert accs == [accs[0]] + accs[1..];
      (if accs[0].pubkey == pk then [] else [accs[0]]) + Without(accs[1..], pk)
  }

  /** Filtering out a pubkey nobody has changes nothing. */
  lemma {:induction false} WithoutAbsent(accs: seq<Account>, pk: string)
    requires !Listed(accs, pk)
    ensures Without(accs, pk) == accs
  {
    if accs != [] {
      ListedCons(accs, pk);
      WithoutAbsent(accs[1..], pk);
      assert [accs[0]] + accs[1..] == accs;
    }
  }

  /**
   * In a pubkey-unique list, filtering out the pubkey of entry `i` leaves every other
   * entry in its original order.
   */
  lemma {:induction false} WithoutAt(accs: seq<Account>, pk: string, i: nat)
    requires Distinct(accs) && i < |accs| && accs[i].pubkey == pk
    ensures Without(accs, pk) == accs[..i] + accs[i + 1..]
  {
    DistinctTail(accs);
    if i == 0 {
      WithoutAbsent(accs[1..], pk);
    } else {
      assert accs[0].pubkey != accs[i].pubkey;
      assert accs[1..][i - 1] == accs[i];
      WithoutAt(accs[1..], pk, i - 1);
      assert Without(accs, pk) == [accs[0]] + Without(accs[1..], pk);
      ConsSlices(accs, i);
    }
  }

  /** Putting the head back in front of the tail with entry `i - 1` cut out is cutting out entry `i`. */
  lemma ConsSlices(accs: seq<Account>, i: nat)
    requires 0 < i < |accs|
    ensures [accs[0]] + (accs[1..][..i - 1] + accs[1..][i..]) == accs[..i] + accs[i + 1..]
  {
    assert accs[1..][..i - 1] == accs[1..i];
    assert accs[1..][i..] == accs[i + 1..];
    assert [accs[0]] + accs[1..i] == accs[..i];
  }

  /** Filtering keeps a pubkey-unique list unique. */
  lemma {:induction false} WithoutKeepsDistinct(accs: seq<Account>, pk: string)
    requires Distinct(accs)
    ensures Distinct(Without(accs, pk))
  {
    if accs != [] {
      DistinctTail(accs);
      WithoutKeepsDistinct(accs[1..], pk);
      var t := Without(accs[1..], pk);
      if accs[0].pubkey != pk {
        assert !Listed(t, accs[0].pubkey);
        DistinctCons(accs[0], t);
      }
    }
  }

  // ---------------------------------------------------------------------------
  // The durable store as seen through the list

  /** The keyed store holding `accs`: each account under its pubkey, the first one listed winning. */
  function AsMap(accs: seq<Account>): (m: map<string, Account>)
    ensures forall pk :: pk in m <==> Listed(accs, pk)
    ensures forall pk | pk in m :: m[pk].pubkey == pk && m[pk] in accs
  {
    if accs == [] then map[]
    else
      assert accs == [accs[0]] + accs[1..];
      AsMap(accs[1..])[accs[0].pubkey := accs[0]]
  }

  /** `db.put` of an account whose pubkey is new mirrors appending it to the list. */
  lemma {:induction false} AsMapAppend(accs: seq<Account>, a: Account)
    requires !Listed(accs, a.pubkey)
    ensures AsMap(accs + [a]) == AsMap(accs)[a.pubkey := a]
  {
    if accs == [] {
      assert [a][1..] == [];
    } else {
      ListedCons(accs, a.pubkey);
      assert (accs + [a])[1..] == accs[1..] + [a];
      AsMapAppend(accs[1..], a);
    }
  }

  /** `db.put` of an account whose pubkey is listed mirrors replacing it in the list. */
  lemma {:induction false} AsMapReplace(accs: seq<Account>, a: Account)
    requires Listed(accs, a.pubkey)
    ensures AsMap(Replace(accs, a)) == AsMap(accs)[a.pubkey := a]
  {
    var x, t := accs[0], accs[1..];
    var y := if x.pubkey == a.pubkey then a else x;
    ListedCons(accs, a.pubkey);
    var rt := Replace(t, a);
    assert Replace(accs, a) == [y] + rt;
    assert ([y] + rt)[1..] == rt;
    assert AsMap(Replace(accs, a)) == AsMap(rt)[y.pubkey := y];
    assert AsMap(accs) == AsMap(t)[x.pubkey := x];
    var m := AsMap(t);
    if !Listed(t, a.pubkey) {
      ReplaceAbsent(t, a);
      MapUpdateTwice(m, a.pubkey, x, a);
    } else {
      AsMapReplace(t, a);
      if x.pubkey != a.pubkey {
        MapUpdateSwap(m, a.pubkey, a, x.pubkey, x);
      } else {
        MapUpdateTwice(m, a.pubkey, a, a);
        MapUpdateTwice(m, a.pubkey, x, a);
      }
    }
  }

  /** `db.delete` of a pubkey mirrors filtering it out of the list. */
  lemma {:induction false} AsMapWithout(accs: seq<Account>, pk: string)
    ensures AsMap(Without(accs, pk)) == AsMap(accs) - {pk}
  {
    if accs != [] {
      var x, t := accs[0], accs[1..];
      var w := Without(t, pk);
      var m := AsMap(t);
      AsMapWithout(t, pk);
      if x.pubkey != pk {
        assert Without(accs, pk) == [x] + w;
        assert ([x] + w)[1..] == w;
        calc {
          AsMap([x] + w);
          AsMap(w)[x.pubkey := x];
          (m - {pk})[x.pubkey := x];
          { MapRemoveUpdate(m, pk, x.pubkey, x); }
          m[x.pubkey := x] - {pk};
        }
      } else {
        assert Without(accs, pk) == w;
        MapRemoveUpdate(m, pk, pk, x);
      }
    }
  }

  /** Two updates of a map commute, the later one winning on a shared key. */
  lemma MapUpdateSwap(m: map<string, Account>, k1: string, v1: Account, k2: string, v2: Account)
    requires k1 == k2 ==> v1 == v2
    ensures m[k1 := v1][k2 := v2] == m[k2 := v2][k1 := v1]
  {
  }

  /** Of two updates of one key, the later wins. */
  lemma MapUpdateTwice(m: map<string, Account>, k: string, v1: Account, v2: Account)
    ensures m[k := v1][k := v2] == m[k := v2]
  {
  }

  /** Removing a key after an update is removing it before, unless the update is to that key. */
  lemma MapRemoveUpdate(m: map<string, Account>, k: string, k2: string, v: Account)
    ensures k2 != k ==> (m - {k})[k2 := v] == m[k2 := v] - {k}
    ensures k2 == k ==> m[k2 := v] - {k} == m - {k}
  {
  }

  // ---------------------------------------------------------------------------
  // The service

  class AccountService {
    var loading: bool
    var accounts: seq<Account>
    var current: Option<Account>
    var isGhost: bool
    /** The "lastAccount" slot of local storage. */
    var lastAccount: Option<string>
    /** The durable "accounts" object store, keyed by pubkey. */
    var db: map<string, Account>

    /** The account list is unique by pubkey. */
    ghost predicate Valid()
      reads this
    {
      Distinct(accounts)
    }

    /** The durable store holds exactly the listed accounts. */
    ghost predicate Persisted()
      reads this
    {
      db == AsMap(accounts)
    }

    /**
     * The synchronous part of the constructor: the subjects start at their initial
     * values, while the durable store and the local-storage slot hold what was persisted.
     */
    constructor (stored: map<string, Account>, storedLastAccount: Option<string>)
      ensures Valid()
      ensures loading && accounts == [] && current == None && !isGhost
      ensures db == stored && lastAccount == storedLastAccount
    {
      loading := true;
      accounts := [];
      current := None;
      isGhost := false;
      db := stored;
      lastAccount := storedLastAccount;
    }

    /**
     * The continuation of `db.getAll("accounts")`: publish the loaded accounts, restore
     * the last account when it is still listed, then clear `loading`.
     */
    method Init(loaded: seq<Account>)
      requires Distinct(loaded)
      modifies this
      ensures Valid() && !loading
      ensures accounts == loaded && db == old(db)
      ensures Truthy(old(lastAccount)) && Listed(loaded, old(lastAccount).value) ==>
        current == Find(loaded, old(lastAccount).value) && !isGhost && lastAccount == old(lastAccount)
      ensures !(Truthy(old(lastAccount)) && Listed(loaded, old(lastAccount).value)) ==>
        current == old(current) && isGhost == old(isGhost) && lastAccount == old(lastAccount)
      ensures db == AsMap(loaded) ==> Persisted()
    {
      accounts := loaded;
      var last := lastAccount;
      if Truthy(last) && HasAccount(last.value) {
        SwitchAccount(last.value);
      }
      loading := false;
    }

    /** `hasAccount`: whether some listed account has pubkey `pk`. */
    function HasAccount(pk: string): (b: bool)
      reads this
      ensures b <==> exists i | 0 <= i < |accounts| :: accounts[i].pubkey == pk
    {
      AnyWithPubkey(accounts, pk)
    }

    /**
     * Show `pk` as a read-only ghost. The pointer is first set to the current account
     * when that one is listed, so that `StopGhost` can return to it.
     */
    method StartGhost(pk: string)
      requires Valid()
      modifies this
      ensures Valid()
      ensures current == Some(GhostAccount(pk)) && isGhost
      ensures accounts == old(accounts) && db == old(db) && loading == old(loading)
      ensures old(current).Some? && old(current).value.pubkey != "" && Listed(old(accounts), old(current).value.pubkey) ==>
        lastAccount == Some(old(current).value.pubkey)
      ensures !(old(current).Some? && old(current).value.pubkey != "" && Listed(old(accounts), old(current).value.pubkey)) ==>
        lastAccount == old(lastAccount)
      ensures old(Persisted()) ==> Persisted()
    {
      var ghostAccount := GhostAccount(pk);
      var lastPubkey := if current.Some? then Some(current.value.pubkey) else None;
      if Truthy(lastPubkey) && HasAccount(lastPubkey.value) {
        lastAccount := lastPubkey;
      }
      current := Some(ghostAccount);
      isGhost := true;
    }

    /** Leave ghost mode: back to the pointed-to account if it is listed, else log out. */
    method StopGhost()
      requires Valid()
      modifies this
      ensures Valid() && loading == old(loading)
      ensures Truthy(old(lastAccount)) && Listed(old(accounts), old(lastAccount).value) ==>
        && current == Find(old(accounts), old(lastAccount).value) && !isGhost
        && lastAccount == old(lastAccount)
        && accounts == old(accounts) && db == old(db)
      ensures !(Truthy(old(lastAccount)) && Listed(old(accounts), old(lastAccount).value)) ==>
        && current == None && !isGhost && lastAccount == None
        && accounts == (if old(current).Some? then Without(old(accounts), old(current).value.pubkey) else old(accounts))
        && db == (if old(current).Some? then old(db) - {old(current).value.pubkey} else old(db))
      ensures old(Persisted()) ==> Persisted()
    {
      var last := lastAccount;
      if Truthy(last) && HasAccount(last.value) {
        SwitchAccount(last.value);
      } else {
        Logout(true);
      }
    }

    /**
     * Upsert: a listed pubkey is replaced in place (re-publishing `current` and leaving
     * ghost mode when it is the current one), a new pubkey is appended; the store is
     * written either way.
     */
    method AddAccount(a: Account)
      requires Valid()
      modifies this
      ensures Valid()
      ensures Listed(old(accounts), a.pubkey) ==> accounts == Replace(old(accounts), a)
      ensures !Listed(old(accounts), a.pubkey) ==> accounts == old(accounts) + [a]
      ensures db == old(db)[a.pubkey := a]
      ensures Listed(old(accounts), a.pubkey) && old(current).Some? && old(current).value.pubkey == a.pubkey ==>
        current == Some(a) && !isGhost
      ensures !(Listed(old(accounts), a.pubkey) && old(current).Some? && old(current).value.pubkey == a.pubkey) ==>
        current == old(current) && isGhost == old(isGhost)
      ensures lastAccount == old(lastAccount) && loading == old(loading)
      ensures old(Persisted()) ==> Persisted()
    {
      ghost var wasPersisted := Persisted();
      if HasAccount(a.pubkey) {
        var updated := Replace(accounts, a);
        assert Distinct(updated) && (wasPersisted ==> db[a.pubkey := a] == AsMap(updated)) by {
          ReplaceKeepsPubkeys(accounts, a);
          AsMapReplace(accounts, a);
        }
        accounts := updated;
        if current.Some? && current.value.pubkey == a.pubkey {
          current := Some(a);
          isGhost := false;
        }
      } else {
        var appended := accounts + [a];
        assert Distinct(appended) && (wasPersisted ==> db[a.pubkey := a] == AsMap(appended)) by {
          DistinctSnoc(accounts, a);
          AsMapAppend(accounts, a);
        }
        accounts := appended;
      }
      db := db[a.pubkey := a];
    }

    /** Drop `pk` from the list and the store; `current` is deliberately left alone. */
    method RemoveAccount(pk: string)
      requires Valid()
      modifies this
      ensures Valid()
      ensures accounts == Without(old(accounts), pk) && db == old(db) - {pk}
      ensures !Listed(accounts, pk)
      ensures current == old(current) && isGhost == old(isGhost)
      ensures lastAccount == old(lastAccount) && loading == old(loading)
      ensures old(Persisted()) ==> Persisted()
    {
      WithoutKeepsDistinct(accounts, pk);
      AsMapWithout(accounts, pk);
      accounts := Without(accounts, pk);
      db := db - {pk};
    }

    /** Store `settings` as the local settings of the listed account `pk`, through `AddAccount`. */
    method UpdateAccountLocalSettings(pk: string, settings: AppSettings)
      requires Valid()
      modifies this
      ensures Valid()
      ensures !Listed(old(accounts), pk) ==> unchanged(this)
      ensures Listed(old(accounts), pk) ==>
        var updated := Find(old(accounts), pk).value.(localSettings := Some(settings));
        && accounts == Replace(old(accounts), updated)
        && db == old(db)[pk := updated]
        && (old(current).Some? && old(current).value.pubkey == pk ==> current == Some(updated) && !isGhost)
        && (!(old(current).Some? && old(current).value.pubkey == pk) ==> current == old(current) && isGhost == old(isGhost))
        && lastAccount == old(lastAccount) && loading == old(loading)
      ensures old(Persisted()) ==> Persisted()
    {
      var account := Find(accounts, pk);
      if account.Some? {
        var updated := account.value.(localSettings := Some(settings));
        AddAccount(updated);
      }
    }

    /** Make the listed account `pk` current and point local storage at it; unknown `pk` is a no-op. */
    method SwitchAccount(pk: string)
      requires Valid()
      modifies this
      ensures Valid()
      ensures !Listed(old(accounts), pk) ==> unchanged(this)
      ensures Listed(old(accounts), pk) ==>
        && current == Find(old(accounts), pk) && !isGhost && lastAccount == Some(pk)
        && accounts == old(accounts) && db == old(db) && loading == old(loading)
    {
      var account := Find(accounts, pk);
      if account.Some? {
        current := account;
        isGhost := false;
        lastAccount := Some(pk);
      }
    }

    /** Clear the session; with `clear`, the current account is also dropped from the list and store. */
    method Logout(clear: bool)
      requires Valid()
      modifies this
      ensures Valid()
      ensures current == None && !isGhost && lastAccount == None && loading == old(loading)
      ensures clear && old(current).Some? ==>
        accounts == Without(old(accounts), old(current).value.pubkey) && db == old(db) - {old(current).value.pubkey}
      ensures !(clear && old(current).Some?) ==> accounts == old(accounts) && db == old(db)
      ensures old(Persisted()) ==> Persisted()
    {
      if clear && current.Some? {
        RemoveAccount(current.value.pubkey);
      }
      current := None;
      isGhost := false;
      lastAccount := None;
    }
  }

  // ---------------------------------------------------------------------------
  // What callers can conclude from the contracts alone

  /**
   * Ghost mode entered from a listed account, then left, restores exactly that account
   * and leaves the list and the store as they were.
   */
  method GhostRoundTrip(svc: AccountService, pk: string)
    requires svc.Valid()
    requires svc.current.Some? && svc.current.value in svc.accounts && svc.current.value.pubkey != ""
    modifies svc
    ensures svc.Valid()
    ensures svc.current == old(svc.current) && !svc.isGhost
    ensures svc.accounts == old(svc.accounts) && svc.db == old(svc.db)
    ensures svc.lastAccount == Some(old(svc.current).value.pubkey)
  {
    var before := svc.current.value;
    var i :| 0 <= i < |svc.accounts| && svc.accounts[i] == before;
    FindDistinct(svc.accounts, i);
    svc.StartGhost(pk);
    svc.StopGhost();
  }

  /**
   * Ghost mode entered with nothing current and no stored pointer falls through to
   * `logout(true)` when left, which deletes a listed account that has the ghost's pubkey.
   */
  method GhostOverListedAccountIsDeleted(svc: AccountService, pk: string)
    requires svc.Valid() && svc.current.None? && svc.lastAccount.None?
    requires Listed(svc.accounts, pk)
    modifies svc
    ensures svc.current == None && !svc.isGhost
    ensures !Listed(svc.accounts, pk) && |svc.accounts| == |old(svc.accounts)| - 1
    ensures pk !in svc.db
  {
    var i :| 0 <= i < |svc.accounts| && svc.accounts[i].pubkey == pk;
    WithoutAt(svc.accounts, pk, i);
    svc.StartGhost(pk);
    svc.StopGhost();
  }
}
