# Account/session manager and user settings service, modelled in Dafny

This project models the identity/session layer of a client for a relay-based event
network, plus the per-user application settings service built on the replaceable-record
requester.

- `accounts.dfy` (module `Accounts`) models `src/services/account.ts`.
  - The `Account` tagged union is a datatype: the common fields and a `Credential` with one variant per backend (local key, pubkey-only, extension, serial, Amber, Nostr Connect).
  - `AccountService` is a class whose fields are the source's subjects: `loading`, `accounts`, `current`, `isGhost`. Two more fields stand for the external state: `db` is the durable "accounts" store keyed by pubkey, and `lastAccount` is the `"lastAccount"` slot of local storage.
  - Every method states its whole new state. The array expressions the service uses (`some`, `find`, `map`, `filter`) are pure functions with their own contracts and lemmas. These cover in-place replacement, removal in order, and pubkey uniqueness. `AsMap` is the store's view of a list; three lemmas show that `db.put`/`db.delete` keep the store in step with the list.
  - The asynchronous constructor is split in two. The constructor sets the initial subject values over the persisted store and pointer. `Init(loaded)` is the continuation of `db.getAll`.
- `settings_sync.dfy` (module `SettingsSync`) models `src/services/settings/user-app-settings.ts`.
  - `UserAppSettings` keeps the lazy pubkey-to-subject map (`parsedSubjects`) and a log of the requests it sends to the replaceable-record requester. It also logs the records it forwards to that requester.
  - `SettingsSubject` is the part of the persistent subject that the service uses: a value, the upstream it is connected to, and the handler applied to each emitted record.
  - The parser (`parseAppSettings` with its migrations), the serializer (`JSON.stringify`) and `defaultSettings` are constructor parameters. The clock is the `now` argument.
  - `DTag`/`DraftCoordinate` give the replaceable-record coordinate a draft lands on: its kind, its author and its first `d` tag. `BuildAppSettingsEvent` is proved to produce drafts at exactly the coordinate that `RequestAppSettings` queries.
- `wrappers.dfy` holds `Option`. `settings.dfy` holds a stand-in for the settings structure.

JavaScript truthiness is kept where the source relies on it. The guards `lastAccount && hasAccount(lastAccount)` and `lastPubkey && hasAccount(lastPubkey)` treat an absent pointer and the empty string alike (`Accounts.Truthy`).

These behaviours of the code are kept as written:
- `StartGhost` saves the pointer only when the current pubkey is non-empty and listed.
- `StopGhost` falls through to `logout(true)` whenever the pointer is absent, empty or unlisted. A pointer left over from an earlier session can therefore still be restored even when no account was current at `startGhost`.
- The logout path deletes a listed account whose pubkey equals the ghost's. `GhostOverListedAccountIsDeleted` shows this.
- `removeAccount` never clears `current`.

## Model

| member | source | states |
|---|---|---|
| `Accounts.GhostAccount` | src/services/account.ts:67-71 | the ghost account has the given pubkey, is the read-only pubkey variant, and has no relays or local settings |
| `Accounts.AnyWithPubkey` | src/services/account.ts:85-87 | `some(acc => acc.pubkey === pk)` is true exactly when some listed account has pubkey `pk` |
| `Accounts.Find` | src/services/account.ts:122 | `find` by pubkey is absent exactly when no account has that pubkey; otherwise it is a listed account with that pubkey |
| `Accounts.FindFirst` | src/services/account.ts:122 | `find` returns the first account carrying the pubkey |
| `Accounts.FindDistinct` | src/services/account.ts:112 | in a pubkey-unique list, looking up an element's pubkey yields that very element |
| `Accounts.Replace` | src/services/account.ts:91 | the `map` keeps the length; each position holds the new account if its pubkey matches, else the old entry |
| `Accounts.ReplaceInPlace` | src/services/account.ts:89-91 | in a pubkey-unique list, replacing overwrites exactly the matching entry in place (`accs[i := a]`); order and the other entries are unchanged |
| `Accounts.ReplaceAbsent` | src/services/account.ts:91 | replacing a pubkey that is not listed leaves the list as it was |
| `Accounts.ReplaceKeepsPubkeys` | src/services/account.ts:91 | replacing keeps every position's pubkey, so a pubkey-unique list stays unique |
| `Accounts.DistinctSnoc` | src/services/account.ts:98-100 | appending an account whose pubkey is not listed keeps the list pubkey-unique |
| `Accounts.Without` | src/services/account.ts:106 | the `filter` keeps exactly the accounts whose pubkey differs from `pk` and never grows the list |
| `Accounts.WithoutAbsent` | src/services/account.ts:106 | filtering out a pubkey nobody has leaves the list unchanged |
| `Accounts.WithoutAt` | src/services/account.ts:105-109 | in a pubkey-unique list, removing entry `i`'s pubkey leaves `accs[..i] + accs[i+1..]`, the other entries in their original order |
| `Accounts.WithoutKeepsDistinct` | src/services/account.ts:106 | filtering keeps a pubkey-unique list unique |
| `Accounts.AsMap` | src/services/account.ts:103-108 | the keyed store holding a list has exactly the listed pubkeys as keys, each mapped to a listed account with that pubkey |
| `Accounts.AsMapAppend` | src/services/account.ts:100-103 | `db.put` of an account with a new pubkey mirrors appending it to the list |
| `Accounts.AsMapReplace` | src/services/account.ts:91-103 | `db.put` of an account with a listed pubkey mirrors replacing it in the list |
| `Accounts.AsMapWithout` | src/services/account.ts:106-108 | `db.delete(pk)` mirrors filtering `pk` out of the list |
| `Accounts.AccountService.constructor` | src/services/account.ts:47-52 | loading is true, no accounts, no current account, not ghost; the store and pointer hold what was persisted |
| `Accounts.AccountService.Init` | src/services/account.ts:53-63 | the loaded list is published and `loading` cleared; a truthy, listed pointer is switched to, otherwise current/ghost/pointer are unchanged; the store is untouched |
| `Accounts.AccountService.HasAccount` | src/services/account.ts:85-87 | true exactly when some element of `accounts` has pubkey `pk` |
| `Accounts.AccountService.StartGhost` | src/services/account.ts:66-77 | current becomes the read-only ghost of `pk` and `isGhost` is set; accounts and store unchanged; the pointer is overwritten only when the previous current pubkey is non-empty and listed |
| `Accounts.AccountService.StopGhost` | src/services/account.ts:78-83 | a truthy, listed pointer is switched to (list, store and pointer unchanged); otherwise it logs out with clear, dropping the current pubkey from list and store and clearing current, ghost and pointer |
| `Accounts.AccountService.AddAccount` | src/services/account.ts:88-104 | a listed pubkey is replaced in place, a new one appended; the store maps the pubkey to the account; current becomes the account and ghost is cleared only if current had that pubkey and it was listed; uniqueness and store mirroring are preserved |
| `Accounts.AccountService.RemoveAccount` | src/services/account.ts:105-109 | the list keeps exactly the other accounts in order and the store loses `pk`; current, ghost, pointer and loading are untouched |
| `Accounts.AccountService.UpdateAccountLocalSettings` | src/services/account.ts:111-119 | an unknown pubkey changes nothing; a known one is upserted with the new local settings, with the same effect on current and ghost as `AddAccount` |
| `Accounts.AccountService.SwitchAccount` | src/services/account.ts:121-128 | an unknown pubkey changes nothing; a known one becomes current (the listed element), clears ghost and sets the pointer to `pk` |
| `Accounts.AccountService.Logout` | src/services/account.ts:130-138 | always ends with no current account, ghost cleared and pointer removed; with clear and a current account, that pubkey leaves the list and the store |
| `Accounts.GhostRoundTrip` | src/services/account.ts:66-83 | ghost mode entered from a listed account and then left restores exactly that account, with list and store as before |
| `Accounts.GhostOverListedAccountIsDeleted` | src/services/account.ts:78-83 | with nothing current and no pointer, leaving ghost mode deletes a listed account that has the ghost's pubkey from list and store |
| `SettingsSync.SettingsCoordinate` | src/services/settings/user-app-settings.ts:21-27 | the requested coordinate is kind 30078, owner = the pubkey, identifier "nostrudel-settings" |
| `SettingsSync.DTagFirst` | src/services/settings/user-app-settings.ts:39 | the identifier read from a tag list is the value of its first `d` tag that has one |
| `SettingsSync.SettingsSubject.ConnectWithHandler` | src/services/settings/user-app-settings.ts:28 | the subject follows the given request subject with the given handler, replacing any earlier connection, and keeps its value |
| `SettingsSync.SettingsSubject.Emit` | src/services/settings/user-app-settings.ts:28 | an emitted record becomes the subject's value through the handler; the connection is kept |
| `SettingsSync.UserAppSettings.constructor` | src/services/settings/user-app-settings.ts:13-15 | the subject map starts empty, with the defaults, parser and serializer fixed |
| `SettingsSync.UserAppSettings.GetSubject` | src/services/settings/user-app-settings.ts:16-18 | get-or-create: an existing subject is returned unchanged; otherwise a fresh subject holding the default settings is stored under the pubkey; other entries stay |
| `SettingsSync.UserAppSettings.RequestAppSettings` | src/services/settings/user-app-settings.ts:19-30 | returns the pubkey's subject (created with the defaults on first use, value otherwise kept); logs exactly one request for the settings coordinate with the caller's relays and options; connects the subject to it with the parser; other subjects untouched |
| `SettingsSync.UserAppSettings.ReceiveEvent` | src/services/settings/user-app-settings.ts:32-34 | the record is forwarded to the requester; subjects and requests are untouched |
| `SettingsSync.UserAppSettings.BuildAppSettingsEvent` | src/services/settings/user-app-settings.ts:36-43 | kind 30078, the single tag `["d", "nostrudel-settings"]`, the serialized settings and the given time; whoever signs it, the draft lands on that signer's settings coordinate, the one `RequestAppSettings` queries |
| `SettingsSync.FirstEmission` | src/services/settings/user-app-settings.ts:13-30 | a freshly requested subject shows the defaults until the first record, then the parse of the latest record; a later lookup returns the same subject |

## Left out

- Asynchrony: `db.getAll` resolving later is modelled as an explicit `Init` call. Races between `Init` and other operations are not modelled.
- `Accounts.AccountService.Init` requires the loaded list to be pubkey-unique. This is what a store keyed by pubkey returns.
- The subjects' subscriber notification and replay are not modelled; each subject is a plain field. `PersistentSubject` and `SuperMap` are not part of this model.
- Local storage, the durable store and their write failures: they are fields updated in place. A failing write is not modelled.
- The `window` debug globals and the module-level singletons are not modelled.
- `parseAppSettings` with its migration chain, `defaultSettings` and `JSON.stringify` are parameters of `UserAppSettings`; their internals are not part of this model. A parse that throws is not modelled.
- `dayjs().unix()` is the `now` argument of `BuildAppSettingsEvent`.
- `SettingsSync.UserAppSettings.RequestAppSettings`: the subject keeps its default or earlier value after the call, because a record already cached by the requester is not replayed to the subject on connection; it arrives only through a later `SettingsSubject.Emit`.
- `SettingsSync.UserAppSettings.ReceiveEvent`: a forwarded record never reaches a connected settings subject within the same call, because the requester's accept-and-push step is not modelled; delivery is a separate, later `SettingsSubject.Emit`.
- The replaceable-record requester is not modelled beyond the interface the service uses. Its de-duplication, its latest-record-wins merge and its subscription lifetime are out. The service's requests and forwarded records are logs, and emissions arrive through `SettingsSubject.Emit`.
- `RequestOptions` fields belong to the requester; the options are passed through as an opaque value.
- The settings structure is a stand-in record (version and named values); only its identity matters here.
- The `readonly` literal of each account variant is a derived predicate (`Account.Readonly`) rather than a stored field.
