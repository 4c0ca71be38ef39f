# vapor-friendslist: the friends-list reconciliation policy in Dafny

The plugin keeps an insertion-ordered friends list of SteamID64 strings for a
Steam bot, capacity-limited by `limit` for incoming requests. It has three entry points:

- The `friend` event handler reacts to one relationship change. An incoming
  request (`RequestRecipient`) goes through `addFriend`. A severed
  relationship (`None`) removes the user. Any other state is ignored. The list
  is saved in every case.
- `addFriend` is the admission rule. When the count equals `limit`, it removes
  the oldest member on Steam and in the list. If there is nobody to remove, it
  warns and drops the request. Otherwise it accepts the user, adds them as the
  newest member and, if a `welcomeMessage` is configured, schedules a greeting.
- The `relationships` handler is a full sync against Steam's `id → state`
  listing. `Friend` entries are added directly, with no eviction.
  `RequestRecipient` entries go through `addFriend`. Members the listing does
  not mention are then removed. One save and a "synchronized" notice end the
  pass.

Each handler is modelled as a pure function from (roster, settings, input) to
a `Step`: the new roster and the list of commands it issues, in order. The
commands are accept, terminate, greet, info, warn, save (carrying the roster
as saved), friendAccepted and friendRemoved.

Files and modules:

- `roster.dfy`, module `Roster`. The friends-list store, as a sequence of
  distinct ids with the oldest at index 0.
- `settings.dfy`, module `Settings`. The configuration values as JavaScript
  values, with the `||` defaulting of `limit` (100), `welcomeMessage` and
  `welcomeMessageDelay` (3000).
- `engine.dfy`, module `Engine`. `addFriend` and both handlers, plus the
  removal loop of the sync as a method.
- `properties.dfy`, module `Properties`. Properties that span several calls:
  the capacity bound over any sequence of friend events, and sync idempotence
  when the snapshot holds no pending request.
- `scenarios.dfy`, module `Scenarios`. Worked examples on concrete rosters.

**Assumption about the store.** The store's source (`friendslistmanager.js`)
is not part of this model. It is modelled as follows:

- `add` appends the id.
- `remove` deletes the id.
- `count` is the length.
- `getOldestAdded` is the first element, or nothing when the list is empty.

The store is keyed by id (`user in manager.friends`, index.js:46), so ids are
distinct. Adding an id that is already present keeps one entry and makes it
the newest. Nothing is claimed about how the store records insertion time.

**Behaviour of the code worth knowing:**

- The roster can exceed `limit`. Sync's `Friend` entries bypass eviction
  (index.js:45-48). The eviction test is `===`, so while the count stays past
  the limit the test does not fire and each admission of a user not yet on the
  list grows it
  (`Scenarios.ScenarioSyncExceedsLimit`). Only a removal brings the count back
  to the limit, after which the test fires again
  (`Scenarios.ScenarioRemovalRestoresEviction`). The bound is guaranteed over
  `friend` events (`Properties.OnFriendEvents`).
- The removal pass of a sync removes only members that are not keys of the
  snapshot, whatever their state (index.js:56). A member listed with state
  `None` stays (`Scenarios.ScenarioSyncKeepsListedNone`). A listed member can
  still leave during a sync: a `RequestRecipient` entry's `addFriend` can
  evict it, including a `Friend` added earlier in the same pass, which is then
  also terminated on the service (`Scenarios.ScenarioSyncNotIdempotent`).
- A repeated sync is guaranteed to be idempotent only when the snapshot holds
  no pending request (`Properties.LemmaSyncIdempotentWithoutRequests`). With
  one, `addFriend` runs again with no membership check (index.js:49-50), and
  the second sync can change the roster
  (`Scenarios.ScenarioSyncNotIdempotent`).
- The "nobody to remove" branch needs a full but empty list. That means a limit
  of 0, and `config.limit || 100` never yields 0. So, with the abstract store
  (the count is the list's length and `getOldestAdded` returns null only for an
  empty store), the branch is unreachable with a resolved configuration
  (`Properties.LemmaResolvedNeverDrops`). It is
  still modelled, for any `Config`.

## Model

| member | source | states |
|---|---|---|
| Roster.Remove | index.js:85 | `manager.remove`: exactly the given id leaves the roster, other members stay, the length drops by one when it was present, and a distinct roster stays distinct |
| Roster.Add | index.js:92 | `manager.add`: the id becomes the newest (last) member, membership gains exactly that id, the length grows by one for a new id, and removing the id again gives the roster without it |
| Roster.GetOldestAdded | index.js:77-79 | `getOldestAdded` returns nothing exactly for an empty roster, and otherwise the member with the lowest insertion rank |
| Roster.LemmaRemoveIsSplice | index.js:85 | on a distinct roster, removal cuts out exactly the one position holding the id and keeps the order of the rest |
| Roster.LemmaOldestAfterRemove | index.js:77-85 | after a removal, the oldest lookup returns the first member that was not removed |
| Settings.Resolve | index.js:17-19 | each field keeps the configured value when it is truthy; otherwise `limit` becomes 100, `welcomeMessage` becomes undefined and `welcomeMessageDelay` becomes 3000. The resolved limit and delay are truthy |
| Settings.GreetsIffNonEmptyText | index.js:97 | the greeting test `welcomeMessage && typeof welcomeMessage === 'string'` holds exactly for a non-empty string |
| Settings.ResolvedLimit | index.js:17 | a resolved limit is never 0; a non-numeric limit never equals a count under `===` |
| Engine.Greeting | index.js:97-101 | at most one greeting, present exactly when the message is a non-empty string, addressed to the user with that text |
| Engine.LemmaEvictThenAdmit | index.js:84-95 | in the eviction branch the single terminate is the first command, `friendRemoved` follows it, the accept comes after both, no save is issued and a greeting can only be last |
| Engine.AddFriend | index.js:75-102 | full roster with nobody to remove: roster unchanged, only a warning naming the user. Evicting: exactly terminate, evicted notice and friendRemoved for the oldest member, then accept, added notice and friendAccepted for the user, then nothing but the greeting. Below or past the limit: the same three admission commands, then nothing but the greeting; the roster only gains the user. Every accept and friendAccepted is for the user and occurs once; a warning only when dropped; friendRemoved only when evicting. Membership, counts and distinctness after the call; a numeric limit is not exceeded from within it. A greeting exactly on admission with a non-empty text, always last. No save |
| Engine.OnFriend | index.js:27-35 | exactly one save, last, of the final roster. A request runs `addFriend`. `None` is the store's removal of that user, so the other members keep their order. Any other state leaves the roster unchanged. Distinctness and a numeric limit are preserved |
| Engine.SyncEntry | index.js:45-51 | a listed `Friend` already present is not re-added. A new one is appended with no commands, so there is no eviction. A `RequestRecipient` runs `addFriend` with no membership guard. Other states are skipped |
| Engine.NewFriends | index.js:45-48 | reference for what a request-free first loop appends: in snapshot order, the id of each `Friend` entry that is neither a member already nor listed as a friend earlier; its members are exactly the listed friends not in the roster |
| Engine.SyncAdditions | index.js:44-52 | the first loop adds only snapshot ids, keeps the roster distinct and issues no save. Every pending request is accepted unless the limit is 0. Without pending requests it issues nothing, and the roster is the old roster followed by `NewFriends`: the listed friends that are new, in snapshot order |
| Engine.RemoveStale | index.js:54-59 | exactly the members that are snapshot keys remain, none is added, and a distinct roster stays distinct |
| Engine.LemmaRemoveStaleKeepsOrder | index.js:54-59 | the members that survive the removal pass keep their relative order, so the oldest survivor is first |
| Engine.LemmaRemoveStaleNothingStale | index.js:55-59 | the removal pass changes nothing when every member is listed |
| Engine.PruneDeadEntries | index.js:55-59 | the removal loop, one `remove` per unlisted member in iteration order, yields the same roster as the filter |
| Engine.OnRelationships | index.js:43-64 | after sync every member is a snapshot key. The last two commands are the single save of the final roster and the synchronized notice. Every pending request is accepted unless the limit is 0. Without pending requests nothing else is issued, and the roster is exactly the listed old members in their order followed by `NewFriends` in snapshot order |
| Properties.OnFriendEvents | index.js:27-35 | over any sequence of `friend` events the roster stays distinct and, with a numeric limit, within it; a non-empty sequence of events ends with a save of the final roster |
| Properties.LemmaSyncAdditionsStable | index.js:44-52 | when every listed friend is already a member and no request is pending, the first sync loop leaves the roster unchanged |
| Properties.LemmaSyncIdempotentWithoutRequests | index.js:43-64 | a second sync with the same request-free snapshot yields the same roster and the same commands |
| Properties.LemmaResolvedNeverDrops | index.js:76-82 | with a resolved configuration a request is never dropped for want of someone to remove |
| Scenarios.ScenarioEvictOldest | index.js:76-95 | limit 2, roster [P1, P2], request from P3: P1 is terminated before P3 is accepted; roster [P2, P3], then one save |
| Scenarios.ScenarioAdmitIntoEmpty | index.js:91-95 | default limit, empty roster, request from P1: accepted with no eviction; roster [P1] |
| Scenarios.ScenarioGreeting | index.js:97-101 | with welcomeMessage "hi" the greeting to the new user follows the admission commands |
| Scenarios.ScenarioNobodyToRemove | index.js:77-82 | limit 0, empty roster: the request is dropped with a warning and the unchanged roster is saved |
| Scenarios.ScenarioSyncKeepsListedNone | index.js:55-59 | roster [P1, P2, P3] synced against {P1: Friend, P2: None} becomes [P1, P2]: only the unlisted P3 is removed |
| Scenarios.ScenarioSyncExceedsLimit | index.js:45-48 | limit 1: sync grows [a] to [a, b], and a later admission then grows it to [a, b, c] without any terminate |
| Scenarios.ScenarioRemovalRestoresEviction | index.js:76-85 | limit 1, roster [a, b] past the limit: a `None` event for b brings it back to [a], and the next request evicts a again |
| Scenarios.ScenarioSyncNotIdempotent | index.js:44-59 | limit 1, snapshot {a: Friend, b: RequestRecipient}: the first sync from [] adds a, then evicts it for b although the snapshot lists a, giving [b]; the second gives [a, b] |

## Left out

- Host wiring is not modelled: handler registration, `getHandler`, `hasHandler`
  and event delivery (index.js:7-13, 23-26, 39-42, 116-122). The handlers are
  called directly as functions.
- Loading and saving the list is not modelled: the `readFile` / `writeFile`
  events, `JSON.stringify` / `JSON.parse`, the corrupt-cache fallback and the
  `writeFile` error warning (index.js:104-111, 124-141). These are foreign
  calls and serialisation. A save is only an emitted command carrying the
  roster it would write.
- The greeting's timing is not modelled. `setTimeout` with
  `welcomeMessageDelay` is scheduling: the model records the `(user, message)`
  pair to be sent, not when it fires. `welcomeMessageDelay` is resolved but not
  used by the engine.
- Message wording and `utils.getUserDescription` are not modelled; they are
  text formatting. Notices record only whom they are about.
- The store's own code is not modelled, only the abstraction described above.
- Configuration numbers are integers; fractional numbers and NaN are not
  modelled. NaN is falsy, so `config.limit || 100` turns it into 100. A
  fractional limit never equals a count under `===`, so it behaves like any
  other limit that never matches.
- The snapshot is a sequence of entries in the order the `for…in` loop visits
  the keys of `steamFriends.friends`. SteamID64 strings are beyond JavaScript's
  array-index range, so that order is insertion order.
- Engine.OnRelationships: when the snapshot holds pending requests, the
  contract states that no stale member remains, that each request is
  accepted and how the commands end, not the exact roster or the order of
  the commands. Evictions during the pass make membership depend on the
  whole iteration; the concrete scenarios show such cases.
- Engine.SyncAdditions: with pending requests, the same limits apply as for
  `Engine.OnRelationships`. Which members the evictions remove, and where the
  requests land in the roster, is not stated for the general case.
- Properties.OnFriendEvents: the capacity bound is stated for numeric limits
  only. A limit that is not a number never triggers eviction, so no bound
  exists for it.
