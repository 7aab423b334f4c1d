# Teamkill ledger of the Destiny Discord bot, in Dafny

The bot keeps an in-memory tally of teamkills ("betrayals"): for every killer,
for every victim, the list of moments at which that killer was recorded killing
that victim. `src/kill-tracker.ts` holds it in a `Map<string, Map<string,
number[]>>` and offers three exported operations — `registerKill`, `getKills`,
`getTotalKillCounts` — on top of two lazy-creation helpers, `getKillerKills`
and `getVictimKills`.

This project models that ledger as an immutable value
(`map<string, map<string, seq<int>>>`) with pure operations:

- `kill_tracker.dfy`, module `KillTracker`: the ledger, the five operations,
  the append-only relation `Extends`, the reference total `TotalOf` (the sum of
  a killer's list lengths, independent of the order the victims are visited
  in), and lemmas about single calls.
- `kill_history.dfy`, module `KillHistory`: a history of calls replayed on the
  empty ledger of a fresh process, and lemmas relating the resulting ledger to
  the history — which killers and victims appear, what each list holds, what
  each total is, and that the ledger only ever grows.

Modelling choices:

- The clock read inside `registerKill` (`Date.now()`) is the parameter `now`.
- The operations are `async` in the source but never suspend; they are modelled
  as ordinary functions.
- Every operation that may change the ledger returns an `Updated(state, value)`
  pair: the ledger afterwards and the value the source returns. The source
  returns the live, shared map object, so a caller holding it sees later kills;
  the model returns the map's contents as they stand when the call returns.
- The source tests `if (existing…)` for presence. A `Map` object and an array
  (even an empty one) are always truthy in JavaScript and a missing key gives
  `undefined`, so the test is exactly key presence, and the model uses `in`.
- `getTotalKillCounts` folds over the killers in insertion order and returns a
  plain object. Addition is order-independent, so the model returns a
  `map<string, nat>` computed by visiting killers and victims in any order
  (`GetTotalKillCounts`, `SumKills`) and proves the result equal to the
  order-free sum `TotalOf`.

Where the design description of the system and the code differ, the model
follows the code:

- `getKills` is described as read-only. The code creates and stores an empty
  record for a killer it has never seen (`getKillerKills`), so the model's
  `GetKills` returns an extended ledger.
- The totals are described as covering every killer "that has ever recorded a
  kill". In the code they cover every killer in the ledger, so a killer who was
  only looked up with `getKills` appears with a total of 0
  (`GetKillsOfUnseenKiller`, `KillHistory.ReplayTotals`).
- Recording order is described as chronological order. That holds only while
  the clock never goes back. The model proves it under that explicit premise
  (`RegisterKillKeepsOrder`, `KillHistory.ReplayChronological`).

## Model

| member | source | states |
|---|---|---|
| KillTracker.GetKillerKills | src/kill-tracker.ts:5-13 | the killer's record afterwards is in the ledger and is the one returned; an unseen killer gets an empty record; the killers grow by exactly this one and every existing record is untouched |
| KillTracker.GetVictimKills | src/kill-tracker.ts:15-26 | the victim's list afterwards is in the killer's record and is the one returned; an unseen victim gets an empty list; the victims grow by exactly this one and every existing list is untouched |
| KillTracker.RegisterKill | src/kill-tracker.ts:28-34 | the (killer, victim) list becomes its previous contents (empty if absent) with `now` appended; every other (killer, victim) list is unchanged; killers grow by the killer, the killer's victims grow by the victim; other killers' records are untouched; the ledger is extended append-only; the returned record is the killer's record after the append |
| KillTracker.GetKills | src/kill-tracker.ts:36-38 | returns the killer's record, or an empty one for an unseen killer, and stores that killer; nothing already recorded changes |
| KillTracker.GetKillerKillsIdempotent | src/kill-tracker.ts:5-13 | a second lookup of the same killer leaves the same ledger and returns the same record as the first |
| KillTracker.GetKillsIdempotent | src/kill-tracker.ts:36-38 | calling `getKills` twice with one id has the same effect and result as calling it once |
| KillTracker.GetKillsOfUnseenKiller | src/kill-tracker.ts:5-13 | for an unseen killer the lookup returns an empty record yet stores the killer, whose total is then 0 |
| KillTracker.TotalOfRemove | src/kill-tracker.ts:44-47 | a killer's total is any one victim's list length plus the total of the rest, so the sum does not depend on the order victims are visited in |
| KillTracker.RegisterKillTotals | src/kill-tracker.ts:28-51 | a registered kill raises its killer's total by exactly one and leaves every other killer's total unchanged |
| KillTracker.SumKills | src/kill-tracker.ts:44-47 | the sum of list lengths over a killer's victims equals the killer's total |
| KillTracker.GetTotalKillCounts | src/kill-tracker.ts:40-51 | the result has exactly the ledger's killers as keys, and each killer's value is the sum over their victims of the kill list lengths |
| KillTracker.RegisterKillKeepsOrder | src/kill-tracker.ts:28-33 | appending a moment no earlier than those already in its list keeps every list of the ledger in time order |
| KillHistory.ReplayKillers | src/kill-tracker.ts:5-13 | after a history of calls on an empty ledger, the ledger holds a record for exactly the killers named by some `registerKill` or `getKills` call |
| KillHistory.ReplayVictims | src/kill-tracker.ts:15-33 | after a history of calls on an empty ledger, a killer's record lists exactly the victims some `registerKill` call recorded for that killer |
| KillHistory.ReplayEntries | src/kill-tracker.ts:28-33 | after a history of calls on an empty ledger, each (killer, victim) list is the clock readings of that pair's `registerKill` calls, in call order, and empty for a pair never registered |
| KillHistory.ReplayTotals | src/kill-tracker.ts:28-51 | after a history of calls on an empty ledger, a killer's total equals the number of `registerKill` calls naming them, and the killer has a total at all iff some call named them |
| KillHistory.ReplayGrows | src/kill-tracker.ts:3-38 | entries are created lazily and never removed or rewritten: the ledger at any point of a history is extended append-only by the ledger at every later point |
| KillHistory.ReplayChronological | src/kill-tracker.ts:28-33 | if the clock readings of a history's kills never go back, every kill list ends up in time order |

## Left out

- `Date.now()`: the clock is an input (`now`); its readings are not modelled, and time order is only claimed under the premise that they never go back.
- Aliasing of the returned maps: the source hands out the live record, which later `registerKill` calls keep changing; the model returns a snapshot value.
- `async`/Promise wrapping of the three exported operations: they never suspend, so they are modelled as synchronous.
- The betrayal-report vote workflow (reaction quorum, timeout, one-shot resolution) and the rank-by-descending-count query: the system's design describes them, but no code for them exists in the repository files this model covers.
- `src/index.ts`, `src/app.ts`: web server routes, the Bungie OAuth token exchange, HTTPS setup and signal-driven shutdown; all network and process I/O.
- `src/bungie.ts`: thin wrappers over the Bungie API client and `fetch`; network-bound.
- `src/discord.ts`: the Discord client and its event handlers, and a user cache whose expiry is driven by timers; `isCommand` is a one-line case-insensitive string comparison that depends on Unicode lower-casing.
