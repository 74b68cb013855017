# Points ledger of the ad-reward server

This project models the points ledger of a Telegram reward program, as `server.js`
implements it:

- Users earn one point for each ad they watch. Each view also adds one point to a shared
  daily pool and one ticket to the user's count for that day.
- Once per day, a job splits the previous day's pool over that day's ticket holders.
- Users can also redeem promo codes and name a referrer.

The six SQLite tables are fields of one class, `Ledger.Ledger`:
- `users`
- `ad_sessions`
- `ad_participation`
- `pool_days`
- `promo_codes`
- `promo_redemptions`

Maps replace the tables, and each request handler or job is a method that updates
those maps step by step. The pure parts (the arithmetic of the split, the request gates,
the code formats) are functions with lemmas about them.

Modules:

- `Results`: `Option` and `Result`.
- `Codes`: the hex encodings behind referral codes (4 random bytes, upper case) and nonces
  (16 random bytes, lower case), and the trim-and-upper-case normalisation of a typed code.
  It also holds `PickReferralCode`, the loop that draws codes until one is unused.
- `Pool`: a day's pool record and the split. Each ticket is worth `floor(pool / total)`,
  and the remainder goes out greedily in row order, at most one point per ticket.
  `Distribution` gives the whole outcome of the job for a day.
- `Accounts`: the user record, balance credits and the referral decision.
- `AdSessions`: the session record, the gates of `opened` and `claim` (checked in the
  source's order), and the two transitions.
- `Promos`: the promo record, the redemption gate, and the consistency of codes with their
  redemptions.
- `Ledger`: the class and its operations:
  - `EnsureUser`, `ApplyReferral`, `RedeemPromo`, `StartAd`, `MarkAdOpened` and `ClaimAd`;
  - `DistributePoolForDay`, which calls the payout loop `PayOut`;
  - the request sequences `WatchAd`, `ClaimTwice` and `DistributeTwice`.

`Ledger.Ledger.Valid` is the consistency every operation keeps:
- user ids are non-empty and referral codes are unique;
- a referrer exists and is never the user itself;
- sessions belong to existing users and are well formed;
- participation rows belong to existing users;
- every promo code's `uses` is within `0..max_uses` and equals its number of distinct
  redeemers.

The following are parameters:
- the clock (`now`, whole seconds), used for the `*_at` columns;
- the UTC day key;
- the seconds elapsed since an ad was opened;
- the random bytes behind referral codes and nonces;
- the `referrals_enabled` and `promo_enabled` flags.

In these places the code behaves differently from what one might expect; the model follows the code:

- The `opened` handler does not check `claimed` (server.js:470-475). On a claimed session
  it answers ok and changes nothing (`AdSessions.OpenAcceptsClaimedSession`). It does not
  fail with `already_claimed`.
- The participation query has no `ORDER BY` (server.js:274), so the order in which the
  remainder is handed out is the store's. `order` is an input to `DistributePoolForDay`,
  and all that is assumed about it is: each row of the day with a positive count, at most
  once. No ascending order is imposed.
- `claim` adds its point to today's pool without looking at `distributed`
  (server.js:503-504). A pool day that is already distributed can therefore still grow,
  although it is never paid again. The model does the same and keeps only the fact that a
  sealed day stays sealed (`SealsKept`).
- The handlers run their updates one after another with no transaction. The model
  describes each operation's effect as one sequential step.

Several small functions are helpers whose contracts only spell out their definition; the
operations in the table below are stated in their terms:
- `Accounts.Credit`: the balance update `points = points + ?`, which leaves a missing user
  alone.
- `Promos.ActivePromo`: the `code = ? AND active = 1` lookup.
- `Pool.Sealed`: the `distributed = 1, distributed_at = now` update.
- `Ledger.Lookup`: a row by key.
- `Ledger.Counts`: the ticket counts of the listed rows.
- `AdSessions.MarkOpened` and `AdSessions.MarkClaimed`: the session updates
  `opened = 1, opened_at = now` (first time only) and `claimed = 1, claimed_at = now`.

## Model

| member | source | states |
|---|---|---|
| Codes.GenReferralCode | server.js:206-208 | a referral code is 8 characters, all upper-case hex digits, two per random byte |
| Codes.NonceOf | server.js:456 | a nonce is 32 lower-case hex digits, two per random byte |
| Codes.HexInjective | server.js:207 | distinct random bytes give distinct codes, so a fresh draw can only collide on equal bytes |
| Codes.Trim | server.js:241 | the result is the slice of the input between its leading and trailing blanks (every character outside it is a blank), and it neither starts nor ends with a blank |
| Codes.Normalize | server.js:241 | a typed code is looked up as the upper-cased slice of the input between its leading and trailing blanks; the result has no lower-case letter and no blank at either end |
| Codes.NormalizeHex | server.js:241 | a stored code typed in either case normalises back to the stored code |
| Codes.PickReferralCode | server.js:217-220 | the retry loop returns the first drawn code that no user has; every earlier draw was taken |
| Accounts.CreditAll | server.js:286-300 | crediting a list of rows keeps the set of users |
| Accounts.CreditAllEffect | server.js:286-300 | with distinct rows, every listed user gains exactly its own amount and every other user is untouched |
| Accounts.CreditAllKeepsAccounts | server.js:298 | balance credits never change who exists, their codes or their referrers |
| Accounts.CodeHoldersSpec | server.js:244-245 | with unique codes, a typed code belongs to a user exactly when it is among the used codes, and to one user at most, so `LIMIT 1` picks the only holder |
| Accounts.AddUserKeepsCodesUnique | server.js:217-221 | inserting a user with an unused code keeps codes unique and adds exactly that code |
| Accounts.ReferralDecision | server.js:237-253 | a referrer is recorded exactly when referrals are enabled, the code is non-empty and held by a user other than the new user, and the new user exists without a referrer; the recorded referrer is the holder |
| Accounts.ReferralSetOnce | server.js:250-253 | once a referrer is recorded, every later referral attempt leaves it alone |
| Accounts.NoSelfReferral | server.js:247-248 | nobody becomes their own referrer |
| AdSessions.NewSession | server.js:457 | a new session belongs to the caller and is neither opened nor claimed |
| AdSessions.OpenRejection | server.js:467-472 | `opened` refuses missing fields, then an unknown nonce, then a foreign nonce, each exactly under its condition, and accepts otherwise |
| AdSessions.ClaimRejection | server.js:485-497 | `claim` refuses, in this order, missing fields, unknown nonce, foreign nonce, already claimed, not opened, and under 20 s (reporting need 20 and the elapsed time); each error is returned exactly under its condition, and the claim is accepted otherwise |
| AdSessions.TransitionsKeepWellFormed | server.js:473-512 | opening and claiming an opened session keep flags and timestamps in step |
| AdSessions.OpenIdempotent | server.js:473-476 | the first `opened` fixes the open time; later calls change nothing |
| AdSessions.ClaimedOnlyOnce | server.js:491-512 | after an accepted claim, claiming the same session again returns `already_claimed`, whatever the timing |
| AdSessions.ClaimBeforeOpen | server.js:492 | a session that was never opened is refused with `not_opened` |
| AdSessions.ForeignNonceRefused | server.js:472-490 | a nonce presented by anyone but its owner is refused by both `opened` and `claim` |
| AdSessions.DwellBoundary | server.js:495-497 | on an opened, unclaimed session the claim is accepted exactly when elapsed >= 20, so exactly 20 s is accepted, and it is refused with `too_fast` below that |
| AdSessions.OpenAcceptsClaimedSession | server.js:470-475 | `opened` on a claimed session is accepted and changes nothing |
| Promos.PromoRejection | server.js:359-379 | a redemption is refused, in this order, when promos are disabled, the code is missing or inactive, its uses reached `max_uses`, or the user already redeemed it; each error is returned exactly under its condition |
| Promos.UsesWithinCap | server.js:370 | the cap half of the promo invariant: consistent promo tables keep every code's uses within `0..max_uses` (the invariant itself is preserved by `RedeemKeepsPromosValid`) |
| Promos.RedeemersAfterInsert | server.js:381 | recording a redemption adds that user to the code's redeemers and to no other code's; the user was not a redeemer before |
| Promos.RedeemKeepsPromosValid | server.js:370-382 | an accepted redemption keeps `uses` within the cap and equal to the number of distinct redeemers, so no user redeems a code twice |
| Pool.Distribution | server.js:265-300 | the job's outcome: skipped exactly when already distributed; sealed with no payout exactly when the pool is <= 0 or there are no tickets; otherwise perTicket = floor(pool / total), 0 <= remainder < total, the payouts sum to the pool and each lies in [perTicket*t, perTicket*t + t] |
| Pool.LeftIsExcess | server.js:289-294 | the running remainder never goes negative: after some rows it is max(0, remainder - their tickets) |
| Pool.SharesSum | server.js:286-295 | the payouts sum to perTicket times the tickets, plus the part of the remainder handed out |
| Pool.RemainderBounds | server.js:283-284 | for a positive total, 0 <= remainder < total and perTicket * total + remainder = pool |
| Pool.Conservation | server.js:283-300 | the payouts of a day sum to exactly its pool |
| Pool.SharesAt | server.js:286-295 | payout i is perTicket * t_i plus the bonus that the remainder left after rows 0..i-1 still allows |
| Pool.BonusClosedForm | server.js:289-294 | row i's remainder bonus is min(t_i, max(0, remainder - tickets of rows 0..i-1)): the remainder goes to the first rows |
| Pool.ShareBounds | server.js:286-294 | each participant with t tickets gains between perTicket*t and perTicket*t + t |
| Pool.AllShareBounds | server.js:286-294 | the bound holds for all participants at once |
| Pool.DistributionIdempotent | server.js:266-302 | a sealed day is skipped by any later run, whatever its tickets |
| Pool.Examples | server.js:281-295 | tickets 5, 3 and 2 split a pool of 10 as 5, 3, 2 and a pool of 11 as 6, 3, 2 |
| Ledger.Ledger.constructor | server.js:81-175 | empty tables, apart from the promo codes an administrator created, which start unused; the tables are consistent |
| Ledger.Ledger.EnsureUser | server.js:210-235 | the empty id is refused; a known user is returned unchanged; a new user is created with 0 points, no referrer and the first drawn code no user has; nothing else changes |
| Ledger.Ledger.ApplyReferral | server.js:237-254 | the referrer is recorded exactly under the referral conditions, on the typed code trimmed and upper-cased; it is the holder of that code; otherwise nothing changes |
| Ledger.Ledger.RedeemPromo | server.js:356-383 | a refused redemption returns its error and changes nothing; an accepted one records (code, user), adds 1 to uses and credits the code's points; uses stay within max_uses |
| Ledger.Ledger.StartAd | server.js:450-462 | a missing id is refused with no change; otherwise the user is ensured (a new user starts with 0 points, no referrer and a code no other user has; existing users are unchanged) and, unless the drawn nonce is taken (then server_error), a session owned by the caller, neither opened nor claimed, is stored and the nonce is returned with 20 s |
| Ledger.Ledger.MarkAdOpened | server.js:464-480 | a refused request returns its error and changes nothing; an accepted one sets opened and opened_at the first time only; no other table changes |
| Ledger.Ledger.ClaimAd | server.js:482-518 | a refused claim returns its error and leaves every table unchanged; an accepted one adds 1 to the user's points, 1 to the day's pool (creating it at 0), 1 to the user's tickets for the day, marks the session claimed, and touches nothing else; no sealed day is unsealed |
| Ledger.Ledger.SetBalances | server.js:297-299 | writing balances that keep every user, code and referrer keeps the tables consistent |
| Ledger.Ledger.DistributePoolForDay | server.js:257-304 | the outcome is `Distribution` of the day's record and the listed tickets; a day already distributed is left with every table unchanged; otherwise the day ends sealed; balances change only on a payout, by crediting the payouts row by row; no sealed day is unsealed; sessions, participation and promos are untouched |
| Ledger.Ledger.PayDay | server.js:281-302 | with a positive pool and tickets, the payouts are those of `Distribution`, the users are credited with them, and the day is sealed |
| Ledger.PayOut | server.js:283-300 | the loop's payouts are `Shares` of the tickets, and the balances it leaves are the row-by-row credits of those payouts |
| Ledger.EveryParticipantPaid | server.js:274-300 | when the rows list every participant of the day, each participant is credited its own payout |
| Ledger.SumOfPositives | server.js:274-275 | positive ticket counts total at least the number of rows, so a day with a listed row has tickets and takes the paying branch |
| Ledger.PayStep | server.js:286-299 | one loop iteration extends the remainder, the payouts and the credits by one row |
| Ledger.AddUserKeepsUsersValid | server.js:221 | inserting a user with a non-empty id and an unused code keeps the users consistent |
| Ledger.SetReferrerKeepsUsersValid | server.js:253 | recording an existing other user as referrer keeps the users consistent |
| Ledger.StoreSessionKeepsValid | server.js:457 | storing a well-formed session of an existing user keeps the sessions consistent |
| Ledger.CountTicketKeepsValid | server.js:506-510 | counting a ticket for an existing user keeps participation rows attached to users |
| Ledger.BumpPoolKeepsSeals | server.js:503-504 | adding to a day's pool never unseals it |
| Ledger.WatchAd | server.js:450-518 | start, opened and claim in sequence with a fresh nonce, the claim coming `elapsed` seconds after the open: start and opened succeed; when elapsed >= 20 the claim succeeds and the user's balance (0 for a new user), the day's pool and the user's tickets for the day each grow by 1; below 20 it answers too_fast |
| Ledger.ClaimTwice | server.js:491-512 | the same nonce claimed twice credits once: after an accepted claim the second is refused with already_claimed, and the balance, the day's pool and the user's tickets each grew by 1 in all |
| Ledger.DistributeTwice | server.js:264-302 | the daily job run twice on a day: the second run is skipped and the balances are those of a single run |

## Left out

- HTTP routing, status codes and JSON shaping, the Telegram bot and its messages, and the
  `/start` command handler that chains `ensureUser` and `applyReferralIfEnabled`
  (server.js:328-351). These are request plumbing.
- The SQLite wrappers, the migrations and the seeding of items. Maps replace the tables;
  the schema's keys are kept as map keys and as the uniqueness invariants (the `UNIQUE`
  referral code at server.js:84 is `Accounts.UniqueCodes`).
- `ensureUser`'s trial-miner inventory insert (server.js:223-232). The items and inventory
  tables are not part of this model.
- The scheduler, `todayKeyUTC` and `datetime('now')`. The day key and the time are
  parameters, and timestamps are whole seconds.
- `Date.parse` and the floating-point elapsed time (server.js:495-496). The elapsed
  seconds are an integer parameter, so `Math.floor(elapsed)` in the `too_fast` answer is
  that integer.
- `crypto.randomBytes`. The random bytes are parameters: 4 per referral-code draw and 16
  per nonce.
- The `Number(...)` and `|| 0` coercions. Every column is a mathematical integer in the
  model, and there is no overflow.
- Atomicity and interleaving of the sequential `await` calls. There is no concurrency in
  the model.
- The admin endpoints (server.js:521-587) and the status endpoints `/api/me`, `/api/items`
  and `/api/pool` (server.js:389-447). Their only writes are `/api/me`'s `ensureUser` call
  (server.js:394), which `EnsureUser` models, and `/api/pool`'s insert of an empty pool row
  for today (server.js:441), which `DayRecord` already treats like a missing day. Promo codes as an administrator created them
  are the constructor's argument, with `uses` at 0. The two feature flags are boolean
  parameters.
- Codes.Normalize: trimming and upper-casing cover ASCII only. The blanks are space, tab,
  line feed, carriage return, vertical tab and form feed, and only a-z is upper-cased.
  JavaScript's `trim` and `toUpperCase` also handle Unicode.
- Codes.PickReferralCode: it requires that some draw yields an unused code. The source
  would keep drawing for ever otherwise, and that non-termination is not modelled.
- Ledger.Ledger.EnsureUser: it has the same requirement on the draws, for a new user.
- Ledger.Ledger.StartAd: it has the same requirement on the draws, for a new user.
- Ledger.Ledger.DistributePoolForDay: it does not require that `order` lists every
  participant row of the day. It takes any duplicate-free list of positive rows.
  `EveryParticipantPaid` states what a complete list adds.
- Ledger.Ledger.RedeemPromo: it starts after the handler's `ensureUser` call
  (server.js:357). That call is `EnsureUser`; without it, crediting a missing user changes
  nothing, as the UPDATE would.
