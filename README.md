# Reward-claim script: pending claims and claim tuples

A model of the data shaping in the Balancer reward-claim script
(`claim-script/claim.ts`). For an account on a network, the script does four things:

- downloads the snapshot, which maps each week to the IPFS hash of that week's report;
- asks the Merkle-redeem contract for the claim status of weeks 1 to N, where N is the number of snapshot keys;
- fetches the report of every pending week from IPFS;
- turns each week whose report has a truthy entry for the account into a claim `{id, amount, amountDenorm}`, where `amountDenorm = parseUnits(amount, 18)`.

`claimRewards` then maps every claim to the tuple `[parseInt(id), toWei(amount), proof]`.

Every network answer is an input of the model:

- the snapshot download is a `Fetch<Option<Snapshot>>`;
- the contract call is a `Ledger`, a function from the status query to a `Fetch<seq<bool>>`;
- the IPFS gateway is a map from content hash to report.

The Merkle tree (`loadTree`, `getHexProof`) and the Solidity hash of the leaf are parameters of `ClaimRewards`. Failures that the script lets propagate become `Failure` values (`ClaimError`, `AmountError`):

- a rejected download;
- a rejected contract call;
- a missing IPFS report, which fails the whole `Promise.all`;
- an amount that `parseUnits` or `toWei` throws on.

Modules:

- `Wrappers`: `Option`, `Result`, `Fetch`, and `Collect`, the `.map` whose callback may throw.
- `Decimal`: digit strings, `String(n)` for a week number used as an object key, and `parseInt`.
- `Units`: exact decimal-to-base-unit scaling. `ScaleDecimal`/`ToWei` model web3-utils `toWei`. `ParseUnits` models ethers `parseUnits`.
- `JsObject`: `Object.fromEntries`, and the order `Object.entries` lists an object whose keys are array indices.
- `Claims`: the script itself.

Two points where the code differs from what one might expect; the model follows the code in both:

- **The status filter is disabled.** The line that would drop claimed weeks is commented out (`claim-script/claim.ts:106`). So every week 1..N is pending whatever its status, and only the number of statuses matters (`PendingWeeksIgnoreStatus`, `ReconcileIgnoresStatus`, `GetPendingClaimsIgnoresStatus`). `UnclaimedWeeks` is the list the filter would give. No other part of the model uses it. The only lemma about it is `ClaimedWeekIsStillPending`: the two lists differ whenever a week is already claimed.
- **The two libraries treat trailing zeros differently.** ethers `parseUnits` drops trailing fractional zeros before it checks the number of fraction digits. web3 `toWei` checks the raw fraction. For example, `"1.0000000000000000000"` (nineteen fractional zeros) becomes a claim, and then `toWei` rejects it in `claimRewards`. `TrailingZerosDivide` and `ClaimRewardsOfPendingClaims` state this exactly. Wherever `toWei` succeeds, it equals `amountDenorm`.

## Model

| member | source | states |
|---|---|---|
| Claims.GetSnapshot | claim-script/claim.ts:52-58 | an unconfigured network gives the empty snapshot; a missing (falsy) body gives the empty snapshot; a body is returned as is; the result fails exactly when a configured network's download is rejected |
| Claims.StatusQueryCoversWeeks | claim-script/claim.ts:97-102 | for a snapshot holding weeks 1 to n, the status query is (account, 1, n): weeks 1..n have n distinct keys |
| Claims.StatusQueryCountsSnapshotKeys | claim-script/claim.ts:97-102 | the contract is asked only about periods 1 to the number of snapshot keys: two ledgers that agree on that one query give the same pending claims |
| Claims.PendingWeeks | claim-script/claim.ts:104-107 | one week per status element, and week i is i+1 |
| Claims.PendingWeeksAreOneToN | claim-script/claim.ts:104-107 | the pending weeks strictly ascend and are exactly 1..N |
| Claims.PendingWeeksIgnoreStatus | claim-script/claim.ts:104-107 | flipping any status bit leaves the pending weeks unchanged |
| Claims.UnclaimedWeeks | claim-script/claim.ts:106 | the weeks the disabled filter would keep: w is in the list iff 1 ≤ w ≤ N and status w is false; ascending |
| Claims.ClaimedWeekIsStillPending | claim-script/claim.ts:104-107 | a week already claimed is still pending as written, and not in the filtered list |
| Claims.ReportHashLooksUpWeek | claim-script/claim.ts:79 | indexing the snapshot with the week number finds the key that spells that number; with no such key the requested hash is the text `"undefined"` |
| Claims.FetchReports | claim-script/claim.ts:78-80 | all downloads succeed iff every week's hash is served; then there is one report per week, in order, each the one served for that week's hash (`"undefined"` when the snapshot lacks the week) |
| Claims.GetReports | claim-script/claim.ts:77-82 | success iff every week's hash is served, otherwise `ReportUnavailable`; the keys are exactly the week keys; each week's key holds the report served for its hash |
| Claims.KeyedReportsFacts | claim-script/claim.ts:81 | the `[week, report]` pairs carry exactly the week keys, and after `Object.fromEntries` each week's key holds the report served for its hash |
| Claims.ReportsArePendingWeeks | claim-script/claim.ts:109-120 | the returned reports are keyed by exactly the weeks 1..N, each holding the report served for the snapshot's hash of that week |
| Claims.WeekEntriesAreObjectEntries | claim-script/claim.ts:111 | for ascending weeks that are the keys, the week-ordered list of (key, report) pairs is the order `Object.entries` gives |
| Claims.ClaimsFromObjectEntries | claim-script/claim.ts:111-119 | for ascending weeks that are exactly the keys, the week-ordered entry list is the one `Object.entries` gives, so the claims are the filter-and-map chain applied to `Object.entries(reports)` |
| Claims.KeepClaimable | claim-script/claim.ts:112 | an entry is kept iff it was there and its report has a present, non-empty amount for the account |
| Claims.KeepClaimableAscends | claim-script/claim.ts:111-112 | filtering keeps the ascending key order |
| Claims.ZeroAmountYieldsClaim | claim-script/claim.ts:112 | the filter tests truthiness, not a non-zero value: a week whose amount is a zero digit string such as `"0"` yields a claim with `amountDenorm` 0 |
| Claims.ClaimsFromAreSound | claim-script/claim.ts:111-119 | every claim is for a week whose report has a truthy entry; its amount is that entry verbatim and its `amountDenorm` is `parseUnits(amount, 18)` |
| Claims.ClaimIsSound | claim-script/claim.ts:113-118 | the i-th claim is built from a kept week: its id is the week key, its amount the report's string verbatim, its `amountDenorm` that amount through `parseUnits(·, 18)` |
| Claims.ClaimsFromAreComplete | claim-script/claim.ts:111-119 | every week whose report has a truthy entry yields a claim with that week's key |
| Claims.ClaimsFromAscend | claim-script/claim.ts:111-119 | the claims come out in ascending week order |
| Claims.ClaimsFromFailure | claim-script/claim.ts:113-119 | building the claims fails iff some week's truthy amount is rejected by `parseUnits(·, 18)` |
| Claims.ClaimsArePendingClaims | claim-script/claim.ts:111-119 | the claims are exactly the weeks with a truthy entry: each sound, none missing, in week order |
| Claims.ReconcileParts | claim-script/claim.ts:104-121 | a successful run returns the reports of the pending weeks and the claims drawn from them, and both steps succeeded; what those reports and claims are is stated by the `ReportsArePendingWeeks`, `ClaimsArePendingClaims` and `ReconcileFailure` rows |
| Claims.ReconcileFailure | claim-script/claim.ts:109-119 | the run fails on a missing report iff some week's hash is not served; with all served, it fails iff some truthy amount does not scale |
| Claims.ReconcileIgnoresStatus | claim-script/claim.ts:104-121 | status lists of equal length give the same result |
| Claims.GetPendingClaims | claim-script/claim.ts:89-102 | an unconfigured network gives no claims and no reports; on a configured network a rejected snapshot download fails the run with `SnapshotUnavailable`, and a rejected `claimStatus` call fails it with `ClaimStatusUnavailable` |
| Claims.GetPendingClaimsReconciles | claim-script/claim.ts:95-121 | on a configured network, with the snapshot and the status list in hand, the result is the reconciliation of that snapshot and list |
| Claims.GetPendingClaimsIgnoresStatus | claim-script/claim.ts:97-107 | ledgers whose answers to the status query have the same length give the same pending claims |
| Claims.ClaimAmountIsExact | claim-script/claim.ts:117 | `amountDenorm` is the amount's digits shifted by the decimals of the 18 not used by its significant fraction, with the amount's sign: the amount times 10^18 exactly |
| Claims.ClaimConverts | claim-script/claim.ts:135-137 | `toWei` of a claim's amount succeeds iff its raw fraction has at most 18 digits, and then equals `amountDenorm` |
| Claims.TupleOfClaim | claim-script/claim.ts:131-137 | one claim's tuple is the week number, `amountDenorm` and the proof of the leaf (account, `amountDenorm`) in the tree of the week's report; it fails iff the raw fraction exceeds 18 digits |
| Claims.ClaimRewards | claim-script/claim.ts:130-138 | succeeds iff every claim's amount passes `toWei`; then there is one tuple per claim, in order: `parseInt(id)`, the wei amount, and the proof of the leaf (account, wei) in the tree of `reports[id]` |
| Claims.ClaimRewardsOfWeekClaims | claim-script/claim.ts:130-137 | claims whose amounts convert and whose ids are week keys give tuples of the week number, `amountDenorm` and proof |
| Claims.ClaimRewardsOfClaims | claim-script/claim.ts:130-137 | claims drawn from reports keyed 1..n: success iff no raw fraction exceeds 18 digits; each tuple has the integer week (1 ≤ week ≤ n) and `amountDenorm` |
| Claims.ClaimRewardsOfPendingClaims | claim-script/claim.ts:130-137 | on the pending claims: one tuple per claim, in claim order, with the integer week in 1..N, `amountDenorm` as the amount and the proof from that week's report; failure exactly on a raw fraction over 18 digits |
| Units.IsDecimalIsLibraryCheck | claim-script/claim.ts:117 | an amount is well formed iff it passes the libraries' checks: it matches `^-?[0-9.]+$`, the part after the sign is not a lone `.`, and it holds at most one `.` |
| Units.ToWei | claim-script/claim.ts:135 | `toWei`: `InvalidAmount` on a malformed amount; a well-formed amount succeeds iff its raw fraction has at most 18 digits, else `PrecisionLoss` |
| Units.ScaleDecimal | claim-script/claim.ts:135 | a non-decimal string fails with `InvalidAmount`; a decimal succeeds iff its fraction has at most `decimals` digits, else `PrecisionLoss` |
| Units.ScaleDecimalIsExact | claim-script/claim.ts:135 | a successful scaling is the digits without the dot, shifted by the unused decimals and signed |
| Units.ScaleInteger | claim-script/claim.ts:135 | an integer amount n scales to n · 10^decimals |
| Units.TrimTrailingZeros | claim-script/claim.ts:117 | the result is a prefix of the fraction and keeps it a digit string |
| Units.TrimmedEndsInNonZero | claim-script/claim.ts:117 | trimming leaves no trailing `0` |
| Units.TrimmedZeros | claim-script/claim.ts:117 | what trimming drops is zeros only |
| Units.ParseUnitsErrors | claim-script/claim.ts:117 | `parseUnits` fails with `InvalidAmount` on a non-decimal string; a decimal succeeds iff its significant fraction fits, else `PrecisionLoss` |
| Units.ParseUnitsOfDigits | claim-script/claim.ts:117 | an amount of digits only parses to its value shifted by all the decimals |
| Units.ParseUnitsIsExact | claim-script/claim.ts:117 | a successful `parseUnits` is the digits with the significant fraction, shifted by the unused decimals and signed |
| Units.ParseUnitsExtendsScale | claim-script/claim.ts:117 | wherever the untrimmed scaling succeeds, `parseUnits` gives the same value |
| Units.ToWeiAgreesWithParseUnits | claim-script/claim.ts:117 | `toWei` equals `parseUnits(·, 18)` wherever it succeeds; where `parseUnits` succeeds, `toWei` does iff the raw fraction has at most 18 digits |
| Units.TrailingZerosDivide | claim-script/claim.ts:135 | `n.000…0` with k zeros always parses to n · 10^decimals, but the `toWei` scaling accepts it iff k ≤ decimals |
| Decimal.DecimalString | claim-script/claim.ts:81 | `String(week)` is a canonical digit string whose value is the week |
| Decimal.DecimalStringInjective | claim-script/claim.ts:81 | distinct weeks get distinct keys |
| Decimal.CanonicalIsDecimalString | claim-script/claim.ts:111 | a canonical digit string is `String` of its value |
| Decimal.ParseInt | claim-script/claim.ts:137 | `parseInt` of the empty string is NaN; of a digit string, its value |
| Decimal.ParseIntDecimalString | claim-script/claim.ts:137 | `parseInt(String(n)) == n`: a week key converts back to its week |
| JsObject.FromEntries | claim-script/claim.ts:81 | the keys are those of the entries; an entry not overwritten by a later one with the same key is the key's value |
| JsObject.FromEntriesKeepsConsistentEntries | claim-script/claim.ts:81 | when equal keys carry equal values, every entry is in the result |
| JsObject.EntriesOfIsUnique | claim-script/claim.ts:111 | the `Object.entries` order of an object with array-index keys is unique |
| Wrappers.Collect | claim-script/claim.ts:130-138 | a `.map` whose callback may throw: succeeds iff every element does, with every value in order |
| Wrappers.CollectFailsAtFirst | claim-script/claim.ts:130-138 | a failure is the first failing element's, all earlier ones having succeeded |

## Left out

- The HTTP download of the snapshot, the IPFS client and the `claimStatus` call through the generic contract dispatcher (`claim-script/claim.ts:23-36`, `:62-73`) are network I/O. Their results are inputs.
- The contract addresses and URLs of the constants table are left out. Only which networks have an entry is kept.
- `Promise.all` runs the report downloads concurrently. Only the combined outcome is modelled: all reports in week order, or a failure.
- `soliditySha3`, `loadTree` and `getHexProof` are a foreign hash and a Merkle module (`./merkle`) that is not part of this model. They are the parameters `leaf` and `hexProof`.
- `console.log` and the rethrow in `claimRewards` are logging. That function returns nothing, and the model returns the tuples it logs, or the error it rethrows.
- Claims.ClaimRewards: `toWei` returns a decimal string, and the model gives its integer value.
- Claims.ClaimRewards: `soliditySha3`, `loadTree` and `getHexProof` are taken never to throw. This includes `loadTree(reports[week.id])` on an id missing from `reports`, where JavaScript passes `undefined` (claim.ts:132; `TreeSource` gives `None`). So the success condition names only `toWei`; for the pending claims every id is a key of `reports` (`Claims.ClaimsArePendingClaims`), so the `undefined` case does not arise there.
- The `ipfs.ts` client and `index.ts` (process wiring with a fixed provider and account) are not part of this model.
- Report amounts are modelled as strings only. A non-string value in a report, which makes ethers throw or coerce, is not modelled.
- Decimal.ParseInt: leading whitespace and `0x` prefixes are not modelled. They cannot occur in the week keys it is applied to.
- Decimal.DecimalString: the exponent form `String(n)` takes from 10^21 up is not modelled, since week numbers are far below it.
- The address comparison is exact, as in the code, and no case normalisation is modelled. `HasEntry` looks at a report's own properties only. JavaScript's `report[1][account]` also reads members inherited from `Object.prototype`, such as `constructor`. Those are not modelled, and no `0x…` address names one.
- The script does not implement some behaviours a reader might expect, and the model does not add them:
  - a distinct error when the contract reports more claimed weeks than were asked about;
  - a per-week diagnostic in place of failing the whole run;
  - sorting recipients before the Merkle tree is built;
  - excluding zero amounts: a present `"0"` entry is truthy and yields a claim (`ZeroAmountYieldsClaim`);
  - rejecting negative amounts: both libraries accept a leading `-`, and so does the model, which negates the result (`SignedBy`).
