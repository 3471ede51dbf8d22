# Set Protocol V2: rounding that never pays out more than came in

Set Protocol keeps every quantity as an integer with eighteen decimals, and every step of issuing,
redeeming, charging fees and sharing a pool truncates. This project models that arithmetic and proves
that the chosen rounding directions compose: over whole runs, with any interleaving of the operations,
nothing is created by rounding, and where the code does lose that property the exact condition is proved.

| file | models |
|---|---|
| `Rounding.dfy` | floor, ceiling and proportion facts, without the fixed-point scale |
| `Options.dfy` | the optional result of a call that may revert |
| `FixedPoint.dfy` | `utils/common/mathUtils.ts`, `contracts/lib/PreciseUnitMath.sol` |
| `NavIssuance.dfy`, `NavRuns.dfy` | `utils/common/navIssuanceModuleUtils.ts`: pricing, and what whole runs keep |
| `StreamingFee.dfy` | `utils/common/feeModuleUtils.ts` |
| `UniswapV2.dfy`, `UniswapPair.dfy`, `PairLaws.dfy` | `utils/common/uniswapUtils.ts`, the pair it predicts, and every action of it by numbers |
| `PerpV2.dfy` | `utils/common/perpV2Utils.ts`: the two settlement loops |
| `DebtIssuance.dfy` | `DebtIssuanceModule.sol`: issue and redeem with collateral and debt |
| `SetLedger.dfy`, `LedgerLaws.dfy`, `SetBacking.dfy` | `SetToken.sol` under the basic issuance, NAV issuance and streaming fee modules: the ledger transitions, each of them by numbers, and the backing of its units over every run |
| `ComponentLists.dfy`, `SetTokens.dfy`, `SetModules.dfy` | the contract that performs those transitions in place with its component and module lists, its creator, and the fee module |
| `Predictions.dfy`, `UnitPredictions.dfy` | how far the NAV and fee helpers are from the contracts they predict, in amounts and in units, and exactly when they agree |

Code that only computes is modelled by functions; loops and objects that change state by methods and
classes (`SetToken`, `FeeModule`, the debt issuance `Module`, the Uniswap `Pair`), each method proved against a function
or a transition relation about which the laws are then proved. Reads of the chain (supplies, valuations,
reserves, quotes, fee states) are parameters. A reverted call answers `false` or `None` and changes nothing.
`BigNumber.div` truncates towards zero and is modelled by `TruncDiv`, not by Dafny's Euclidean quotient.
Dividing by zero throws in the source and is a precondition, except where the source answers it
(`preciseDivCeil`) or a contract call turns it into a revert.

## Main results

- **The protocol ledger.** `SetBacking.RunKeepsBacked`, `RunShortfallIsDust` and `RunTracksAtMostBalance`: over
  every run of basic issues and redemptions, NAV issues and redemptions, fee accruals and external edits, in any
  order, every component stays backed; `SetBacking.BasicIssueIsSafeIff` is exactly when a basic issue is safe.
  `SetTokens.SetToken` performs those transitions and keeps its component and module lists in step with its units.
- **No free round trip**, for the helpers (`NavIssuance.NoFreeRoundTrip`) and for the contract
  (`SetLedger.RoundTripLeavesReserve`), at any fees, premiums and admissible valuation.
- **Splitting accruals never mints more** (`StreamingFee.SplittingNeverMintsMore`) and never dilutes positions more,
  but for a wei of the multiplier at each cut (`SplittingKeepsMultiplier`).
- **Liquidity stays within the geometric mean** of the reserves over every run of mints, burns, swaps and donations,
  with the protocol fee switched on and off at will (`UniswapPair.RunStaysBounded`), and what a share stands for is
  kept, across payments to the protocol too (`RunKeepsShares`, `ConsecutiveEventsKeepRoot`, `RunKeepsRootShare`), on
  top of a proved Newton square root.
- **Helper against contract**, an if-and-only-if for each formula in which they differ: multiplier
  (`NavRuns.HelperPredictsContract`), redeemed amounts (`Predictions.RedeemHelperExactIff`, `PayoutExactIff`), and the
  units of every position after a fee, held or owed, and of the reserve after an issue or a redemption
  (`UnitPredictions.FeeHelperExactIff`, `IssueUnitExactIff`, `RedeemUnitExactIff`).
- **Every transition by numbers**: for each call of the modules, of the debt issuance module, of the pair and of the NAV
  helpers, exactly when it goes through and what it leaves, stated by inequalities on the inputs without the formulas
  (`LedgerLaws.NavIssueByNumbers`, `NavRedeemByNumbers`, `AccrueByNumbers`, `BasicByNumbers`, `DebtIssuance.StepByNumbers`,
  `PairLaws.MintByNumbers`, `BurnByNumbers`, `SwapByNumbers`, `NavRuns.StepByNumbers`, `SetModules.ChargeByNumbers`).
- **The spread of a perpetual is the trader's**, for any mix of longs and shorts on issue and redeem
  (`PerpV2.IssuerPaysTheSpread`, `RedeemerPaysTheSpread`), and a position closed whole realises the difference of its quotes
  (`PerpV2.WholeCloseRealisesDifference`).
- **Leveraged sets stay solvent** over every run at fixed units (`DebtIssuance.RunStaysSolvent`).
- **Multiplier times supply never rises** (`NavRuns.MultiplierTimesSupplyNeverRises`), and the NAV reserve stays
  backed over every run of the helpers (`NavRuns.RunKeepsBacked`).

## Where the code departs from what it says

- `BasicIssuanceModule.issue` collects components for the truncated real unit while the minted tokens claim the
  exact unit. What is recorded stays within what is held, for every fully backed set with this unit and multiplier,
  every quantity and every run without further basic issues, exactly when virtual unit times multiplier is a multiple of
  10^18 (`SetBacking.BasicIssueIsSafeIff`; by `WholeAtOne` always so while the multiplier is one). For every other unit a run that
  breaks it ends with a NAV redemption from another reserve, which scales the multiplier up until the truncated part is
  recorded (`SetBacking.IssueThenRedeemUnderbacks`). For some units an accrual is enough:
  `SetBacking.AccrualAfterIssueCanUnderback` ends with eight recorded and six held, and redeeming all tokens reverts.
  The shortfall is always below one wei per whole token issued (`SetBacking.RunShortfallIsDust`), a bound that
  is attained (`SetBacking.DustBoundIsAttained`).
- `DebtIssuanceModule._resolveFees` mints the protocol's fee only if the manager's part is positive. When the
  protocol takes all of a non-zero fee, collateral and debt move for more tokens than exist, and debt exceeds what
  the tokens carry: `DebtIssuance.StepKeepsDebtWithinIff` is the exact condition.
- The helpers round the same factors as the contracts in another order. For each there is an input at which they
  differ, a bound on the difference, and the exact condition on the remainders for them to agree:
  - `getExpectedIssuePositionMultiplier` truncates the ratio of supplies before multiplying, the contract after: never
    above, at most one wei below at a multiplier of at most one, exact at one (`NavRuns.HelperPredictsContract`,
    `HelperExactAtOne`; `HelperIsNotExact`: multiplier 3, supplies 1 and 3).
  - `getExpectedReserveRedeemQuantity` takes the premium before converting to base units, the contract after: the amounts
    deducted differ by at most one wei and the payouts by at most three while a base unit is at most 10^18
    (`Predictions.RedeemHelperIsClose`, `RedeemHelperExactIff`, `PayoutsAreClose`, `PayoutExactIff`;
    `RedeemHelperDiffers`: the helper predicts one wei and the contract pays none).
  - `getPostFeePositionUnits` scales the real unit, the contract the multiplier (`UnitPredictions.FeeHelperIsClose`,
    `FeeHelperExactIff`, for positions of either sign; `FeeHelperDiffers`: at multiplier one half, charged a quarter,
    three units held and five units owed). It never understates a debt.
  - The unit helpers normalise by multiplying and then dividing, `SetToken` stores by dividing and then multiplying
    (`FixedPoint.NormalisationLosses`, `NormalisationsAgreeIff`; `NormalisationsDiffer`: one unit at multiplier one half).
    So `getExpectedIssuePositionUnit` is exact if and only if both orders lose nothing or both one wei
    (`UnitPredictions.IssueUnitExactIff`, with its bounds; `IssueUnitDiffers`).
  - `getExpectedRedeemPositionUnit` also deducts the helper's amount instead of the contract's
    (`UnitPredictions.RedeemUnitExactIff`, `AgreesAsForIssue` when the amounts agree, `RedeemUnitIsClose`). When it deducts a
    wei more than the position holds it can predict a negative unit (`RedeemUnitDiffers`).
- `preciseMulCeil` is the ceiling exactly on non-negative products and on those one above a negative multiple of the
  scale (`FixedPoint.MulCeilIsCeilingIff`, `MulCeilOfNegativeProduct`); `preciseDivCeil` has its own exact condition for each pair of signs
  (`FixedPoint.DivCeilIsCeilingIff`, `DivCeilOfNegativeQuotient`).
- `getExpectedPostFeeQuantity` is not monotone: at two fees of one half, one wei leaves one and two leave none (`NavIssuance.PostFeeNotMonotone`). It is
  monotone exactly when one of the fees is zero (`NavIssuance.PostFeeMonotoneIff`), drops exactly where
  `NavIssuance.PostFeeDropsIff` says, and never by more than one wei (`NavIssuance.PostFeeAlmostMonotone`).
- `calculateUSDCTransferOutPreciseUnits` takes a short of less than a wei per token for a long, and asks for the quote of
  selling nothing: exactly when the base balance times 10^18 is negative and above minus the supply
  (`PerpV2.RealizedPnlByNumbers`; `TinyShortIsTakenForLong`).
- `uniswapUtils.ts` compares `BigNumber` objects with `<`, `>`, `==` and `!=`, which JavaScript does not define as
  numeric comparison. The model assumes the numeric meaning, which is that of the Solidity pair it predicts.

## Model

| member | source | states |
|---|---|---|
| `FixedPoint.TruncDivTruncates` | utils/common/mathUtils.ts:5-7 | `BigNumber.div` rounds its quotient towards zero, for all signs |
| `FixedPoint.TruncatesUnique` | utils/common/mathUtils.ts:5-31 | that specification determines the result |
| `FixedPoint.PreciseMulTruncates` | utils/common/mathUtils.ts:5-7 | rounds the product over the scale towards zero, for all signs |
| `FixedPoint.PreciseDivTruncates` | utils/common/mathUtils.ts:29-31 | rounds the scaled dividend over the divisor towards zero, for all signs |
| `FixedPoint.DivDown` | utils/common/mathUtils.ts:54-62 | the mathematical floor for all sign pairs with a non-zero divisor |
| `FixedPoint.MulCeilIntRoundsAway` | utils/common/mathUtils.ts:17-27 | rounds the product away from zero, for all signs |
| `FixedPoint.DivCeilIntRoundsAway` | utils/common/mathUtils.ts:41-52 | satisfies the same rounding specification by a different algorithm |
| `FixedPoint.RoundsAwayUnique` | utils/common/mathUtils.ts:17-52 | that specification determines the result |
| `FixedPoint.MulCeilIntIsOdd` | utils/common/mathUtils.ts:17-27 | odd in each argument |
| `FixedPoint.DivCeilIntIsOdd` | utils/common/mathUtils.ts:41-52 | odd in each argument |
| `FixedPoint.CeilingsAgree` | utils/common/mathUtils.ts:9-52 | on non-negative inputs all four ceilings are the mathematical ceiling |
| `FixedPoint.MulCeilIsCeilingIff` | utils/common/mathUtils.ts:9-15 | the unsigned recipe is the ceiling of a signed product if and only if the product is non-negative or one above a negative multiple of the scale |
| `FixedPoint.DivCeilIsCeilingIff` | utils/common/mathUtils.ts:33-39 | the recipe is the ceiling of a signed quotient if and only if, by the signs, the remainder is the stated one |
| `FixedPoint.MulAdjointDivCeil` | utils/common/mathUtils.ts:5-39 | truncated multiplication reaches a value if and only if its argument reaches the rounded-up quotient |
| `FixedPoint.DivAdjointMulCeil` | utils/common/mathUtils.ts:9-31 | truncated division reaches a value if and only if its argument reaches the rounded-up product |
| `FixedPoint.DivCeilThenMul` | test/integration/compoundUniswapLeverageDebtIssuance.spec.ts:931-939 | round trip: at a multiplier of at most one, the rounded-up unit gives back exactly the notional |
| `FixedPoint.MulThenDivCeil` | utils/common/mathUtils.ts:5-39 | the converse round trip at a multiplier of at least one |
| `FixedPoint.MulThenDivLoses` | utils/common/navIssuanceModuleUtils.ts:72-74 | normalising through the multiplier never gains and loses less than the stated margin |
| `FixedPoint.DivThenMulLoses` | contracts/protocol/SetToken.sol:560-581 | storing as virtual and reading as real never gains, and loses at most one wei at a multiplier of at most one |
| `FixedPoint.NormalisationLosses` | contracts/protocol/SetToken.sol:560-585 | exactly what each order of normalising loses |
| `FixedPoint.NormalisationsAgreeIff` | utils/common/navIssuanceModuleUtils.ts:72-74 | the helpers' normalisation and the token's storage order agree if and only if both lose nothing or both exactly one wei, as a guard on two remainders |
| `NavIssuance.PostFeeExact` | utils/common/navIssuanceModuleUtils.ts:77-86 | what is left is the exact remainder plus the two parts that the fees truncate |
| `NavIssuance.PostFeeBounds` | utils/common/navIssuanceModuleUtils.ts:77-86 | what is left is the exact remainder or less than two wei more |
| `NavIssuance.PostFeeAlmostMonotone` | utils/common/navIssuanceModuleUtils.ts:77-86 | a larger quantity leaves at most one wei less |
| `NavIssuance.PostFeeDropsIff` | utils/common/navIssuanceModuleUtils.ts:82-85 | one more wei leaves less if and only if it tips both fees over their next whole wei |
| `NavIssuance.PostFeeMonotoneIff` | utils/common/navIssuanceModuleUtils.ts:77-86 | over all quantities a larger one never leaves less if and only if one of the fees is zero |
| `NavIssuance.PostPremiumBounds` | utils/common/navIssuanceModuleUtils.ts:38-40 | the premium of an issue is charged rounded down: what is left is the exact remainder or less than a wei more |
| `NavIssuance.IssueDoesNotDilute` | utils/common/navIssuanceModuleUtils.ts:32-49 | tokens are minted at the denominator's price within the stated shortfall; at the post-issue value they are worth at most what was paid, and old holders' value per token does not drop |
| `NavIssuance.RedeemedValueWithinPaid` | utils/common/navIssuanceModuleUtils.ts:38-49 | minted tokens, redeemed at any valuation not above the post-issue value per token, are worth at most what was paid for them |
| `NavIssuance.NoFreeRoundTrip` | utils/common/navIssuanceModuleUtils.ts:19-50 | issue, then redeem exactly what was issued: the payout is below what fees and premium leave of the deposit by their percentages, but for the stated wei |
| `NavIssuance.PayoutWithinDeduction` | utils/common/navIssuanceModuleUtils.ts:88-107 | the redeemer is never paid more than the position is reduced by |
| `NavIssuance.PayoutNotFarBelow` | utils/common/navIssuanceModuleUtils.ts:88-107 | nor less than premium, fees and base units leave, but for one truncation at each step |
| `NavIssuance.ContractMultiplier` | contracts/protocol/modules/v1/CustomOracleNAVIssuanceModule.sol:1000-1039 | the multiplier the contract stores: times the new supply, at most the old multiplier times the old supply, and the greatest such |
| `NavRuns.IssueMultiplierScales` | utils/common/navIssuanceModuleUtils.ts:7-17 | rounding inflation up scales by the truncated ratio of supplies |
| `NavRuns.RedeemMultiplierScales` | utils/common/navIssuanceModuleUtils.ts:109-119 | rounding deflation down scales by the same ratio |
| `NavRuns.MultiplierStep` | utils/common/navIssuanceModuleUtils.ts:7-17 | one step: multiplier times supply does not rise, and falls by less than the stated margin |
| `NavRuns.MultiplierTimesSupplyNeverRises` | utils/common/navIssuanceModuleUtils.ts:109-119 | the same along any run between positive supplies; returning to the first supply never raises the multiplier |
| `NavRuns.HelperPredictsContract` | contracts/protocol/modules/v1/CustomOracleNAVIssuanceModule.sol:1000-1015 | the helper is never above what the contract stores, at most one wei below at a multiplier of at most one, and equal if and only if what its two truncations drop is less than one wei |
| `NavRuns.HelperExactAtOne` | contracts/protocol/modules/v1/CustomOracleNAVIssuanceModule.sol:1010-1012 | and exact at multiplier one |
| `NavRuns.RecordedWithinTotal` | utils/common/navIssuanceModuleUtils.ts:68-74 | dividing a total by the supply and normalising records at most the total, and not less than the stated margin |
| `NavRuns.IssueUnitRecordsDeposit` | utils/common/navIssuanceModuleUtils.ts:52-75 | the new unit records the old total plus the net deposit, between both bounds |
| `NavRuns.RedeemUnitRecordsDeduction` | utils/common/navIssuanceModuleUtils.ts:121-145 | the new unit records the old total less the deduction, between both bounds |
| `NavRuns.StepKeepsBacked` | utils/common/navIssuanceModuleUtils.ts:52-75 | each issue, redemption and accrual keeps the recorded reserve within the balance |
| `NavRuns.RunKeepsBacked` | utils/common/navIssuanceModuleUtils.ts:121-145 | so does every interleaving of them |
| `NavRuns.StepByNumbers` | utils/common/navIssuanceModuleUtils.ts:7-145 | each issue, redemption and accrual of the helpers by inequalities: supply, multiplier, unit and balance after it, and exactly when it is refused |
| `StreamingFee.FeeForPeriod` | utils/common/feeModuleUtils.ts:18-19 | the elapsed part of the yearly rate, rounded down |
| `StreamingFee.PredictedFeeByRate` | utils/common/feeModuleUtils.ts:15-19 | a number is the predicted fee if and only if it is the rounded-down year's part of the rate given, or else of the one stored |
| `StreamingFee.InflationAmount` | utils/common/feeModuleUtils.ts:22-30 | the quotient of fee times supply by what the fee leaves, bracketed |
| `StreamingFee.InflationIsLargestShare` | utils/common/feeModuleUtils.ts:22-30 | a number of tokens is at most the inflation if and only if its share of the inflated supply is within the fee |
| `StreamingFee.PostFeePositionUnits` | utils/common/feeModuleUtils.ts:32-45 | every unit of the list, in order, is scaled by its sign's rounding |
| `StreamingFee.AccrualOnHeldUnit` | utils/common/feeModuleUtils.ts:38-39 | a held position's total does not grow, and shrinks at most by the stated margin |
| `StreamingFee.AccrualOnDebtUnit` | utils/common/feeModuleUtils.ts:40-41 | a debt's total stays strictly within one unit below and one wei per token above |
| `StreamingFee.PostFeeUnitIsFloor` | utils/common/feeModuleUtils.ts:38-42 | both branches of the helper are the floor of the scaled unit, for either sign |
| `StreamingFee.SplitFeesSum` | utils/common/feeModuleUtils.ts:18-19 | the fees of a split period sum to the fee of the whole, less at most one wei per cut |
| `StreamingFee.AccrualsCompose` | utils/common/feeModuleUtils.ts:22-30 | a list of accruals inflates the supply at most as one division by what the summed fees leave |
| `StreamingFee.SplittingNeverMintsMore` | utils/common/feeModuleUtils.ts:18-30 | over any non-decreasing times with a whole fee below one hundred per cent, separate accruals mint at most what one accrual mints |
| `StreamingFee.MultipliersCompose` | contracts/protocol/modules/v1/StreamingFeeModule.sol:278-283 | a list of accruals leaves of the multiplier what the summed fees leave, short of it by less than a wei each |
| `StreamingFee.SplittingKeepsMultiplier` | contracts/protocol/modules/v1/StreamingFeeModule.sol:278-283 | over any non-decreasing times, separate accruals leave at least the multiplier of one accrual, less one wei for each cut |
| `UniswapV2.NewtonStepNotBelow` | utils/common/uniswapUtils.ts:152-155 | a Newton step from any positive guess does not land below the floor of the root |
| `UniswapV2.Sqrt` | utils/common/uniswapUtils.ts:145-160 | terminates on every input and returns the floor of the square root, as counting up defines it, of a non-negative one |
| `UniswapV2.LPTokensIssued` | utils/common/uniswapUtils.ts:8-28 | the first mint is the floor of the geometric mean less the locked minimum, later ones pro rata |
| `UniswapV2.ProRataIsLargest` | utils/common/uniswapUtils.ts:21-24 | the pro rata liquidity is the largest that neither amount falls short of, both directions |
| `UniswapV2.ClaimsWithinReserves` | utils/common/uniswapUtils.ts:118-133 | holders whose balances fit in the supply together claim at most each reserve |
| `UniswapV2.ClaimIsFair` | utils/common/uniswapUtils.ts:129-132 | and each gets its share but for the stated truncation |
| `UniswapV2.RebalanceQuantity` | utils/common/uniswapUtils.ts:83-116 | sells the heavier side, never more than is held, and leaves the two sides within the stated distance; an override replaces the quantity only |
| `UniswapPair.Pair.MintFee` | external/contracts/uniswap/v2/UniswapV2Pair.sol:89-107 | pays the protocol its sixth of the growth, or forgets the last product |
| `UniswapPair.Pair.MintTo` | external/contracts/uniswap/v2/UniswapV2Pair.sol:110-131 | is the mint transition, protocol fee included; a revert changes nothing |
| `UniswapPair.Pair.BurnFrom` | external/contracts/uniswap/v2/UniswapV2Pair.sol:134-156 | is the burn transition, with donated balances and protocol fee; a revert changes nothing |
| `UniswapPair.Pair.SwapFor` | external/contracts/uniswap/v2/UniswapV2Pair.sol:159-187 | is the swap transition; a revert changes nothing |
| `UniswapPair.Pair.SyncReserves` | external/contracts/uniswap/v2/UniswapV2Pair.sol:198-200 | donations become reserves |
| `UniswapPair.FeeIsLargestSixth` | external/contracts/uniswap/v2/UniswapV2Pair.sol:95-101 | a liquidity is at most the protocol fee if and only if its share of the pool is at most a sixth of the growth in the root of the product |
| `UniswapPair.FeeLeavesLastShare` | external/contracts/uniswap/v2/UniswapV2Pair.sol:89-107 | after the fee, the root of the product per share is at least that at the last mint or burn |
| `UniswapPair.FeeKeepsBounded` | external/contracts/uniswap/v2/UniswapV2Pair.sol:89-107 | paying the protocol keeps the squared supply within the product of the reserves |
| `UniswapPair.ActionKeeps` | external/contracts/uniswap/v2/UniswapV2Pair.sol:110-200 | every action keeps a live pool live; once the protocol is paid the product per squared share does not fall, and unless it is a swap neither does either reserve per share |
| `UniswapPair.ActionKeepsSound` | external/contracts/uniswap/v2/UniswapV2Pair.sol:110-200 | every action keeps the squared supply within the product of the reserves, and within the last recorded product while the fee is on |
| `UniswapPair.RunStaysBounded` | external/contracts/uniswap/v2/UniswapV2Pair.sol:89-200 | every run from a pair without liquidity, the protocol fee switched on and off at will, keeps both bounds |
| `UniswapPair.RunKeepsShares` | utils/common/uniswapUtils.ts:20-25 | between any two moments at which the protocol is not paid the product per squared share does not fall; without swaps neither does either reserve per share |
| `UniswapPair.ActionKeepsLastRoot` | external/contracts/uniswap/v2/UniswapV2Pair.sol:89-200 | every action, the protocol paid or not, leaves a product per squared share of at least the squared root remembered before |
| `UniswapPair.ConsecutiveEventsKeepRoot` | external/contracts/uniswap/v2/UniswapV2Pair.sol:89-200 | so does a run from one mint or burn through any swaps and donations to the next, which may pay the protocol |
| `UniswapPair.RunKeepsRootShare` | external/contracts/uniswap/v2/UniswapV2Pair.sol:89-200 | over every run with the protocol fee on, payments included, the remembered root per share falls by at most one part of the locked minimum for each mint or burn |
| `PairLaws.SwapByNumbers` | external/contracts/uniswap/v2/UniswapV2Pair.sol:159-187 | a swap goes through if and only if its amounts are in range and the product of the reserves grows by three thousandths of what comes in; then the reserves move by exactly the amounts |
| `PairLaws.SwapZeroForOneIff` | external/contracts/uniswap/v2/UniswapV2Pair.sol:180-182 | selling token zero for token one goes through if and only if the output is at most what 997 thousandths of the input buy |
| `PairLaws.SwapOneForZeroIff` | external/contracts/uniswap/v2/UniswapV2Pair.sol:180-182 | the same for the other direction |
| `PairLaws.ProtocolFeeIsPaid` | external/contracts/uniswap/v2/UniswapV2Pair.sol:89-107 | the liquidity minted to the protocol is the rounded-down quotient of supply times root growth by five roots and the last one, and nothing with the fee off |
| `PairLaws.MintByNumbers` | external/contracts/uniswap/v2/UniswapV2Pair.sol:110-131 | a mint by inequalities: protocol fee, liquidity, locked thousand, reserves and remembered product, and exactly when it goes through |
| `PairLaws.BurnByNumbers` | external/contracts/uniswap/v2/UniswapV2Pair.sol:134-156 | a burn by inequalities: each amount the rounded-down share of the balances, donations included, and exactly when it goes through |
| `PerpV2.TransferIn` | utils/common/perpV2Utils.ts:85-130 | the loop accumulates the collateral share, the quotes signed by direction, and the residue of the spot price |
| `PerpV2.SpotPriceCancels` | utils/common/perpV2Utils.ts:119-125 | at non-negative spot prices that residue is zero for every list of longs and shorts |
| `PerpV2.ResidueOfOne` | utils/common/perpV2Utils.ts:115-125 | at any price a short leaves the ideal quote and its magnitude, a long nothing |
| `PerpV2.TotalsInAdd` | utils/common/perpV2Utils.ts:103-126 | quotes and residues add up over any two lists of positions |
| `PerpV2.QuoteInByNumbers` | utils/common/perpV2Utils.ts:104-112 | what an issuer trades: the rounded-down share of the position, at the quote for buying, or for selling if short by a wei or more, with its sign |
| `PerpV2.IssuerPaysTheSpread` | utils/common/perpV2Utils.ts:103-126 | longs and shorts together cost the issuer at least their value at any price between the quotes |
| `PerpV2.TransferOut` | utils/common/perpV2Utils.ts:144-187 | the loop accumulates the realised profit of every position; the result is the magnitude of share plus profit |
| `PerpV2.RedeemClosesAtMostItsShare` | utils/common/perpV2Utils.ts:165-171 | closes at most the redeemed fraction, and not less than the stated margin; the realised notional neither exceeds the quote balance nor changes its sign |
| `PerpV2.TotalPnlAdds` | utils/common/perpV2Utils.ts:164-184 | profits add up over any two lists of positions |
| `PerpV2.RealizedPnlByNumbers` | utils/common/perpV2Utils.ts:165-181 | unit, base, ratio and part of the quote balance by inequalities; a long adds the quote for selling, a short subtracts the quote for buying, and which of the two is asked for |
| `PerpV2.ReducedIsItsShare` | utils/common/perpV2Utils.ts:170-171 | the part of the quote balance is at most the redeemed fraction, and short of it only by the stated truncations |
| `PerpV2.WholeCloseRealisesDifference` | utils/common/perpV2Utils.ts:165-181 | closed whole, a long realises what it yields less what it was opened for, a short the reverse, but for the stated truncation |
| `PerpV2.RedeemerPaysTheSpread` | utils/common/perpV2Utils.ts:164-184 | longs and shorts together realise at most their value at any price between the quotes |
| `PerpV2.TinyShortIsTakenForLong` | utils/common/perpV2Utils.ts:165-177 | a short whose unit truncates to zero asks for the quote of selling nothing |
| `PerpV2.SplitRedeemsCloseAtMostAll` | utils/common/perpV2Utils.ts:165-184 | however redeemers split the supply they trade at most the base balance and realise at most the quote balance |
| `DebtIssuance.TotalIssuanceUnits` | contracts/protocol/modules/v1/DebtIssuanceModule.sol:495-532 | positive units add to equity and the others to debt; equity less debt is the total real unit |
| `DebtIssuance.HeldPlusOwed` | contracts/protocol/modules/v1/DebtIssuanceModule.sol:514-527 | equity and debt of the external positions together are their magnitudes |
| `DebtIssuance.Module.RequiredComponents` | contracts/protocol/modules/v1/DebtIssuanceModule.sol:453-484 | collateral in rounded up and out down, debt out down and repaid up, for every component |
| `DebtIssuance.Module.ResolveEquity` | contracts/protocol/modules/v1/DebtIssuanceModule.sol:540-574 | moves exactly the listed collateral, or stops at a component the set cannot pay out |
| `DebtIssuance.Module.ResolveDebt` | contracts/protocol/modules/v1/DebtIssuanceModule.sol:581-612 | moves exactly the listed debt |
| `DebtIssuance.Module.Resolve` | contracts/protocol/modules/v1/DebtIssuanceModule.sol:137-194 | both in the order of the call; stopping undoes both |
| `DebtIssuance.Module.Execute` | contracts/protocol/modules/v1/DebtIssuanceModule.sol:109-205 | an issue or redemption is the transition of the book, and a revert changes nothing |
| `DebtIssuance.SupplyFollowsQuantityIff` | contracts/protocol/modules/v1/DebtIssuanceModule.sol:618-627 | all of the fee is minted if and only if the protocol's split is below one hundred per cent or the fee is zero |
| `DebtIssuance.StepKeepsCollateralised` | contracts/protocol/modules/v1/DebtIssuanceModule.sol:471-476 | every call keeps every token fully collateralised, whatever the fees |
| `DebtIssuance.RedemptionIsCovered` | contracts/protocol/modules/v1/DebtIssuanceModule.sol:174-196 | a collateralised set honours a redemption if and only if the quantity is positive, exists, and its fees do not underflow |
| `DebtIssuance.StepByNumbers` | contracts/protocol/modules/v1/DebtIssuanceModule.sol:355-480 | a call by inequalities: the fee at its own rate, the protocol's part, supply, collateral and debt after it, and exactly when it goes through |
| `DebtIssuance.StepKeepsDebtWithinIff` | contracts/protocol/modules/v1/DebtIssuanceModule.sol:478-480 | a call keeps net debt within what the tokens carry, for every book and units, if and only if the whole fee is minted |
| `DebtIssuance.RunStaysSolvent` | test/integration/aaveUniswapLeverageDebtIssuance.spec.ts:420-437 | over every run at fixed units, collateral covers the supply and net debt stays within it |
| `SetLedger.RestateEffect` | contracts/protocol/modules/v1/CustomOracleNAVIssuanceModule.sol:779-827 | a restatement records the given total in the reserve, never more and short of it by the stated truncation, leaves every other virtual unit, and scales the multiplier by the supply ratio rounded down |
| `SetLedger.NavEffect` | contracts/protocol/modules/v1/CustomOracleNAVIssuanceModule.sol:679-746 | what a NAV issue or redemption does to balances, units and multiplier |
| `SetLedger.AccrueEffect` | contracts/protocol/modules/v1/StreamingFeeModule.sol:224-283 | an accrual leaves virtual units and balances and does not raise multiplier times supply |
| `SetLedger.ExternalEffect` | contracts/protocol/lib/Position.sol:128-159 | an external edit changes that position alone, which reads back as the unit given but for the stated rounding |
| `LedgerLaws.RestateIff` | contracts/protocol/modules/v1/CustomOracleNAVIssuanceModule.sol:779-827 | a restatement by inequalities: multiplier, unit and stored unit, and exactly when no position is lost |
| `LedgerLaws.NavIssueByNumbers` | contracts/protocol/modules/v1/CustomOracleNAVIssuanceModule.sol:198-220 | a NAV issue by inequalities: fees, premium, price and minted tokens, and exactly when it goes through, the caller's minimum and the minimum supply included |
| `LedgerLaws.NavRedeemByNumbers` | contracts/protocol/modules/v1/CustomOracleNAVIssuanceModule.sol:265-296 | a NAV redemption by inequalities: value, premium, fees and payout, and exactly when it goes through, the caller's minimum and the minimum supply included |
| `LedgerLaws.AccrueByNumbers` | contracts/protocol/modules/v1/StreamingFeeModule.sol:224-283 | an accrual by inequalities: supply and multiplier, and exactly when it goes through |
| `LedgerLaws.BasicGoesThroughIff` | contracts/protocol/modules/v1/BasicIssuanceModule.sol:86-163 | exactly when a basic issue or redemption goes through |
| `LedgerLaws.BasicByNumbers` | contracts/protocol/modules/v1/BasicIssuanceModule.sol:86-163 | what it then moves of every component: the real unit for every token, in rounded up, out rounded down, and nothing else |
| `LedgerLaws.ExternalGoesThroughIff` | contracts/protocol/lib/Position.sol:128-159 | exactly when an external edit goes through |
| `SetLedger.RoundTripLeavesReserve` | contracts/protocol/modules/v1/CustomOracleNAVIssuanceModule.sol:943-993 | the contract's round trip pays out less than the premium's percentage leaves of the net deposit, but for a wei, and leaves the set at least the reserve it had |
| `Predictions.OutflowIsFloor` | contracts/protocol/modules/v1/CustomOracleNAVIssuanceModule.sol:971-993 | what the contract takes out is the value in base units less the premium, rounded down |
| `Predictions.RedeemHelperIsClose` | utils/common/navIssuanceModuleUtils.ts:133-137 | helper and contract deduct amounts at most one wei apart while a base unit is at most the scale, and within the stated bounds in general |
| `Predictions.RedeemHelperExactIff` | contracts/protocol/modules/v1/CustomOracleNAVIssuanceModule.sol:971-993 | they deduct the same if and only if the weighted remainders of both orders differ by a proper remainder |
| `Predictions.RedeemHelperDiffers` | utils/common/navIssuanceModuleUtils.ts:88-107 | an input at which the helper predicts one wei and the contract pays none |
| `Predictions.PayoutsAreClose` | utils/common/navIssuanceModuleUtils.ts:88-107 | helper and contract pay out amounts at most three wei apart while a base unit is at most the scale, and within the stated bounds in general |
| `Predictions.PayoutExactIff` | utils/common/navIssuanceModuleUtils.ts:88-107 | they pay out the same if and only if the stated combination of the six remainders lies below one wei and not below zero |
| `UnitPredictions.FeeHelperIsClose` | test/protocol/modules/v1/streamingFeeModule.spec.ts:452-500 | how far the helper's unit is from the one the contract reads, for every default and external position: a held one between both bounds, a debt never understated, exact at multiplier one |
| `UnitPredictions.FeeHelperExactIff` | contracts/protocol/modules/v1/StreamingFeeModule.sol:278-283 | the prediction is exact, for every position of either sign, if and only if the weighted remainders of both orders differ by a proper remainder |
| `UnitPredictions.FeeHelperDiffers` | utils/common/feeModuleUtils.ts:32-45 | ledgers at which the helper predicts nothing held and the contract reads one, or three owed and the contract two |
| `UnitPredictions.DebtCanBeCharged` | test/protocol/modules/v1/streamingFeeModule.spec.ts:452-464 | the debt among them is a ledger that the module charges |
| `UnitPredictions.IssueUnitExactIff` | test/protocol/modules/v1/customOracleNAVIssuanceModule.spec.ts:1349-1370 | for every NAV issue that goes through, the predicted and the read unit agree if and only if both orders of normalising the total per token do, and are within the stated bounds |
| `UnitPredictions.IssueUnitDiffers` | utils/common/navIssuanceModuleUtils.ts:52-75 | an issue after which the helper predicts no unit and the set reads one |
| `UnitPredictions.RedeemUnitExactIff` | test/protocol/modules/v1/customOracleNAVIssuanceModule.spec.ts:2356-2384 | for every NAV redemption that goes through, the predicted and the read unit agree if and only if the stated combination of deductions and remainders is proper, or the overdrawn wei is lost |
| `UnitPredictions.AgreesAsForIssue` | utils/common/navIssuanceModuleUtils.ts:121-145 | when both deduct the same, that condition is the one of the issue |
| `UnitPredictions.RedeemUnitIsClose` | utils/common/navIssuanceModuleUtils.ts:121-145 | how far the two units are apart, and what the helper predicts when it overdraws the position |
| `UnitPredictions.RedeemUnitDiffers` | utils/common/navIssuanceModuleUtils.ts:121-145 | a redemption after which the helper predicts a negative unit and the set reads zero |
| `ComponentLists.HasDuplicate` | contracts/lib/AddressArrayUtils.sol:65-77 | finds a duplicate if and only if there is one |
| `ComponentLists.RemoveStorage` | contracts/lib/AddressArrayUtils.sol:102-113 | removes exactly the element and keeps the list free of duplicates |
| `SetModules.Create` | contracts/protocol/SetTokenCreator.sol:66-109 | makes a valid set with exactly the given real units if and only if the lists are acceptable |
| `SetTokens.SetToken.MinimumVirtualUnit` | contracts/protocol/SetToken.sol:600-627 | the smallest absolute unit of all positions, default and external, or none |
| `SetTokens.SetToken.EditPositionMultiplier` | contracts/protocol/SetToken.sol:317-323 | checking the smallest position decides for all: accepted exactly when no default or external position rounds to nothing |
| `SetTokens.SetToken.EditDefaultPosition` | contracts/protocol/lib/Position.sol:95-110 | stores the virtual unit or reverts, and keeps the component list equal to the set of positions, external ones included |
| `SetTokens.SetToken.EditExternalPosition` | contracts/protocol/lib/Position.sol:128-159 | opens, changes or closes one module's position with its data; component and module lists stay exactly the positions, and the guard on the last module never fails |
| `SetTokens.SetToken.RemoveExternalModule` | contracts/protocol/SetToken.sol:261-274 | drops exactly that module and its unit |
| `SetTokens.SetToken.NavIssueTokens` | contracts/protocol/modules/v1/CustomOracleNAVIssuanceModule.sol:198-220 | is the NAV issue transition of the ledger; a revert changes nothing |
| `SetTokens.SetToken.NavRedeemTokens` | contracts/protocol/modules/v1/CustomOracleNAVIssuanceModule.sol:265-296 | is the NAV redeem transition; a revert changes nothing |
| `SetTokens.SetToken.Accrue` | contracts/protocol/modules/v1/StreamingFeeModule.sol:90-103 | is the accrual transition of a positive rate; a revert changes nothing |
| `SetModules.ChargeByNumbers` | contracts/protocol/modules/v1/StreamingFeeModule.sol:203-207 | an accrual at a rate over a time by inequalities, or the number that cannot be charged |
| `SetModules.FeeModule.Accrue` | contracts/protocol/modules/v1/StreamingFeeModule.sol:86-108 | charges the rounded-down part of the yearly rate for the seconds since the last charge, with supply and multiplier by inequalities, and notes the time; at a zero rate notes the time only; a revert changes nothing and has a stated cause |
| `SetModules.FeeModule.UpdateRate` | contracts/protocol/modules/v1/StreamingFeeModule.sol:150-165 | charges what has accrued at the old rate, by the same inequalities, before the new one applies |
| `SetTokens.SetToken.RequiredComponentUnits` | contracts/protocol/modules/v1/BasicIssuanceModule.sol:203-223 | every component's rounded-up share; reverts if and only if there is an external position |
| `SetTokens.SetToken.BasicIssueTokens` | contracts/protocol/modules/v1/BasicIssuanceModule.sol:86-119 | is the basic issue transition |
| `SetTokens.SetToken.BasicRedeemTokens` | contracts/protocol/modules/v1/BasicIssuanceModule.sol:129-163 | is the basic redeem transition; stopping at an unpayable component undoes the rest |
| `SetBacking.TrackedWithinMargin` | contracts/protocol/lib/Position.sol:190-193 | a backed component's recorded balance exceeds the held one by at most the margin |
| `SetBacking.NextKeepsBacked` | contracts/protocol/modules/v1/CustomOracleNAVIssuanceModule.sol:1046-1086 | every action of every module keeps every component backed within its margin |
| `SetBacking.RunKeepsBacked` | contracts/protocol/modules/v1/StreamingFeeModule.sol:80-108 | over every run every component stays backed up to the margins its basic issues left |
| `SetBacking.RunShortfallIsDust` | contracts/protocol/modules/v1/BasicIssuanceModule.sol:203-223 | without condition, the recorded balance exceeds the held one by less than a wei per whole token issued |
| `SetBacking.DustBoundIsAttained` | contracts/protocol/modules/v1/BasicIssuanceModule.sol:203-223 | for every unit at which truncation drops the most it can, a run that falls short by exactly that bound |
| `SetBacking.RunTracksAtMostBalance` | contracts/protocol/modules/v1/StreamingFeeModule.sol:80-108 | if basic issues happen at whole units, the recorded balance never exceeds the held one |
| `SetBacking.BasicIssueIsSafeIff` | contracts/protocol/modules/v1/BasicIssuanceModule.sol:203-223 | after a basic issue, what is recorded stays within what is held, for every fully backed set with this unit and multiplier, every quantity and every run without another basic issue, if and only if virtual unit times multiplier is a multiple of the scale |
| `SetBacking.IssueThenRedeemUnderbacks` | contracts/protocol/modules/v1/CustomOracleNAVIssuanceModule.sol:1024-1039 | for every unit, a run that records the exact product and holds its whole part only |
| `SetBacking.AccrualAfterIssueCanUnderback` | contracts/protocol/modules/v1/BasicIssuanceModule.sol:129-163 | a run that records eight, holds six, and cannot redeem all tokens |
| `SetBacking.BackedSetRedeems` | contracts/protocol/modules/v1/BasicIssuanceModule.sol:144-160 | a fully backed set honours any redemption of existing tokens if and only if it has no external position |

## Left out

- What backs external positions: their units are edited by any module at will; debt is modelled in `DebtIssuance` at fixed units.
- Holders' ERC-20 balances, transfers with fees, access control, locking, reentrancy guards and events.
- 256-bit overflow: integers are unbounded, as in `BigNumber`.
- NavRuns.Step: takes the minted quantity of an issue as a free non-negative number, because backing does not depend on it.
- DebtIssuance.Module.ResolveEquity: external hooks move exactly the listed amounts, because their protocols are foreign code.
- DebtIssuance.Module.ResolveDebt: likewise.
- DebtIssuance.Module.Resolve: likewise.
- DebtIssuance.Module.Execute: units are fixed; the synchronisation that hooks of foreign protocols perform first is not modelled.
- UniswapPair.Pair.SwapFor: what the callback of a flash swap returns is part of the amounts in; the receiver check and the 112-bit overflow of reserves are not modelled.
- UniswapV2.RebalanceQuantity: names the asset sold, not the two addresses; the balance reads and extra amounts are already summed.
- Asynchronous behaviour, gas, and JavaScript's own comparison of `BigNumber` objects.
- `calculateEngageQuantities`, `calculateRebalanceFlows`, `getReservesSafe`, `leverUp`, `toUSDCDecimals`, `calculateExternalPositionUnit`, `getNetFundingGrowth`, `calculateLeverageRatios`, `calculateMaxIssueQuantity`: direct formulas over foreign reads that would only add easy members.
- `DebtIssuanceModuleV2`, `SlippageIssuanceModule`, `GeneralIndexModule`, the leverage, wrap, trade and claim modules, adapters, price oracles, deployment scripts and fixtures.
