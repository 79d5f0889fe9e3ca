# Crowdfunded flash-loan pool, modelled in Dafny

A model of the `Loan` blueprint of `crowdfunded_loan` (a Scrypto component,
`src/lib.rs`). The pool holds one cash asset in a vault and issues a
"lender" token against deposits:

- `buy_lenders` deposits a payment and mints lender tokens at the rate
  supply / balance, or 1 when the vault is empty;
- `sell_lenders` burns lender tokens and pays out (balance / supply) per token;
- `request_loan` lends part of the vault to a borrower component within one
  transaction, requires `amount * (loan_interest/100 + 1)` back, keeps that
  and hands the surplus back; `request_max_loan` and `request_loan_upto`
  call it with the whole balance or a capped amount;
- `get_balance` reads the vault.

Files:

- `fixed_point.dfy` (module `FixedPoint`): Scrypto's `Decimal` as an integer
  count of 10^-18 units. Multiplication and division form the exact result
  and truncate toward zero (`Quot`), not Dafny's Euclidean division. Dividing
  by zero aborts.
- `loan_math.dfy` (module `LoanMath`): the blueprint's formulas as functions
  (`ExchangeRate`, `LendersBought`, `CashReturned`, `AmountDue`), the whole
  outcome of one flash loan (`FlashLoan`), and the lemmas about them.
- `history.dfy` (module `PoolHistory`): the pool's fields as a value,
  one call applied to it (`Step`), a sequence of calls (`Run`), and
  the proof that the backing invariant holds over any history.
- `loan.dfy` (module `LoanComponent`): the component as the class `Loan`.
  Its fields are the vault balance `cash`, the lender token's total supply
  `lenderSupply` and the constant `loanInterest`. Each method updates the
  fields in the blueprint's order. Each method's `ensures` gives the new
  state in terms of the formulas above.

The central property is the blueprint's own promise at `src/lib.rs:42`:
lender tokens sell "at the initial rate (or better if the flashloan has been
used)". The model proves this as an invariant. When the interest is not
negative, the vault always holds at least one unit of cash per lender token
(`Loan.Valid`). So a redemption always pays at least one unit per token.
Per call, the cash behind each token also never falls.

Design decisions:

- Arithmetic is fixed point, not an idealised real number. Exact
  round trips therefore do not hold in general. The model proves what does
  hold:
  - truncation never lets a deposit-then-redeem return more than was paid;
  - a pool whose balance equals its supply trades exactly one to one.
- An abort is a `Failure` result with every field unchanged. This models
  the rollback of the whole transaction. Where the blueprint has already
  taken cash out of the vault, the method restores it before returning.
- The borrower component is a function from the amount it receives to the
  amount it returns. When the liquidity check fails, the result of
  `RequestLoan` does not depend on that function at all. That is how the
  model says "the borrower is not called".
- Taking a negative amount out of a vault or bucket is refused by the
  platform (`InvalidAmount`). This matters in two places:
  - a negative loan request, which passes the `amount < balance` check;
  - a negative amount due, which happens when `loan_interest < -100`.
- `SellLenders` requires `lenders <= lenderSupply`. The platform guarantees
  this: a bucket of lender tokens cannot hold more than the total supply.

Behaviours of the code that its own comments do not lead one to expect:

- `request_max_loan` is commented "lends out all the cash in the vault"
  (`src/lib.rs:73`) and `request_loan_upto` "will loan max rather than fail
  if the amount cannot be filled" (`src/lib.rs:78`). Both pass the balance
  itself into `request_loan`, whose check `amount < balance`
  (`src/lib.rs:54`) is strict. So `request_max_loan` always aborts, and
  `request_loan_upto` aborts whenever the request is not below the balance.
- The exchange rate is 1 whenever the vault is empty, whatever the supply
  (`src/lib.rs:34`).
- With all tokens redeemed, truncation can leave cash in the vault and no
  supply (`RedeemingAllTokensCanLeaveDust`). A later deposit then mints
  nothing (`SharelessPoolMintsNothing`), and `sell_lenders` would divide by
  the zero supply. More generally, whenever supply / balance is below
  10^-18 the 18-place rate is 0 and a deposit mints nothing
  (`TinyRateMintsNothing`). This is also why a deposit followed by an
  immediate redemption has an upper bound on its return but no lower one.
- A loan of 100 at 10% from a vault of 1000, repaid with 110, leaves 1010 in
  the vault: 100 goes out and 110 comes back (`LoanAtTenPercent`).

## Model

| member | source | states |
|---|---|---|
| `FixedPoint.Quot` | src/lib.rs:34 | the quotient truncates toward zero: its magnitude is the floor of \|a\|/\|b\| and its sign is the sign of a/b |
| `FixedPoint.Mul` | src/lib.rs:35 | Decimal product: on non-negative operands it is the exact product truncated to 18 places, never negative |
| `FixedPoint.MulByOne` | src/lib.rs:35 | 1 is the identity of Decimal multiplication on both sides, so a rate of 1 mints exactly the payment |
| `FixedPoint.Div` | src/lib.rs:44 | Decimal quotient: x/x is 1 and 0/x is 0; on non-negative operands it is the exact quotient truncated to 18 places |
| `LoanMath.ExchangeRate` | src/lib.rs:34 | the rate is 1 when the vault is empty (whatever the supply) and when balance equals supply; otherwise it is supply/balance truncated, and never negative |
| `LoanMath.LendersBought` | src/lib.rs:34-35 | an empty vault mints exactly the payment, with no division; otherwise the tokens minted are payment × supply / balance, never more and less only by the rounding of the rate and of the product |
| `LoanMath.CashReturned` | src/lib.rs:44 | the payout is balance × lenders / supply, never more and less only by the rounding of the rate and of the product; it never exceeds the vault when the tokens are at most the supply; at par it equals the tokens redeemed |
| `LoanMath.AmountDue` | src/lib.rs:64 | the amount due with zero interest is the principal; with non-negative interest it is at least the principal and is principal × (1 + interest/100), never more and less only by the rounding of interest/100 and of the product |
| `LoanMath.FlashLoan` | src/lib.rs:53-71 | a loan aborts with NotEnoughFunds iff amount ≥ balance, with InvalidAmount for a negative amount or a negative amount due (interest below −100), and with LoanNotRepaid(due) when the return is short; it succeeds iff 0 ≤ amount < balance and 0 ≤ due ≤ returned; on success the new balance is balance − amount + due and the surplus is returned − due; with non-negative interest the balance does not fall |
| `LoanMath.LoanGainWithinInterest` | src/lib.rs:64-67 | a repaid loan raises the vault by amount × interest/100: never more, and less only by the rounding of the amount due |
| `LoanMath.BuyKeepsSharePrice` | src/lib.rs:33-40 | after a purchase, the cash backing each lender token is no lower than before |
| `LoanMath.SellKeepsSharePrice` | src/lib.rs:42-49 | after a redemption, the cash backing each remaining token is no lower than before: tokens sell at the initial rate or better |
| `LoanMath.SellAtInitialRateOrBetter` | src/lib.rs:42-44 | when the vault holds at least one unit per token, redeeming tokens pays at least one unit per token: the initial rate or better |
| `LoanMath.BuyKeepsBacking` | src/lib.rs:33-40 | a purchase keeps at least one unit of cash per token |
| `LoanMath.SellKeepsBacking` | src/lib.rs:43-49 | a redemption keeps at least one unit of cash per token |
| `LoanMath.BuyThenSellReturnsAtMostPayment` | src/lib.rs:33-49 | paying in and at once redeeming every token just minted never returns more than was paid |
| `LoanMath.ParPoolTradesOneToOne` | src/lib.rs:34-48 | when balance equals supply (in particular an empty pool), a purchase mints exactly the payment and a redemption pays exactly the tokens redeemed, so the pool stays at par |
| `LoanMath.SharelessPoolMintsNothing` | src/lib.rs:34-35 | with cash in the vault but no tokens outstanding, the rate is 0 and a deposit mints no tokens |
| `LoanMath.TinyRateMintsNothing` | src/lib.rs:34-35 | whenever supply / balance is below 10^-18 the rate truncates to 0 and a deposit mints nothing |
| `LoanMath.RedeemingAllTokensCanLeaveDust` | src/lib.rs:44-48 | redeeming all 3 tokens of a pool holding 10 pays 10 − 10^-18, which leaves that shareless state behind |
| `LoanMath.LoanAtTenPercent` | src/lib.rs:64-67 | at 10% interest, a loan of 100 from a vault of 1000 settles at 1010 with no surplus when 110 comes back, and aborts with 110 due when 109 comes back |
| `PoolHistory.Step` | src/lib.rs:33-71 | one call applied to the pool: the interest never changes; a purchase adds exactly the payment to the vault; a redemption never raises vault or supply; a loan never changes the supply and, at non-negative interest, never lowers the vault |
| `PoolHistory.StepKeepsBacking` | src/lib.rs:33-71 | at non-negative interest, every call keeps at least one unit of cash per token |
| `PoolHistory.StepKeepsSharePrice` | src/lib.rs:33-71 | at non-negative interest, no call lowers the cash backing each token |
| `PoolHistory.RunKeepsBacking` | src/lib.rs:33-71 | at non-negative interest, any sequence of calls keeps at least one unit of cash per token and leaves the interest unchanged |
| `PoolHistory.LoansNeverLowerVault` | src/lib.rs:53-71 | any sequence of loans leaves the lender supply unchanged and, at non-negative interest, never lowers the vault |
| `PoolHistory.EveryHistorySellsAtInitialRateOrBetter` | src/lib.rs:42-49 | from a fresh pool with non-negative interest, after any sequence of calls, every token is backed and redeeming tokens pays at least one unit each |
| `LoanComponent.Loan.constructor` | src/lib.rs:23-29 | a new pool has an empty vault, no lender tokens and the given interest, and satisfies the backing invariant |
| `LoanComponent.Loan.BuyLenders` | src/lib.rs:33-40 | the vault grows by exactly the payment and the supply by exactly the tokens minted at the pre-deposit rate (the payment itself when the vault was empty); the share price does not fall; the new fields are `Step` of the old ones, and the backing invariant is kept |
| `LoanComponent.Loan.SellLenders` | src/lib.rs:43-49 | with zero supply it aborts with DivisionByZero and changes nothing; otherwise the supply drops by exactly the tokens, the vault drops by exactly the payout returned, and the share price does not fall; at non-negative interest the payout is at least one unit per token, the initial rate or better; the new fields are `Step` of the old ones, and the backing invariant is kept |
| `LoanComponent.Loan.RequestLoan` | src/lib.rs:53-71 | the vault and the result follow `FlashLoan` exactly: on an abort nothing changes; on success the vault holds the settled balance, which is no lower than before at non-negative interest, and the caller gets the surplus; the supply never changes; the new fields are `Step` of the old ones, and the backing invariant is kept |
| `LoanComponent.Loan.RequestMaxLoan` | src/lib.rs:74-76 | always aborts with NotEnoughFunds, changes nothing and so keeps the backing invariant |
| `LoanComponent.Loan.RequestLoanUpto` | src/lib.rs:79-81 | below the balance it behaves exactly like `request_loan` with the same amount; otherwise it aborts with NotEnoughFunds and changes nothing |
| `LoanComponent.Loan.GetBalance` | src/lib.rs:83-85 | returns the vault amount and changes nothing |
| `LoanComponent.ParDepositsThenLoan` | src/lib.rs:33-85 | two deposits of 500 and a redemption of 500 at par, then a loan of 100 at 10% repaid with 110, leave 510 in the vault; a maximum loan is then refused |

## Left out

- Instantiation through `ResourceBuilder`: the admin badge, the token
  metadata and flags, and the cash resource address. A new pool is simply
  an empty vault, zero supply and the given interest.
- The admin badge's `authorize` around mint and burn. This is platform
  capability plumbing; mint and burn are direct updates of the supply.
- `scrypto_encode` and the cross-component call. The borrower is a function
  argument.
- A borrower whose `execute` panics or does not return a bucket. The
  borrower is a total function, so these outcomes are not among the
  modelled ones; on the platform they abort the whole transaction, which
  leaves every field unchanged as the model's other aborts do.
- Re-entrancy: the borrower calling back into the pool during the loan.
  The platform's transaction and component rules govern this, not the
  pool's logic.
- Resource identity of buckets. The model does not check that the payment,
  the lender bucket or the returned bucket hold the right resource.
- The cash resource's divisibility. Amounts are taken to have all 18
  decimal places, so no take is refused for granularity.
- `FixedPoint.Mul`: Decimal's 128-bit range is not modelled. Integers are
  unbounded, so results too large for 128 bits do not abort here as they
  would on the platform.
- `FixedPoint.Div`: the same 128-bit range is not modelled.
- The same range is not modelled for any other Decimal arithmetic either:
  the vault deposits and the mint additions in `Loan.BuyLenders`,
  `Loan.RequestLoan` and `PoolHistory.Step` never overflow here.
