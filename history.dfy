/** The pool's state as a value and a history of calls to the component,
    each applied as the `Loan` methods apply it (an aborted call leaves the
    state as it was).  Over any history from a fresh pool with a
    non-negative interest, every lender token stays backed by at least one
    unit of cash. */
module PoolHistory {
  import opened FixedPoint
  import opened LoanMath

  /** The fields of the component: vault balance, lender supply, interest. */
  datatype Pool = Pool(cash: nat, supply: nat, interest: Decimal)

  /** A call that can change the pool.  `request_max_loan` and
      `request_loan_upto` are loans of the balance or of a capped amount. */
  datatype Call =
    | Buy(payment: nat)
    | Sell(lenders: nat)
    | Borrow(amount: Decimal, borrower: nat -> nat)

  /** The pool after one call.  A sell with more tokens than exist cannot be
      issued (no bucket holds them), so it is taken as having no effect. */
  function Step(p: Pool, call: Call): (q: Pool)
    ensures q.interest == p.interest
    ensures call.Buy? ==> q.cash == p.cash + call.payment
    ensures call.Sell? ==> q.cash <= p.cash && q.supply <= p.supply
    ensures call.Borrow? ==> q.supply == p.supply
    ensures call.Borrow? && 0 <= p.interest ==> p.cash <= q.cash
  {
    match call
    case Buy(payment) =>
      Pool(p.cash + payment, p.supply + LendersBought(p.cash, p.supply, payment), p.interest)
    case Sell(lenders) =>
      if p.supply == 0 || p.supply < lenders then p
      else Pool(p.cash - CashReturned(p.cash, p.supply, lenders), p.supply - lenders, p.interest)
    case Borrow(amount, borrower) =>
      match FlashLoan(p.cash, p.interest, amount, borrower)
      case Success(s) => p.(cash := s.cash)
      case Failure(_) => p
  }

  /** The pool after a sequence of calls, in order. */
  function Run(p: Pool, calls: seq<Call>): Pool
    decreases |calls|
  {
    if calls == [] then p else Run(Step(p, calls[0]), calls[1..])
  }

  /** Each call keeps a backed pool backed when the interest is not negative. */
  lemma StepKeepsBacking(p: Pool, call: Call)
    requires 0 <= p.interest && Backed(p.cash, p.supply)
    ensures Backed(Step(p, call).cash, Step(p, call).supply)
  {
    match call
    case Buy(payment) =>
      BuyKeepsBacking(p.cash, p.supply, payment);
    case Sell(lenders) =>
      if 0 < p.supply && lenders <= p.supply {
        SellKeepsBacking(p.cash, p.supply, lenders);
      }
    case Borrow(_, _) =>
  }

  /** No call lowers the cash backing each lender token, when the interest is
      not negative. */
  lemma StepKeepsSharePrice(p: Pool, call: Call)
    requires 0 <= p.interest
    ensures PriceNotLower(p.cash, p.supply, Step(p, call).cash, Step(p, call).supply)
  {
    var q := Step(p, call);
    match call
    case Buy(payment) =>
      BuyKeepsSharePrice(p.cash, p.supply, payment);
    case Sell(lenders) =>
      if 0 < p.supply && lenders <= p.supply {
        SellKeepsSharePrice(p.cash, p.supply, lenders);
      }
    case Borrow(_, _) =>
      MulLeft(p.cash, q.cash, p.supply);
      assert p.supply * p.cash == p.cash * p.supply;
  }

  /** Backing survives any history of calls. */
  lemma {:induction false} RunKeepsBacking(p: Pool, calls: seq<Call>)
    requires 0 <= p.interest && Backed(p.cash, p.supply)
    ensures Backed(Run(p, calls).cash, Run(p, calls).supply)
    ensures Run(p, calls).interest == p.interest
    decreases |calls|
  {
    if calls != [] {
      StepKeepsBacking(p, calls[0]);
      RunKeepsBacking(Step(p, calls[0]), calls[1..]);
    }
  }

  /** A history of loans alone never changes the lender supply and, when
      the interest is not negative, never lowers the vault. */
  lemma {:induction false} LoansNeverLowerVault(p: Pool, calls: seq<Call>)
    requires forall i :: 0 <= i < |calls| ==> calls[i].Borrow?
    ensures Run(p, calls).supply == p.supply
    ensures 0 <= p.interest ==> p.cash <= Run(p, calls).cash
    decreases |calls|
  {
    if calls != [] {
      assert calls[0].Borrow?;
      LoansNeverLowerVault(Step(p, calls[0]), calls[1..]);
    }
  }

  /** From a fresh pool with non-negative interest, whatever calls follow,
      every token is backed by a unit of cash, so redeeming tokens always
      pays at least one unit each: the initial rate or better. */
  lemma EveryHistorySellsAtInitialRateOrBetter(interest: Decimal, calls: seq<Call>, lenders: nat)
    requires 0 <= interest
    ensures var p := Run(Pool(0, 0, interest), calls);
            Backed(p.cash, p.supply) &&
            (0 < p.supply ==> lenders <= CashReturned(p.cash, p.supply, lenders))
  {
    RunKeepsBacking(Pool(0, 0, interest), calls);
    var p := Run(Pool(0, 0, interest), calls);
    if 0 < p.supply {
      SellAtInitialRateOrBetter(p.cash, p.supply, lenders);
    }
  }
}
