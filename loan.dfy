/** The `Loan` component (src/lib.rs): a vault of one cash asset, the total
    supply of its lender token, and a fixed loan interest in percent.  Each
    method updates the fields step by step as the blueprint does; an abort
    leaves every field as it was, which is the platform's transaction
    rollback. */
module LoanComponent {
  import opened FixedPoint
  import opened LoanMath
  import opened PoolHistory

  class Loan {
    /** Amount held in `cash_vault`, in 10^-18 units. */
    var cash: nat
    /** Total supply of the lender token, in 10^-18 units. */
    var lenderSupply: nat
    /** `loan_interest`, a percentage; set once and never changed. */
    const loanInterest: Decimal

    /** A new pool: empty vault, no lender tokens. */
    constructor (loanInterest: Decimal)
      ensures Valid()
      ensures cash == 0 && lenderSupply == 0 && this.loanInterest == loanInterest
    {
      cash := 0;
      lenderSupply := 0;
      this.loanInterest := loanInterest;
    }

    /** The fields as a value. */
    function Snapshot(): Pool
      reads this
    {
      Pool(cash, lenderSupply, loanInterest)
    }

    /** The object invariant: with a non-negative interest, every lender
        token is backed by at least one unit of cash. */
    ghost predicate Valid()
      reads this
    {
      0 <= loanInterest ==> Backed(cash, lenderSupply)
    }

    /** The vault and the supply agree with a loan's settlement: the
        settled balance and the surplus on success, the old balance and the
        error on an abort. */
    ghost predicate Settled(before: nat, outcome: Result<Settlement>, r: Result<nat>)
      reads this
    {
      match outcome
      case Success(s) => cash == s.cash && r == Success(s.surplus)
      case Failure(e) => cash == before && r == Failure(e)
    }

    /** `buy_lenders`: deposit the payment and mint lender tokens at the rate
        taken before the deposit. */
    method BuyLenders(payment: nat) returns (lenders: nat)
      requires Valid()
      modifies this
      ensures Valid() && Snapshot() == Step(old(Snapshot()), Buy(payment))
      ensures lenders == LendersBought(old(cash), old(lenderSupply), payment)
      ensures old(cash) == 0 ==> lenders == payment
      ensures cash == old(cash) + payment
      ensures lenderSupply == old(lenderSupply) + lenders
      ensures PriceNotLower(old(cash), old(lenderSupply), cash, lenderSupply)
    {
      ghost var before := Snapshot();
      var exchangeRate := ExchangeRate(cash, lenderSupply);
      var bought := Mul(exchangeRate, payment);
      assert bought == LendersBought(cash, lenderSupply, payment);
      BuyKeepsSharePrice(cash, lenderSupply, payment);
      if 0 <= loanInterest {
        BuyKeepsBacking(cash, lenderSupply, payment);
      }
      cash := cash + payment;
      lenderSupply := lenderSupply + bought;
      lenders := bought;
      assert Snapshot() == Step(before, Buy(payment));
    }

    /** `sell_lenders`: burn the tokens and pay out their share of the
        vault, at the initial rate of one unit per token or better when the
        interest is not negative.  The bucket holds existing lender tokens, so it is at most the
        total supply; with no supply the rate's division aborts. */
    method SellLenders(lenders: nat) returns (r: Result<nat>)
      requires Valid() && lenders <= lenderSupply
      modifies this
      ensures Valid() && Snapshot() == Step(old(Snapshot()), Sell(lenders))
      ensures old(lenderSupply) == 0 ==>
                r == Failure(DivisionByZero) && cash == old(cash) && lenderSupply == old(lenderSupply)
      ensures 0 < old(lenderSupply) ==>
                r == Success(CashReturned(old(cash), old(lenderSupply), lenders)) &&
                cash == old(cash) - r.value && lenderSupply == old(lenderSupply) - lenders
      ensures PriceNotLower(old(cash), old(lenderSupply), cash, lenderSupply)
      ensures r.Success? && 0 <= loanInterest ==> lenders <= r.value
    {
      if lenderSupply == 0 {
        return Failure(DivisionByZero);
      }
      ghost var before := Snapshot();
      var cashReturned := CashReturned(cash, lenderSupply, lenders);
      SellKeepsSharePrice(cash, lenderSupply, lenders);
      if 0 <= loanInterest {
        SellKeepsBacking(cash, lenderSupply, lenders);
        SellAtInitialRateOrBetter(cash, lenderSupply, lenders);
      }
      lenderSupply := lenderSupply - lenders;
      // the payout never exceeds the vault, so taking it cannot fail
      cash := cash - cashReturned;
      r := Success(cashReturned);
      assert Snapshot() == Step(before, Sell(lenders));
    }

    /** `request_loan`: lend `amount` to the borrower, insist on
        amount * (interest/100 + 1) back, keep that and hand back the rest.
        The borrower is not consulted when the liquidity check fails: the
        outcome then does not depend on it. */
    method RequestLoan(amount: Decimal, borrower: nat -> nat) returns (r: Result<nat>)
      requires Valid()
      modifies this
      ensures Valid() && Snapshot() == Step(old(Snapshot()), Borrow(amount, borrower))
      ensures lenderSupply == old(lenderSupply)
      ensures Settled(old(cash), FlashLoan(old(cash), loanInterest, amount, borrower), r)
      ensures amount >= old(cash) ==> r == Failure(NotEnoughFunds) && cash == old(cash)
      ensures r.Success? && 0 <= loanInterest ==> old(cash) <= cash
    {
      if !(amount < cash) {
        return Failure(NotEnoughFunds);
      }
      var before := cash;
      // take the principal out of the vault
      if amount < 0 {
        return Failure(InvalidAmount);
      }
      cash := cash - amount;
      var returned := borrower(amount);
      var due := AmountDue(amount, loanInterest);
      if !(returned >= due) {
        cash := before;
        return Failure(LoanNotRepaid(due));
      }
      // take what is due out of the returned bucket
      if due < 0 {
        cash := before;
        return Failure(InvalidAmount);
      }
      returned := returned - due;
      cash := cash + due;
      r := Success(returned);
    }

    /** `request_max_loan`: asks for the whole balance, which the strict
        liquidity check of `request_loan` always refuses. */
    method RequestMaxLoan(borrower: nat -> nat) returns (r: Result<nat>)
      requires Valid()
      modifies this
      ensures Valid()
      ensures r == Failure(NotEnoughFunds)
      ensures cash == old(cash) && lenderSupply == old(lenderSupply)
    {
      r := RequestLoan(cash, borrower);
    }

    /** `request_loan_upto`: asks for the amount capped at the balance; the
        cap is the balance itself, so a request that is not below the
        balance still aborts. */
    method RequestLoanUpto(amount: Decimal, borrower: nat -> nat) returns (r: Result<nat>)
      requires Valid()
      modifies this
      ensures Valid()
      ensures lenderSupply == old(lenderSupply)
      ensures amount < old(cash) ==> Settled(old(cash), FlashLoan(old(cash), loanInterest, amount, borrower), r)
      ensures amount >= old(cash) ==> r == Failure(NotEnoughFunds) && cash == old(cash)
    {
      r := RequestLoan(if amount > cash then cash else amount, borrower);
    }

    /** `get_balance`: the amount in the vault. */
    method GetBalance() returns (balance: nat)
      ensures balance == cash
    {
      balance := cash;
    }
  }

  /** A pool with 10% interest: two deposits of 500 and a redemption of 500
      at par, then a loan of 100 repaid with 110 that raises the vault by
      exactly the interest. */
  method ParDepositsThenLoan(borrower: nat -> nat) returns (balance: nat)
    requires borrower(FromInt(100)) == FromInt(110)
    ensures balance == FromInt(510)
  {
    var pool := new Loan(FromInt(10));
    var first := pool.BuyLenders(FromInt(500));
    assert first == FromInt(500);
    assert pool.cash == pool.lenderSupply == FromInt(500);
    var second := pool.BuyLenders(FromInt(500));
    ParPoolTradesOneToOne(FromInt(500), FromInt(500), 0);
    assert second == FromInt(500);
    assert pool.cash == pool.lenderSupply == FromInt(1000);
    var paid := pool.SellLenders(FromInt(500));
    ParPoolTradesOneToOne(FromInt(1000), 0, FromInt(500));
    assert paid == Success(FromInt(500));
    balance := pool.GetBalance();
    assert balance == FromInt(500);
    assert AmountDue(FromInt(100), FromInt(10)) == FromInt(110);
    var change := pool.RequestLoan(FromInt(100), borrower);
    assert change == Success(0);
    var refused := pool.RequestMaxLoan(borrower);
    assert refused == Failure(NotEnoughFunds);
    balance := pool.GetBalance();
  }
}
