/** The formulas of the `Loan` blueprint (src/lib.rs) as pure functions over
    Decimal amounts, the outcome of one flash loan, and what they guarantee:
    share issue and redemption never lower the cash backing each lender
    token, and a repaid loan never shrinks the vault. */
module LoanMath {
  import opened FixedPoint

  /** Why a call aborts.  Every abort rolls back the whole transaction. */
  datatype Error =
    | NotEnoughFunds           // the loan request is not below the vault balance
    | LoanNotRepaid(due: Decimal)  // the borrower returned less than `due`
    | DivisionByZero           // Decimal division by a zero total supply
    | InvalidAmount            // taking a negative amount out of a vault or bucket

  datatype Result<T> = Success(value: T) | Failure(error: Error)

  /** Lender tokens minted per unit of cash paid in: supply / balance, or 1
      when the vault is empty (whatever the supply). */
  function ExchangeRate(cash: nat, supply: nat): (rate: Decimal)
    ensures 0 <= rate
    ensures cash == 0 ==> rate == ONE
    ensures cash == supply ==> rate == ONE
    ensures 0 < cash ==> rate * cash <= supply * ONE < (rate + 1) * cash
  {
    if cash > 0 then Div(supply, cash) else ONE
  }

  /** Lender tokens minted for a payment, at the rate taken before the
      payment is deposited: the payment's proportional claim on the pool,
      payment * supply / balance, less at most the rounding of the rate and
      of the product. */
  function LendersBought(cash: nat, supply: nat, payment: nat): (minted: nat)
    ensures cash == 0 ==> minted == payment
    ensures cash == supply ==> minted == payment
    ensures 0 < cash ==> minted * cash <= payment * supply
    ensures 0 < cash ==> payment * supply * ONE < (minted + 1) * ONE * cash + cash * payment
  {
    var rate := ExchangeRate(cash, supply);
    var m := Mul(rate, payment);
    MulByOne(payment);
    if 0 < cash then
      TruncatedScaling(m, rate, payment, cash, supply);
      TruncatedScalingBelow(m, rate, payment, cash, supply);
      m
    else
      m
  }

  /** Cash paid out for redeemed lender tokens: (balance / supply) * lenders,
      the tokens' proportional claim on the vault less at most the rounding
      of the rate and of the product.  The division aborts on a zero
      supply, so that case is the caller's. */
  function CashReturned(cash: nat, supply: nat, lenders: nat): (paid: nat)
    requires 0 < supply
    ensures paid * supply <= cash * lenders
    ensures cash * lenders * ONE < (paid + 1) * ONE * supply + supply * lenders
    ensures lenders <= supply ==> paid <= cash
    ensures cash == supply ==> paid == lenders
  {
    var rate := Div(cash, supply);
    var c := Mul(rate, lenders);
    MulByOne(lenders);
    TruncatedScaling(c, rate, lenders, supply, cash);
    TruncatedScalingBelow(c, rate, lenders, supply, cash);
    if lenders <= supply then
      MulLeft(lenders, supply, cash);
      assert c * supply <= cash * supply;
      MulCancel(c, cash, supply);
      c
    else
      c
  }

  /** What the borrower owes for a loan of `amount`:
      amount * ((interest / 100) + 1), in Decimal arithmetic.  For a
      non-negative interest it is at least the principal and at most the
      exact principal-plus-interest, less at most the rounding of the
      interest rate and of the product. */
  function AmountDue(amount: Decimal, interest: Decimal): (due: Decimal)
    ensures interest == 0 ==> due == amount
    ensures 0 <= amount && 0 <= interest ==> amount <= due
    ensures 0 <= amount && 0 <= interest ==> due * (100 * ONE) <= amount * (100 * ONE + interest)
    ensures 0 <= amount && 0 <= interest ==>
              amount * (100 * ONE + interest) < (due + 1) * (100 * ONE) + 100 * amount
  {
    var q := Div(interest, FromInt(100));
    var factor := q + ONE;
    var due := Mul(amount, factor);
    MulByOne(amount);
    if 0 <= amount && 0 <= interest then
      // q * 100 * ONE <= interest * ONE, so q * 100 <= interest
      assert q * FromInt(100) == (q * 100) * ONE;
      MulCancel(q * 100, interest, ONE);
      // lower bound: amount * ONE <= amount * factor < (due + 1) * ONE
      MulLeft(ONE, factor, amount);
      assert amount * ONE <= amount * factor;
      MulCancel(amount, due + 1, ONE);
      // upper bound: due * ONE * 100 <= amount * factor * 100 <= amount * (100 * ONE + interest)
      MulLeft(due * ONE, amount * factor, 100);
      assert amount * factor * 100 == amount * (q * 100 + 100 * ONE);
      MulLeft(q * 100 + 100 * ONE, interest + 100 * ONE, amount);
      assert due * (100 * ONE) == due * ONE * 100;
      assert amount * (interest + 100 * ONE) == amount * (100 * ONE + interest);
      DueBelow(amount, interest, q, due);
      due
    else
      due
  }

  /** A truncated product c of rate and x, where rate * y is at most k:
      c * y is at most k * x (all in 10^-18 units). */
  lemma TruncatedScaling(c: int, rate: int, x: nat, y: nat, k: int)
    requires c * ONE <= rate * x && rate * y <= k * ONE
    ensures c * y <= k * x && c * y <= x * k
  {
    MulLeft(c * ONE, rate * x, y);
    assert rate * x * y == (rate * y) * x;
    MulLeft(rate * y, k * ONE, x);
    assert c * ONE * y == (c * y) * ONE;
    assert k * ONE * x == (k * x) * ONE;
    MulCancel(c * y, k * x, ONE);
  }

  /** A truncated product c of rate and x, where k is below rate + 1 times
      y: k * x falls short of c * y by less than one unit of each rounding. */
  lemma TruncatedScalingBelow(c: int, rate: int, x: nat, y: nat, k: int)
    requires 0 < y && rate * x < (c + 1) * ONE && k * ONE < (rate + 1) * y
    ensures x * k * ONE < (c + 1) * ONE * y + y * x
    ensures k * x * ONE < (c + 1) * ONE * y + y * x
  {
    MulLeft(k * ONE, (rate + 1) * y, x);
    assert x * k * ONE == k * ONE * x == k * x * ONE;
    assert (rate + 1) * y * x == rate * x * y + y * x;
    MulStrict(rate * x, (c + 1) * ONE, y);
  }

  /** The amount due falls short of the exact principal-plus-interest by
      less than one unit of the product's rounding plus the rounding of
      interest / 100 (at most 100 units per unit of principal). */
  lemma DueBelow(amount: Decimal, interest: Decimal, q: Decimal, due: Decimal)
    requires 0 <= amount && 0 <= interest
    requires interest * ONE < (q + 1) * FromInt(100)
    requires amount * (q + ONE) < (due + 1) * ONE
    ensures amount * (100 * ONE + interest) < (due + 1) * (100 * ONE) + 100 * amount
  {
    // interest * ONE < ((q + 1) * 100) * ONE, so interest <= (q + 1) * 100
    assert (q + 1) * FromInt(100) == ((q + 1) * 100) * ONE;
    MulCancel(interest, (q + 1) * 100, ONE);
    MulLeft(100 * ONE + interest, 100 * ONE + (q + 1) * 100, amount);
    assert amount * (100 * ONE + (q + 1) * 100) == amount * (q + ONE) * 100 + 100 * amount;
    MulStrict(amount * (q + ONE), (due + 1) * ONE, 100);
    assert (due + 1) * ONE * 100 == (due + 1) * (100 * ONE);
  }

  /** The vault balance after a repaid loan and the surplus handed back. */
  datatype Settlement = Settlement(cash: nat, surplus: nat)

  /** One flash loan of `amount` from a vault holding `cash`, where the
      borrower hands back `borrower(lent)` for `lent` units received.  The
      steps and their aborts, in order: the strict liquidity check; taking
      the principal out of the vault (a negative amount is refused); the
      borrower's call; the repayment check; taking what is due out of the
      returned bucket (a negative amount is refused); depositing it. */
  function FlashLoan(cash: nat, interest: Decimal, amount: Decimal, borrower: nat -> nat): (r: Result<Settlement>)
    ensures amount >= cash ==> r == Failure(NotEnoughFunds)
    ensures amount < 0 ==> r == Failure(InvalidAmount)
    ensures 0 <= amount < cash && borrower(amount) < AmountDue(amount, interest) ==>
              r == Failure(LoanNotRepaid(AmountDue(amount, interest)))
    ensures 0 <= amount < cash && AmountDue(amount, interest) < 0 ==>
              r == Failure(InvalidAmount)
    ensures r == Failure(NotEnoughFunds) <==> amount >= cash
    ensures r.Success? <==> 0 <= amount < cash && 0 <= AmountDue(amount, interest) <= borrower(amount)
    ensures r.Success? ==> r.value.cash + amount == cash + AmountDue(amount, interest)
    ensures r.Success? ==> r.value.surplus + AmountDue(amount, interest) == borrower(amount)
    ensures r.Success? && 0 <= interest ==> cash <= r.value.cash
  {
    if !(amount < cash) then Failure(NotEnoughFunds)
    else if amount < 0 then Failure(InvalidAmount)
    else
      var returned := borrower(amount);
      var due := AmountDue(amount, interest);
      if !(returned >= due) then Failure(LoanNotRepaid(due))
      else if due < 0 then Failure(InvalidAmount)
      else Success(Settlement(cash - amount + due, returned - due))
  }

  // ---------------------------------------------------------------------
  // Share price

  /** The cash backing one lender token did not fall from state 0 to state 1:
      cash1 / supply1 >= cash0 / supply0, cross-multiplied so that it stays
      meaningful when a supply is zero. */
  predicate PriceNotLower(cash0: nat, supply0: nat, cash1: nat, supply1: nat) {
    cash0 * supply1 <= cash1 * supply0
  }

  /** Buying lender tokens never dilutes the existing holders. */
  lemma BuyKeepsSharePrice(cash: nat, supply: nat, payment: nat)
    ensures PriceNotLower(cash, supply, cash + payment, supply + LendersBought(cash, supply, payment))
  {
    var m := LendersBought(cash, supply, payment);
    if 0 < cash {
      assert m * cash <= payment * supply;
      Distribute(cash, supply, m);
      Distribute(supply, cash, payment);
      assert cash * m == m * cash;
    } else {
      MulSign(payment, supply);
    }
  }

  /** Redeeming lender tokens never lowers the price of the tokens left. */
  lemma SellKeepsSharePrice(cash: nat, supply: nat, lenders: nat)
    requires 0 < supply && lenders <= supply
    ensures PriceNotLower(cash, supply, cash - CashReturned(cash, supply, lenders), supply - lenders)
  {
    var c := CashReturned(cash, supply, lenders);
    ShareOfRemainder(cash, supply, c, lenders);
  }

  /** Paying out c for lenders tokens, where c is at most their share of
      cash, leaves the remaining tokens at least their share. */
  lemma ShareOfRemainder(cash: int, supply: int, c: int, lenders: int)
    requires c * supply <= cash * lenders
    ensures cash * (supply - lenders) <= (cash - c) * supply
  {
    Distribute(cash, supply, -lenders);
    Distribute(supply, cash, -c);
    assert cash * -lenders == -(cash * lenders);
    assert -c * supply == -(c * supply);
  }

  lemma Distribute(x: int, y: int, z: int)
    ensures x * (y + z) == x * y + x * z
    ensures (y + z) * x == y * x + z * x
  {
  }

  /** A repaid loan raises the vault by the stated interest on the
      principal: never more, and less only by the rounding of the amount
      due. */
  lemma LoanGainWithinInterest(cash: nat, interest: Decimal, amount: Decimal, borrower: nat -> nat)
    requires 0 <= interest && 0 <= amount < cash && 0 <= AmountDue(amount, interest) <= borrower(amount)
    ensures FlashLoan(cash, interest, amount, borrower).Success?
    ensures (FlashLoan(cash, interest, amount, borrower).value.cash - cash) * (100 * ONE) <= amount * interest
    ensures amount * interest <
              (FlashLoan(cash, interest, amount, borrower).value.cash - cash + 1) * (100 * ONE) + 100 * amount
  {
    var due := AmountDue(amount, interest);
    assert due * (100 * ONE) <= amount * (100 * ONE + interest);
    assert amount * (100 * ONE + interest) < (due + 1) * (100 * ONE) + 100 * amount;
    Distribute(amount, 100 * ONE, interest);
    assert (due - amount) * (100 * ONE) == due * (100 * ONE) - amount * (100 * ONE);
    assert (due - amount + 1) * (100 * ONE) == (due + 1) * (100 * ONE) - amount * (100 * ONE);
  }

  // ---------------------------------------------------------------------
  // Backing: every lender token is covered by at least one unit of cash

  /** Lender tokens sell "at the initial rate or better": the vault holds at
      least one unit of cash per token outstanding. */
  predicate Backed(cash: nat, supply: nat) {
    supply <= cash
  }

  /** In a backed pool, redeeming tokens pays at least one unit per token. */
  lemma SellAtInitialRateOrBetter(cash: nat, supply: nat, lenders: nat)
    requires 0 < supply && Backed(cash, supply)
    ensures lenders <= CashReturned(cash, supply, lenders)
  {
    var rate := Div(cash, supply);
    // supply * ONE <= cash * ONE < (rate + 1) * supply, so ONE <= rate
    MulLeft(supply, cash, ONE);
    assert ONE * supply < (rate + 1) * supply;
    MulCancel(ONE + 1, rate + 1, supply) by {
      if rate + 1 < ONE + 1 {
        MulLeft(rate + 1, ONE, supply);
      }
    }
    // lenders * ONE <= rate * lenders < (paid + 1) * ONE
    var paid := Mul(rate, lenders);
    MulLeft(ONE, rate, lenders);
    assert lenders * ONE < (paid + 1) * ONE;
    MulCancel(lenders + 1, paid + 1, ONE) by {
      if paid + 1 < lenders + 1 {
        MulLeft(paid + 1, lenders, ONE);
      }
    }
  }

  /** A purchase keeps the pool backed: at most one token per unit paid in. */
  lemma BuyKeepsBacking(cash: nat, supply: nat, payment: nat)
    requires Backed(cash, supply)
    ensures Backed(cash + payment, supply + LendersBought(cash, supply, payment))
  {
    var m := LendersBought(cash, supply, payment);
    if 0 < cash {
      MulLeft(supply, cash, payment);
      assert m * cash <= payment * cash;
      MulCancel(m, payment, cash);
    }
  }

  /** A redemption keeps the pool backed. */
  lemma SellKeepsBacking(cash: nat, supply: nat, lenders: nat)
    requires 0 < supply && lenders <= supply && Backed(cash, supply)
    ensures Backed(cash - CashReturned(cash, supply, lenders), supply - lenders)
  {
    var c := CashReturned(cash, supply, lenders);
    // c * supply <= cash * lenders <= (cash - supply + lenders) * supply,
    // the gap being (cash - supply) * (supply - lenders) >= 0
    MulSign(cash - supply, supply - lenders);
    assert (cash - supply + lenders) * supply - cash * lenders == (cash - supply) * (supply - lenders);
    MulCancel(c, cash - supply + lenders, supply);
  }

  // ---------------------------------------------------------------------
  // Round trips

  /** Paying in and at once redeeming every token just minted never returns
      more than was paid: truncation only ever favours the pool. */
  lemma BuyThenSellReturnsAtMostPayment(cash: nat, supply: nat, payment: nat)
    requires 0 < supply + LendersBought(cash, supply, payment)
    ensures var m := LendersBought(cash, supply, payment);
            CashReturned(cash + payment, supply + m, m) <= payment
  {
    var m := LendersBought(cash, supply, payment);
    var s := supply + m;
    var c := CashReturned(cash + payment, s, m);
    assert c * s <= (cash + payment) * m;
    // cash * m <= payment * supply, in both branches of the rate
    if 0 < cash {
      assert m * cash <= payment * supply;
    } else {
      MulSign(payment, supply);
    }
    assert (cash + payment) * m == cash * m + payment * m;
    assert payment * s == payment * supply + payment * m;
    MulCancel(c, payment, s);
  }

  /** A pool whose balance equals its supply (in particular the empty pool)
      trades one to one in both directions and stays that way: the first
      depositor sets the 1:1 baseline and, until a loan pays interest,
      every deposit and redemption keeps it. */
  lemma ParPoolTradesOneToOne(cash: nat, payment: nat, lenders: nat)
    ensures LendersBought(cash, cash, payment) == payment
    ensures 0 < cash && lenders <= cash ==> CashReturned(cash, cash, lenders) == lenders
    ensures 0 < cash && lenders <= cash ==> cash - CashReturned(cash, cash, lenders) == cash - lenders
  {
  }

  // ---------------------------------------------------------------------
  // Behaviour of the formulas at the edges

  /** With no tokens outstanding but cash left in the vault, the rate is
      0 / balance: a deposit mints nothing. */
  lemma SharelessPoolMintsNothing(cash: nat, payment: nat)
    requires 0 < cash
    ensures LendersBought(cash, 0, payment) == 0
  {
    var rate := ExchangeRate(cash, 0);
    assert rate * cash <= 0;
    MulCancel(rate, 0, cash);
  }

  /** More generally, whenever supply / balance is below 10^-18 the rate
      truncates to 0 and a deposit mints nothing. */
  lemma TinyRateMintsNothing(cash: nat, supply: nat, payment: nat)
    requires supply * ONE < cash
    ensures LendersBought(cash, supply, payment) == 0
  {
    var rate := ExchangeRate(cash, supply);
    assert rate * cash < 1 * cash;
    MulCancel(rate, 0, cash) by {
      if 0 < rate {
        MulLeft(1, rate, cash);
      }
    }
    var m := LendersBought(cash, supply, payment);
    assert m * ONE <= rate * payment;
    MulCancel(m, 0, ONE);
  }

  /** That state is reachable: redeeming all 3 tokens of a pool holding 10
      pays 9.999999999999999999 and leaves 10^-18 behind with no supply. */
  lemma RedeemingAllTokensCanLeaveDust()
    ensures CashReturned(FromInt(10), FromInt(3), FromInt(3)) == FromInt(10) - 1
  {
  }

  /** At 10% interest, lending 100 from a vault of 1000 settles at 1010 when
      110 comes back, and aborts with 110 due when only 109 does. */
  lemma LoanAtTenPercent(borrower: nat -> nat)
    ensures borrower(FromInt(100)) == FromInt(110) ==>
              FlashLoan(FromInt(1000), FromInt(10), FromInt(100), borrower) == Success(Settlement(FromInt(1010), 0))
    ensures borrower(FromInt(100)) == FromInt(109) ==>
              FlashLoan(FromInt(1000), FromInt(10), FromInt(100), borrower) == Failure(LoanNotRepaid(FromInt(110)))
  {
    assert AmountDue(FromInt(100), FromInt(10)) == FromInt(110);
  }
}
