/**
 Money in the checkout service: a count of currency units and of billionths of a unit, added
 with an explicit carry in machine integers, multiplied by repeated addition, and folded into
 the total of an order.
 */
module Money {

  const NANOS_MOD := 1_000_000_000
  const TWO_63 := 0x8000_0000_0000_0000
  const TWO_31 := 0x8000_0000

  type Int64 = x: int | -TWO_63 <= x < TWO_63
  type Int32 = x: int | -TWO_31 <= x < TWO_31
  type UInt32 = x: int | 0 <= x < 2 * TWO_31

  datatype Amount = Amount(currency: string, units: Int64, nanos: Int32)

  datatype Error = InvalidValue | MismatchingCurrency

  /** The Go pair (value, error); a panic of Must is the Failure of the method that panics. */
  datatype Result = Success(value: Amount) | Failure(error: Error)

  // ---- machine arithmetic ---------------------------------------------------------------

  /** Two's complement wrap-around of a sum of two machine integers. */
  function Wrap64(x: int): Int64
    requires -3 * TWO_63 <= x < 3 * TWO_63
  {
    if x < -TWO_63 then x + 2 * TWO_63 else if x >= TWO_63 then x - 2 * TWO_63 else x
  }

  function Wrap32(x: int): Int32
    requires -3 * TWO_31 <= x < 3 * TWO_31
  {
    if x < -TWO_31 then x + 2 * TWO_31 else if x >= TWO_31 then x - 2 * TWO_31 else x
  }

  /** Go's quotient truncates toward zero, and its remainder takes the sign of the dividend. */
  function Quot(a: int): int { if a >= 0 then a / NANOS_MOD else -(-a / NANOS_MOD) }

  function Rem(a: int): int { a - Quot(a) * NANOS_MOD }

  // ---- what an amount means -------------------------------------------------------------

  predicate IsValid(m: Amount)
  {
    && (m.nanos == 0 || m.units == 0 || (m.nanos < 0) == (m.units < 0))
    && -NANOS_MOD < m.nanos < NANOS_MOD
  }

  /** The exact number of billionths an amount stands for. */
  function Value(m: Amount): int { m.units * NANOS_MOD + m.nanos }

  /** m is a well-formed amount of exactly this many billionths. */
  predicate Represents(m: Amount, currency: string, total: int)
  {
    m.currency == currency && IsValid(m) && Value(m) == total
  }

  /** The totals whose units fit an int64. */
  predicate Fits(total: int)
  {
    -(TWO_63 + 1) * NANOS_MOD < total < TWO_63 * NANOS_MOD
  }

  /** Every total that fits has one well-formed amount, and no other total has any. */
  lemma RepresentationIsUnique(currency: string, total: int, m: Amount, n: Amount)
    ensures Fits(total) <==> exists a :: Represents(a, currency, total)
    ensures Represents(m, currency, total) && Represents(n, currency, total) ==> m == n
  {
    if Fits(total) {
      assert Represents(Amount(currency, Quot(total), Rem(total)), currency, total);
    }
  }

  /** Units that cancel out while less than one whole unit of nanos is left over. */
  predicate UnitsCancel(l: Amount, r: Amount)
  {
    l.units + r.units == 0 && l.nanos + r.nanos != 0 && l.nanos + r.nanos < NANOS_MOD
  }

  /** The value of 2⁶⁴ units: what a wrap-around of the units shifts an amount by. */
  const LAP := 2 * TWO_63 * NANOS_MOD

  /** Equal up to wrap-around. */
  predicate UpToLaps(a: int, b: int) { (a - b) % LAP == 0 }

  lemma LapsAddUp(sum: int, a: int, b: int, c: int, d: int)
    requires UpToLaps(sum, a + c) && UpToLaps(a, b) && UpToLaps(c, d)
    ensures UpToLaps(sum, b + d)
  {
  }

  // ---- money.go -------------------------------------------------------------------------

  /** Units and nanos brought to one sign, the nanos below one unit. */
  function Carried(units: Int64, nanos: Int32): (Int64, Int32)
  {
    if (units == 0 && nanos == 0) || (units > 0 && nanos >= 0) || (units < 0 && nanos <= 0)
    then (Wrap64(units + Quot(nanos)), Rem(nanos))
    else if units > 0 then (Wrap64(units - 1), Wrap32(nanos + NANOS_MOD))
    else (Wrap64(units + 1), Wrap32(nanos - NANOS_MOD))
  }

  /** Carrying keeps the value up to wrap-around, as long as the nanos do not underflow. */
  lemma CarryWraps(units: Int64, nanos: Int32, u: Int64, n: Int32)
    requires -2 * NANOS_MOD < nanos < 2 * NANOS_MOD && (u, n) == Carried(units, nanos)
    requires units == 0 ==> nanos == 0 || nanos >= NANOS_MOD - TWO_31
    ensures u * NANOS_MOD + n - (units * NANOS_MOD + nanos) in {-LAP, 0, LAP}
    ensures -NANOS_MOD < n < NANOS_MOD || (units == 0 && nanos < 0)
  {
  }

  /** Carrying without overflow is exact and well formed, unless a fraction of a unit stands alone. */
  lemma CarryIsExact(units: Int64, nanos: Int32, u: Int64, n: Int32)
    requires -2 * NANOS_MOD < nanos < 2 * NANOS_MOD && (u, n) == Carried(units, nanos)
    requires units == 0 ==> nanos == 0 || nanos >= NANOS_MOD
    requires (units > 0 ==> nanos > -NANOS_MOD) && (units < 0 ==> nanos < NANOS_MOD)
    requires Fits(units * NANOS_MOD + nanos)
    ensures u * NANOS_MOD + n == units * NANOS_MOD + nanos
    ensures -NANOS_MOD < n < NANOS_MOD && (n == 0 || u == 0 || (n < 0) == (u < 0))
  {
  }

  lemma CarryOfFraction(nanos: Int32, u: Int64, n: Int32)
    requires -2 * NANOS_MOD < nanos < NANOS_MOD && nanos != 0 && (u, n) == Carried(0, nanos)
    ensures u == 1 && n == Wrap32(nanos - NANOS_MOD)
    ensures !IsValid(Amount("", u, n))
    ensures u * NANOS_MOD + n == nanos <==> nanos >= NANOS_MOD - TWO_31
  {
  }

  /** The units of two well-formed amounts, wrapped. */
  lemma UnitsWrap(l: Amount, r: Amount, units: Int64)
    requires IsValid(l) && IsValid(r) && units == Wrap64(l.units + r.units)
    ensures units * NANOS_MOD + l.nanos + r.nanos - (Value(l) + Value(r)) in {-LAP, 0, LAP}
    ensures Fits(Value(l) + Value(r)) ==> units == l.units + r.units
    ensures units == l.units + r.units ==>
              (units > 0 ==> l.nanos + r.nanos > -NANOS_MOD) && (units < 0 ==> l.nanos + r.nanos < NANOS_MOD)
    ensures units == 0 && l.units + r.units != 0 ==> l.nanos + r.nanos <= 0
  {
  }

  /** What Sum returns for two well-formed amounts of one currency. */
  predicate SumOutcome(l: Amount, r: Amount, sum: Amount)
  {
    var exact := Value(l) + Value(r);
    && sum.currency == l.currency
    && (Represents(sum, l.currency, exact) <==> Fits(exact) && !UnitsCancel(l, r))
    && (UnitsCancel(l, r) ==> !IsValid(sum) && sum == Amount(l.currency, 1, Wrap32(l.nanos + r.nanos - NANOS_MOD)))
    && (Value(sum) == exact <==> Fits(exact) && !(UnitsCancel(l, r) && l.nanos + r.nanos < NANOS_MOD - TWO_31))
    && (IsValid(sum) ==> UpToLaps(Value(sum), exact))
  }

  /** The carried sum of two well-formed amounts of one currency. */
  predicate IsCarriedSum(l: Amount, r: Amount, units: Int64, nanos: Int32, sum: Amount)
  {
    && IsValid(l) && IsValid(r) && l.currency == r.currency == sum.currency
    && units == Wrap64(l.units + r.units) && nanos == l.nanos + r.nanos
    && (sum.units, sum.nanos) == Carried(units, nanos)
  }

  lemma FractionSum(l: Amount, r: Amount, units: Int64, nanos: Int32, sum: Amount)
    requires IsCarriedSum(l, r, units, nanos, sum)
    requires units == 0 && nanos != 0 && nanos < NANOS_MOD
    ensures SumOutcome(l, r, sum)
  {
    UnitsWrap(l, r, units);
    CarryOfFraction(nanos, sum.units, sum.nanos);
    assert !IsValid(sum) && (UnitsCancel(l, r) || !Fits(Value(l) + Value(r)));
  }

  lemma FittingSum(l: Amount, r: Amount, units: Int64, nanos: Int32, sum: Amount)
    requires IsCarriedSum(l, r, units, nanos, sum)
    requires Fits(Value(l) + Value(r)) && (units == 0 ==> nanos == 0 || nanos >= NANOS_MOD)
    ensures SumOutcome(l, r, sum)
  {
    UnitsWrap(l, r, units);
    CarryIsExact(units, nanos, sum.units, sum.nanos);
    assert Value(sum) == Value(l) + Value(r) && IsValid(sum) && !UnitsCancel(l, r);
  }

  lemma WrappedSum(l: Amount, r: Amount, units: Int64, nanos: Int32, sum: Amount)
    requires IsCarriedSum(l, r, units, nanos, sum)
    requires !Fits(Value(l) + Value(r)) && (units == 0 ==> nanos == 0 || nanos >= NANOS_MOD)
    ensures SumOutcome(l, r, sum)
  {
    UnitsWrap(l, r, units);
    CarryWraps(units, nanos, sum.units, sum.nanos);
    TwoLaps(Value(sum), units * NANOS_MOD + nanos, Value(l) + Value(r));
    assert Fits(Value(sum)) && !UnitsCancel(l, r);
  }

  lemma TwoLaps(a: int, b: int, c: int)
    requires a - b in {-LAP, 0, LAP} && b - c in {-LAP, 0, LAP}
    ensures UpToLaps(a, c)
  {
  }

  lemma CarriedSum(l: Amount, r: Amount, units: Int64, nanos: Int32, sum: Amount)
    requires IsCarriedSum(l, r, units, nanos, sum)
    ensures SumOutcome(l, r, sum)
  {
    if units == 0 && nanos != 0 && nanos < NANOS_MOD {
      FractionSum(l, r, units, nanos, sum);
    } else if Fits(Value(l) + Value(r)) {
      FittingSum(l, r, units, nanos, sum);
    } else {
      WrappedSum(l, r, units, nanos, sum);
    }
  }

  /**
   Addition. The result is the well-formed exact sum exactly when that sum fits and the units do
   not cancel. When they cancel the result is never well formed, and it still has the exact value
   unless the int32 nanos underflow. A well-formed result is the sum up to wrap-around.
   */
  method Sum(l: Amount, r: Amount) returns (res: Result)
    ensures !IsValid(l) || !IsValid(r) ==> res == Failure(InvalidValue)
    ensures IsValid(l) && IsValid(r) && l.currency != r.currency ==> res == Failure(MismatchingCurrency)
    ensures IsValid(l) && IsValid(r) && l.currency == r.currency ==> res.Success? && SumOutcome(l, r, res.value)
  {
    if !IsValid(l) || !IsValid(r) {
      return Failure(InvalidValue);
    } else if l.currency != r.currency {
      return Failure(MismatchingCurrency);
    }
    var units: Int64 := Wrap64(l.units + r.units);
    var nanos: Int32 := Wrap32(l.nanos + r.nanos);
    ghost var u, n := units, nanos;
    if (units == 0 && nanos == 0) || (units > 0 && nanos >= 0) || (units < 0 && nanos <= 0) {
      units := Wrap64(units + Quot(nanos));
      nanos := Rem(nanos);
    } else {
      if units > 0 {
        units := Wrap64(units - 1);
        nanos := Wrap32(nanos + NANOS_MOD);
      } else {
        units := Wrap64(units + 1);
        nanos := Wrap32(nanos - NANOS_MOD);
      }
    }
    CarriedSum(l, r, u, n, Amount(l.currency, units, nanos));
    return Success(Amount(l.currency, units, nanos));
  }

  /** Addition really returns a malformed amount: nothing and half a unit add up to one unit less half a unit. */
  lemma SumCanBeMalformed(l: Amount, r: Amount, sum: Amount)
    requires l == Amount("USD", 0, 0) && r == Amount("USD", 0, 500_000_000) && SumOutcome(l, r, sum)
    ensures IsValid(l) && IsValid(r) && sum == Amount("USD", 1, -500_000_000) && !IsValid(sum)
  {
    assert UnitsCancel(l, r);
  }

  /** Scaling down by a smaller factor keeps a total representable. */
  lemma SmallerMultipleFits(value: int, k: nat, n: nat)
    requires k <= n && Fits(n * value)
    ensures Fits(k * value)
  {
    if value >= 0 {
      assert 0 <= k * value <= n * value;
    } else {
      assert n * value <= k * value <= 0;
    }
  }

  /** Adding m to an amount at least as far from zero cannot cancel units, if doubling m does not. */
  lemma LargerAmountDoesNotCancel(m: Amount, larger: Amount)
    requires IsValid(m) && IsValid(larger) && !UnitsCancel(m, m)
    requires Value(m) >= 0 ==> Value(larger) >= Value(m)
    requires Value(m) <= 0 ==> Value(larger) <= Value(m)
    ensures !UnitsCancel(larger, m)
  {
  }

  /** Any number of copies of m is at least as far from zero as m. */
  lemma CopiesAreLarger(value: int, k: nat)
    requires k >= 1
    ensures value >= 0 ==> k * value >= value
    ensures value <= 0 ==> k * value <= value
  {
    assert k * value == value + (k - 1) * value;
  }

  lemma NextCopy(sum: int, out: int, value: int, k: nat, valid: bool)
    requires valid ==> UpToLaps(sum, out + value)
    requires UpToLaps(out, k * value)
    ensures valid ==> UpToLaps(sum, (k + 1) * value)
  {
    assert (k + 1) * value == k * value + value;
    if valid {
      LapsAddUp(sum, out, k * value, value, value);
    }
  }

  /** The number of copies that a multiplication by n adds up: n, and at least one. */
  function Copies(n: UInt32): (copies: nat)
    ensures copies >= 1 && copies >= n && copies in {1, n}
  {
    if n <= 1 then 1 else n
  }

  /**
   Multiplication by repeated addition, n - 1 times; Failure stands for the panic of Must.
   Factors 0 and 1 return the amount itself, so the factor in effect is max(n, 1).
   */
  method MultiplySlow(m: Amount, n: UInt32) returns (res: Result)
    ensures n <= 1 ==> res == Success(m)
    ensures n >= 2 && !IsValid(m) ==> res == Failure(InvalidValue)
    ensures n >= 3 && UnitsCancel(m, m) ==> res == Failure(InvalidValue)
    ensures n == 2 && UnitsCancel(m, m) && res.Success? ==> !IsValid(res.value)
    ensures res.Success? ==> res.value.currency == m.currency
    ensures res.Success? && IsValid(res.value) ==> UpToLaps(Value(res.value), Copies(n) * Value(m))
    ensures res.Success? && Represents(res.value, m.currency, Copies(n) * Value(m)) <==>
              IsValid(m) && (n >= 2 ==> !UnitsCancel(m, m)) && Fits(Copies(n) * Value(m))
  {
    var out, left := m, n;
    ghost var k := 1;
    while left > 1
      invariant n <= 1 ==> left == n && out == m
      invariant n >= 2 ==> left >= 1 && k == n - left + 1
      invariant k == 1 ==> out == m
      invariant k >= 2 ==> IsValid(m)
      invariant out.currency == m.currency
      invariant n >= 2 && IsValid(m) && !UnitsCancel(m, m) && Fits(n * Value(m)) ==>
                  Represents(out, m.currency, k * Value(m))
      invariant k == 2 && UnitsCancel(m, m) ==> !IsValid(out)
      invariant UnitsCancel(m, m) ==> k <= 2
      invariant IsValid(out) ==> UpToLaps(Value(out), k * Value(m))
    {
      if IsValid(m) && !UnitsCancel(m, m) && Fits(n * Value(m)) {
        CopiesAreLarger(Value(m), k);
        LargerAmountDoesNotCancel(m, out);
        SmallerMultipleFits(Value(m), k + 1, n);
        assert k * Value(m) + Value(m) == (k + 1) * Value(m);
      }
      var sum := Sum(out, m);
      if sum.Failure? {
        return sum;
      }
      NextCopy(Value(sum.value), Value(out), Value(m), k, IsValid(sum.value));
      out := sum.value;
      left := left - 1;
      k := k + 1;
    }
    RepresentationIsUnique(m.currency, Copies(n) * Value(m), out, out);
    return Success(out);
  }

  // ---- the order total ------------------------------------------------------------------

  datatype OrderItem = OrderItem(cost: Amount, quantity: Int32)

  /** Go's conversion of an int32 quantity to uint32. */
  function Unsigned(quantity: Int32): (n: UInt32)
    ensures (n - quantity) % 0x1_0000_0000 == 0
  {
    if quantity < 0 then quantity + 2 * TWO_31 else quantity
  }

  /** What one order item adds to the bill: its price as often as its quantity says, and at least once. */
  function Charge(item: OrderItem): (c: int)
    ensures Value(item.cost) >= 0 ==> c >= 0
  {
    Copies(Unsigned(item.quantity)) * Value(item.cost)
  }

  function Bill(shipping: Amount, items: seq<OrderItem>): int
  {
    if items == [] then Value(shipping) else Bill(shipping, items[..|items|-1]) + Charge(items[|items|-1])
  }

  /** The price of every piece in the basket; a quantity that is not positive reads as Go's uint32 does. */
  function Pieces(items: seq<OrderItem>): seq<Amount>
  {
    if items == [] then []
    else
      var item := items[|items|-1];
      Pieces(items[..|items|-1])
      + seq(if item.quantity >= 1 then item.quantity
            else if item.quantity == 0 then 1
            else item.quantity + 0x1_0000_0000, _ => item.cost)
  }

  function Worth(pieces: seq<Amount>): int
  {
    if pieces == [] then 0 else Worth(pieces[..|pieces|-1]) + Value(pieces[|pieces|-1])
  }

  lemma {:induction false} WorthConcat(a: seq<Amount>, b: seq<Amount>)
    ensures Worth(a + b) == Worth(a) + Worth(b)
  {
    if b == [] {
      assert a + b == a;
    } else {
      assert (a + b)[..|a + b|-1] == a + b[..|b|-1];
      WorthConcat(a, b[..|b|-1]);
    }
  }

  lemma {:induction false} WorthOfCopies(cost: Amount, n: nat)
    ensures Worth(seq(n, _ => cost)) == n * Value(cost)
  {
    if n > 0 {
      assert seq(n, _ => cost)[..n-1] == seq(n - 1, _ => cost);
      WorthOfCopies(cost, n - 1);
    }
  }

  /** The bill is the shipping and every piece in the basket. */
  lemma {:induction false} BillOfPieces(shipping: Amount, items: seq<OrderItem>)
    ensures Bill(shipping, items) == Value(shipping) + Worth(Pieces(items))
  {
    if items != [] {
      var init, item := items[..|items|-1], items[|items|-1];
      BillOfPieces(shipping, init);
      var n := Copies(Unsigned(item.quantity));
      WorthConcat(Pieces(init), seq(n, _ => item.cost));
      WorthOfCopies(item.cost, n);
      assert Pieces(items) == Pieces(init) + seq(n, _ => item.cost);
    }
  }

  /** An amount of the user's currency that can be multiplied by its quantity. */
  predicate Priced(currency: string, item: OrderItem)
  {
    && IsValid(item.cost)
    && item.cost.currency == currency
    && (Unsigned(item.quantity) >= 2 ==> !UnitsCancel(item.cost, item.cost))
  }

  /** Totals whose whole units cancel out while less than one unit is left over. */
  predicate Cancels(a: int, b: int)
  {
    Quot(a) + Quot(b) == 0 && Rem(a) + Rem(b) != 0 && Rem(a) + Rem(b) < NANOS_MOD
  }

  /** Every charge can be computed, and no running total cancels against the next charge. */
  predicate Settles(currency: string, shipping: Amount, items: seq<OrderItem>)
  {
    if items == [] then IsValid(shipping) && shipping.currency == currency && !Cancels(0, Value(shipping))
    else
      var init, last := items[..|items|-1], items[|items|-1];
      Settles(currency, shipping, init) && Priced(currency, last) && !Cancels(Bill(shipping, init), Charge(last))
  }

  /** Every charge and every running total fits. */
  predicate NeverOverflows(shipping: Amount, items: seq<OrderItem>)
  {
    if items == [] then true
    else
      && NeverOverflows(shipping, items[..|items|-1])
      && Fits(Charge(items[|items|-1])) && Fits(Bill(shipping, items))
  }

  lemma UnitsOfTotal(m: Amount)
    requires IsValid(m)
    ensures m.units == Quot(Value(m)) && m.nanos == Rem(Value(m)) && Fits(Value(m))
  {
  }

  lemma {:induction false} HoldsForPrefix(currency: string, shipping: Amount, items: seq<OrderItem>, k: nat)
    requires k <= |items|
    ensures Settles(currency, shipping, items) ==> Settles(currency, shipping, items[..k])
    ensures NeverOverflows(shipping, items) ==> NeverOverflows(shipping, items[..k])
  {
    if k == |items| {
      assert items[..k] == items;
    } else {
      HoldsForPrefix(currency, shipping, items[..|items|-1], k);
      assert items[..|items|-1][..k] == items[..k];
    }
  }

  lemma OneMoreItem(currency: string, shipping: Amount, items: seq<OrderItem>, i: nat)
    requires i < |items|
    ensures Bill(shipping, items[..i+1]) == Bill(shipping, items[..i]) + Charge(items[i])
    ensures Settles(currency, shipping, items[..i+1]) <==>
              && Settles(currency, shipping, items[..i]) && Priced(currency, items[i])
              && !Cancels(Bill(shipping, items[..i]), Charge(items[i]))
    ensures NeverOverflows(shipping, items[..i+1]) ==>
              NeverOverflows(shipping, items[..i]) && Fits(Charge(items[i])) && Fits(Bill(shipping, items[..i+1]))
    ensures Settles(currency, shipping, items) ==> Settles(currency, shipping, items[..i+1])
    ensures NeverOverflows(shipping, items) ==> NeverOverflows(shipping, items[..i+1])
  {
    assert items[..i+1][..i] == items[..i];
    HoldsForPrefix(currency, shipping, items, i + 1);
  }

  /** One round of the loop below: the next charge added to the running total. */
  lemma NextTotal(currency: string, before: int, charge: int, total: Amount, multiple: Amount, priced: bool,
      sum: Amount)
    requires Fits(before + charge) && Represents(total, currency, before)
    requires if priced then Represents(multiple, currency, charge)
        else !IsValid(multiple) || multiple.currency != currency
    requires IsValid(multiple) && multiple.currency == currency ==> SumOutcome(total, multiple, sum)
    ensures priced && !Cancels(before, charge) ==> Represents(sum, currency, before + charge)
    ensures priced && Cancels(before, charge) ==> !IsValid(sum)
  {
    if priced {
      UnitsOfTotal(total);
      UnitsOfTotal(multiple);
    }
  }

  // ---- orders without negative prices ---------------------------------------------------

  predicate NoNegativePrice(shipping: Amount, items: seq<OrderItem>)
  {
    Value(shipping) >= 0 && forall item | item in items :: Value(item.cost) >= 0
  }

  predicate NothingOrAWholeUnit(total: int) { total == 0 || total >= NANOS_MOD }

  /** The first charge that is not zero is at least one whole unit. */
  predicate OpensWithAWholeUnit(shipping: Amount, items: seq<OrderItem>)
  {
    if items == [] then NothingOrAWholeUnit(Value(shipping))
    else
      && OpensWithAWholeUnit(shipping, items[..|items|-1])
      && (Bill(shipping, items[..|items|-1]) == 0 ==> NothingOrAWholeUnit(Charge(items[|items|-1])))
  }

  predicate Billable(currency: string, shipping: Amount, items: seq<OrderItem>)
  {
    && IsValid(shipping) && shipping.currency == currency
    && (forall item | item in items :: Priced(currency, item))
    && OpensWithAWholeUnit(shipping, items)
  }

  lemma WholeUnits(total: int)
    requires total >= 0
    ensures Quot(total) >= 0 && (Quot(total) == 0 <==> total < NANOS_MOD)
    ensures total < NANOS_MOD ==> Rem(total) == total
  {
  }

  /** Totals that are not negative fit if their sum does, and cancel only when the first one is nothing. */
  lemma PlainStep(before: int, charge: int)
    requires before >= 0 && charge >= 0
    ensures Fits(before + charge) ==> Fits(before) && Fits(charge)
    ensures NothingOrAWholeUnit(before) ==>
              && (Cancels(before, charge) <==> before == 0 && !NothingOrAWholeUnit(charge))
              && (!Cancels(before, charge) ==> NothingOrAWholeUnit(before + charge))
  {
    WholeUnits(before);
    WholeUnits(charge);
  }

  lemma {:induction false} PlainBills(shipping: Amount, items: seq<OrderItem>)
    requires NoNegativePrice(shipping, items)
    ensures Bill(shipping, items) >= 0
    ensures Fits(Bill(shipping, items)) ==> NeverOverflows(shipping, items)
  {
    if items != [] {
      var init, last := items[..|items|-1], items[|items|-1];
      assert last in items && forall item | item in init :: item in items;
      PlainBills(shipping, init);
      PlainStep(Bill(shipping, init), Charge(last));
    }
  }

  /** Without negative prices only the opening charge can cancel. */
  lemma {:induction false} PlainOrders(currency: string, shipping: Amount, items: seq<OrderItem>)
    requires NoNegativePrice(shipping, items)
    ensures Settles(currency, shipping, items) <==> Billable(currency, shipping, items)
    ensures OpensWithAWholeUnit(shipping, items) ==> NothingOrAWholeUnit(Bill(shipping, items))
  {
    if items == [] {
      PlainStep(0, Value(shipping));
    } else {
      var init, last := items[..|items|-1], items[|items|-1];
      assert items == init + [last];
      PlainOrders(currency, shipping, init);
      PlainBills(shipping, init);
      PlainStep(Bill(shipping, init), Charge(last));
    }
  }

  /** What is known of the total charged so far. */
  predicate Running(currency: string, shipping: Amount, sofar: seq<OrderItem>, total: Amount)
  {
    && total.currency == currency
    && (IsValid(total) ==> UpToLaps(Value(total), Bill(shipping, sofar)))
    && (NeverOverflows(shipping, sofar) ==>
          if Settles(currency, shipping, sofar) then Represents(total, currency, Bill(shipping, sofar))
              else !IsValid(total))
  }

  /** What MultiplySlow says of the price of an item. */
  predicate Multiplied(item: OrderItem, multiple: Result)
  {
    && (multiple.Success? && IsValid(multiple.value) ==>
          && multiple.value.currency == item.cost.currency
          && IsValid(item.cost) && (Unsigned(item.quantity) >= 2 ==> !UnitsCancel(item.cost, item.cost))
          && UpToLaps(Value(multiple.value), Charge(item)))
    && (Priced(item.cost.currency, item) && Fits(Charge(item)) ==>
          multiple.Success? && Represents(multiple.value, item.cost.currency, Charge(item)))
  }

  /** A round that adds its charge. */
  lemma RoundAdds(currency: string, shipping: Amount, items: seq<OrderItem>, i: nat, total: Amount, multiple: Result,
      sum: Amount)
    requires i < |items| && Running(currency, shipping, items[..i], total) && Multiplied(items[i], multiple)
    requires multiple.Success? && IsValid(total) && IsValid(multiple.value) && multiple.value.currency == currency
    requires SumOutcome(total, multiple.value, sum)
    ensures Running(currency, shipping, items[..i+1], sum)
  {
    OneMoreItem(currency, shipping, items, i);
    LapsAddUp(if IsValid(sum) then Value(sum) else Value(total) + Value(multiple.value), Value(total),
              Bill(shipping, items[..i]), Value(multiple.value), Charge(items[i]));
    if NeverOverflows(shipping, items[..i+1]) {
      NextTotal(currency, Bill(shipping, items[..i]), Charge(items[i]), total, multiple.value, true, sum);
    }
  }

  /** A round that panics. */
  lemma RoundFails(currency: string, shipping: Amount, items: seq<OrderItem>, i: nat, total: Amount, multiple: Result)
    requires i < |items| && Running(currency, shipping, items[..i], total) && Multiplied(items[i], multiple)
    requires multiple.Failure? || !IsValid(total) || !IsValid(multiple.value) || multiple.value.currency != currency
    ensures NeverOverflows(shipping, items) ==> !Settles(currency, shipping, items)
  {
    OneMoreItem(currency, shipping, items, i);
  }

  lemma FirstTotal(currency: string, shipping: Amount, res: Result)
    requires var zero := Amount(currency, 0, 0);
             if !IsValid(shipping) || shipping.currency != currency then res.Failure?
             else res.Success? && SumOutcome(zero, shipping, res.value)
    ensures if res.Failure? then !Settles(currency, shipping, []) else Running(currency, shipping, [], res.value)
  {
    if res.Success? {
      UnitsOfTotal(shipping);
    }
  }

  /** The contract of OrderTotal, from what is known when it returns. */
  lemma Charged(currency: string, shipping: Amount, items: seq<OrderItem>, res: Result)
    requires if res.Failure? then NeverOverflows(shipping, items) ==> !Settles(currency, shipping, items)
             else Running(currency, shipping, items, res.value)
    ensures var exact := res.Success? && Represents(res.value, currency, Bill(shipping, items));
            && (NeverOverflows(shipping, items) ==> (exact <==> Settles(currency, shipping, items)))
            && (NoNegativePrice(shipping, items) ==>
                  (exact <==> Fits(Bill(shipping, items)) && Billable(currency, shipping, items)))
  {
    if res.Success? {
      RepresentationIsUnique(currency, Bill(shipping, items), res.value, res.value);
    }
    if NoNegativePrice(shipping, items) {
      PlainBills(shipping, items);
      PlainOrders(currency, shipping, items);
    }
  }

  /**
   The total that PlaceOrder charges. The bill is the shipping and the price of every piece. If no
   running total overflows, the total is the exact bill exactly when every charge can be computed
   and no running total cancels against the next charge; otherwise the order panics or is charged
   a malformed total. For prices that are not negative this means: the bill fits, every price is
   well formed, in the user's currency and multipliable, and the first charge that is not zero is
   at least one unit. Whatever overflows, a well-formed total is the bill up to wrap-around.
   */
  method OrderTotal(currency: string, shipping: Amount, items: seq<OrderItem>) returns (res: Result)
    ensures NeverOverflows(shipping, items) ==>
              (res.Success? && Represents(res.value, currency, Value(shipping) + Worth(Pieces(items))) <==>
                  Settles(currency, shipping, items))
    ensures NeverOverflows(shipping, items) && !Settles(currency, shipping, items) && res.Success? ==>
        !IsValid(res.value)
    ensures res.Success? && IsValid(res.value) ==>
              UpToLaps(Value(res.value), Value(shipping) + Worth(Pieces(items)))
    ensures NoNegativePrice(shipping, items) ==>
              (res.Success? && Represents(res.value, currency, Value(shipping) + Worth(Pieces(items))) <==>
               Fits(Value(shipping) + Worth(Pieces(items))) && Billable(currency, shipping, items))
  {
    BillOfPieces(shipping, items);
    var total := Amount(currency, 0, 0);
    res := Sum(total, shipping);
    FirstTotal(currency, shipping, res);
    assert items[..0] == [];
    if res.Failure? {
      HoldsForPrefix(currency, shipping, items, 0);
      Charged(currency, shipping, items, res);
      return;
    }
    total := res.value;
    for i := 0 to |items|
      invariant Running(currency, shipping, items[..i], total)
    {
      var multiple := MultiplySlow(items[i].cost, Unsigned(items[i].quantity));
      if multiple.Failure? {
        RoundFails(currency, shipping, items, i, total, multiple);
        Charged(currency, shipping, items, multiple);
        return multiple;
      }
      res := Sum(total, multiple.value);
      if res.Failure? {
        RoundFails(currency, shipping, items, i, total, multiple);
        Charged(currency, shipping, items, res);
        return;
      }
      RoundAdds(currency, shipping, items, i, total, multiple, res.value);
      total := res.value;
    }
    assert items[..|items|] == items;
    res := Success(total);
    Charged(currency, shipping, items, res);
  }

  /** An order that cancels: free shipping and one item of half a unit. Nothing overflows and no price is negative. */
  lemma OrderCanCancel(currency: string, shipping: Amount, items: seq<OrderItem>)
    requires shipping == Amount(currency, 0, 0) && items == [OrderItem(Amount(currency, 0, 500_000_000), 1)]
    ensures NeverOverflows(shipping, items) && NoNegativePrice(shipping, items)
    ensures IsValid(shipping) && forall item | item in items :: Priced(currency, item)
    ensures !Settles(currency, shipping, items)
  {
    assert items[..0] == [] && Bill(shipping, items) == 500_000_000;
  }
}
