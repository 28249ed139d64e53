// evals/corpus/checkout: coupons, tax and totals, in integer cents.
module Checkout {
  import opened Results

  datatype Coupon = Percent(off: int) | Fixed(cents: int) | Bogo(sku: string)

  datatype LineInfo = LineInfo(sku: string, unitCents: int, qty: int)

  datatype LineItem = LineItem(sku: string, unitCents: int, qty: int, availableQty: int)

  datatype Totals = Totals(subtotalCents: int, discountCents: int, taxCents: int, totalCents: int)

  function Min(a: int, b: int): int { if a < b then a else b }

  function Max(a: int, b: int): int { if a < b then b else a }

  /** `Math.floor(numerator / denominator + 0.5)`; Dafny's division rounds down for a positive divisor. */
  function RoundHalfUp(numerator: int, denominator: nat): int
    requires denominator > 0
  {
    (2 * numerator + denominator) / (2 * denominator)
  }

  /** Within half a unit, the half itself only upwards. */
  lemma RoundingError(numerator: int, denominator: nat)
    requires denominator > 0
    ensures var r := RoundHalfUp(numerator, denominator);
      0 - denominator < 2 * (r * denominator - numerator) <= denominator
  {
    var r := RoundHalfUp(numerator, denominator);
    var rest := (2 * numerator + denominator) % (2 * denominator);
    assert 2 * numerator + denominator == r * (2 * denominator) + rest;
    assert r * (2 * denominator) == 2 * (r * denominator);
  }

  function Find(lines: seq<LineInfo>, sku: string): Option<LineInfo> {
    if lines == [] then None else if lines[0].sku == sku then Some(lines[0]) else Find(lines[1..], sku)
  }

  predicate ValidCoupon(c: Coupon) {
    (c.Percent? ==> 0 <= c.off <= 100) && (c.Fixed? ==> 0 <= c.cents)
  }

  predicate ValidLine(l: LineInfo) { 0 <= l.unitCents && 0 <= l.qty }

  /** What a pair-priced item gives away. */
  function Free(lines: seq<LineInfo>, sku: string): int {
    var line := Find(lines, sku);
    if line.None? || line.value.qty < 2 then 0 else line.value.qty / 2 * line.value.unitCents
  }

  function ApplySingleCoupon(currentAmount: int, coupon: Coupon, lines: seq<LineInfo>): int {
    match coupon
    case Percent(off) => Min(RoundHalfUp(currentAmount * off, 100), currentAmount)
    case Fixed(cents) => Min(cents, currentAmount)
    case Bogo(sku) => Free(lines, sku)
  }

  /** The running amount of the loop, which nothing keeps from going negative. */
  function Running(amount: int, coupons: seq<Coupon>, lines: seq<LineInfo>): int
    decreases |coupons|
  {
    if coupons == [] then amount
    else Running(amount - ApplySingleCoupon(amount, coupons[0], lines), coupons[1..], lines)
  }

  /** The loop's answer: what has gone off the running amount, but no more than the subtotal. */
  function Discount(subtotalCents: int, coupons: seq<Coupon>, lines: seq<LineInfo>): int {
    Min(subtotalCents - Running(subtotalCents, coupons, lines), subtotalCents)
  }

  method ApplyCoupons(subtotalCents: int, coupons: seq<Coupon>, lines: seq<LineInfo>) returns (discount: int)
    ensures discount == Discount(subtotalCents, coupons, lines)
  {
    hide ApplySingleCoupon;
    var totalDiscount, currentAmount := 0, subtotalCents;
    var i := 0;
    while i < |coupons|
      invariant i <= |coupons| && totalDiscount == subtotalCents - currentAmount
      invariant Running(currentAmount, coupons[i..], lines) == Running(subtotalCents, coupons, lines)
    {
      var discountForThisCoupon := ApplySingleCoupon(currentAmount, coupons[i], lines);
      assert coupons[i..][0] == coupons[i] && coupons[i..][1..] == coupons[i + 1..];
      totalDiscount := totalDiscount + discountForThisCoupon;
      currentAmount := currentAmount - discountForThisCoupon;
      i := i + 1;
    }
    return Min(totalDiscount, subtotalCents);
  }

  // ---- the clamped fold ---------------------------------------------------------------------

  /** A coupon's worth against what is left: never negative, and never more than that. */
  function Worth(left: nat, coupon: Coupon, lines: seq<LineInfo>): (d: int)
    ensures 0 <= d <= left
  {
    var face := match coupon
      case Percent(off) => RoundHalfUp(left * off, 100)
      case Fixed(cents) => cents
      case Bogo(sku) => Free(lines, sku);
    Max(0, Min(face, left))
  }

  /** What is left after every coupon in turn. */
  function Remaining(left: nat, coupons: seq<Coupon>, lines: seq<LineInfo>): (r: nat)
    ensures r <= left
  {
    if coupons == [] then left
    else Remaining(left - Worth(left, coupons[0], lines), coupons[1..], lines)
  }

  lemma PercentRange(amount: int, off: int)
    requires 0 <= off <= 100
    ensures amount >= 0 ==> 0 <= RoundHalfUp(amount * off, 100) <= amount
    ensures amount <= 0 ==> amount <= RoundHalfUp(amount * off, 100) <= 0
  {
    Share(amount, off);
    RoundedShare(amount, amount * off);
  }

  lemma Share(amount: int, off: int)
    requires 0 <= off <= 100
    ensures amount >= 0 ==> 0 <= amount * off <= 100 * amount
    ensures amount <= 0 ==> 100 * amount <= amount * off <= 0
  {
    var rest := 100 - off;
    assert amount * off + amount * rest == amount * 100;
    if amount >= 0 {
      NonNegative(amount, off);
      NonNegative(amount, rest);
    } else {
      NonNegative(-amount, off);
      NonNegative(-amount, rest);
      assert -amount * off == -(amount * off) && -amount * rest == -(amount * rest);
    }
  }

  lemma RoundedShare(amount: int, share: int)
    ensures 0 <= share <= 100 * amount ==> 0 <= RoundHalfUp(share, 100) <= amount
    ensures 100 * amount <= share <= 0 ==> amount <= RoundHalfUp(share, 100) <= 0
  {}

  lemma {:induction false} FreeIsPositive(lines: seq<LineInfo>, sku: string)
    requires forall l <- lines :: ValidLine(l)
    ensures Free(lines, sku) >= 0
  {
    if lines != [] {
      if lines[0].sku == sku {
        assert lines[0] in lines;
        NonNegative(lines[0].qty / 2, lines[0].unitCents);
      } else {
        FreeIsPositive(lines[1..], sku);
      }
    }
  }

  lemma NonNegative(a: nat, b: nat)
    ensures a * b >= 0
  {}

  /** One coupon against a running amount that may have gone negative: what is left, clamped at
      zero, is what the clamped fold has left. */
  lemma NegativeHeals(current: int, coupon: Coupon, lines: seq<LineInfo>)
    requires ValidCoupon(coupon) && forall l <- lines :: ValidLine(l)
    ensures var after := current - ApplySingleCoupon(current, coupon, lines);
      Max(after, 0) == Max(current, 0) - Worth(Max(current, 0), coupon, lines)
  {
    match coupon
    case Percent(off) => PercentRange(current, off); PercentRange(0, off);
    case Fixed(_) =>
    case Bogo(sku) => FreeIsPositive(lines, sku);
  }

  ghost predicate Valid(coupons: seq<Coupon>, lines: seq<LineInfo>) {
    (forall c <- coupons :: ValidCoupon(c)) && (forall l <- lines :: ValidLine(l))
  }

  lemma {:induction false} RunningHeals(amount: int, coupons: seq<Coupon>, lines: seq<LineInfo>)
    requires Valid(coupons, lines)
    ensures Max(Running(amount, coupons, lines), 0) == Remaining(Max(amount, 0), coupons, lines)
    decreases |coupons|
  {
    hide ApplySingleCoupon, Worth;
    if coupons != [] {
      NegativeHeals(amount, coupons[0], lines);
      RunningHeals(amount - ApplySingleCoupon(amount, coupons[0], lines), coupons[1..], lines);
    }
  }

  /** The loop's discount is the clamped fold's. */
  ghost predicate AsClamped(subtotalCents: nat, coupons: seq<Coupon>, lines: seq<LineInfo>) {
    Discount(subtotalCents, coupons, lines) == subtotalCents - Remaining(subtotalCents, coupons, lines)
  }

  /** Only the total is clamped, not the running amount; the discount is the clamped fold's all
      the same, between nothing and the whole subtotal. */
  lemma UnclampedIsClamped(subtotalCents: nat, coupons: seq<Coupon>, lines: seq<LineInfo>)
    requires Valid(coupons, lines)
    ensures AsClamped(subtotalCents, coupons, lines)
    ensures 0 <= Discount(subtotalCents, coupons, lines) <= subtotalCents
  {
    RunningHeals(subtotalCents, coupons, lines);
  }

  /** Two of an article at 1.00, which three of its free-item coupons overdraw by 1.00. */
  const PAIR := [LineInfo("a", 100, 2)]

  function Overdrawing(off: int): seq<Coupon> { [Bogo("a"), Bogo("a"), Bogo("a"), Percent(off)] }

  lemma OverdrawnBy(off: int)
    ensures Running(200, Overdrawing(off), PAIR) == -100 - Min(-off, -100)
    ensures Remaining(200, Overdrawing(off), PAIR) == 0
  {
    assert Free(PAIR, "a") == 100;
    assert RoundHalfUp(-100 * off, 100) == -off;
    OneMore(200, Bogo("a"), [Bogo("a"), Bogo("a"), Percent(off)], PAIR);
    OneMore(100, Bogo("a"), [Bogo("a"), Percent(off)], PAIR);
    OneMore(0, Bogo("a"), [Percent(off)], PAIR);
    OneMore(-100, Percent(off), [], PAIR);
  }

  lemma OneMore(amount: int, coupon: Coupon, coupons: seq<Coupon>, lines: seq<LineInfo>)
    ensures Running(amount, [coupon] + coupons, lines) == Running(amount - ApplySingleCoupon(amount, coupon, lines), coupons, lines)
    ensures amount >= 0 ==>
      Remaining(amount, [coupon] + coupons, lines) == Remaining(amount - Worth(amount, coupon, lines), coupons, lines)
  {
    assert ([coupon] + coupons)[1..] == coupons;
  }

  /** The documented range of percentages is exactly what it takes: below it a coupon adds to the
      bill, and above it one that follows an overdraft pays back. */
  lemma PercentRangeIsExact(off: int)
    ensures (forall subtotalCents: nat, coupons, lines ::
               Valid(coupons, lines) ==> AsClamped(subtotalCents, coupons + [Percent(off)], lines))
      <==> 0 <= off <= 100
  {
    if 0 <= off <= 100 {
      forall subtotalCents: nat, coupons, lines | Valid(coupons, lines)
        ensures AsClamped(subtotalCents, coupons + [Percent(off)], lines)
      {
        assert forall c <- coupons + [Percent(off)] :: c in coupons || c == Percent(off);
        UnclampedIsClamped(subtotalCents, coupons + [Percent(off)], lines);
      }
    } else if off < 0 {
      var only := [] + [Percent(off)];
      assert only == [Percent(off)] + [] && Valid([], []);
      OneMore(100, Percent(off), [], []);
      assert RoundHalfUp(100 * off, 100) == off;
      assert !AsClamped(100, [] + [Percent(off)], []);
    } else {
      var before := [Bogo("a"), Bogo("a"), Bogo("a")];
      OverdrawnBy(off);
      assert before + [Percent(off)] == Overdrawing(off) && Valid(before, PAIR);
      assert !AsClamped(200, before + [Percent(off)], PAIR);
    }
  }

  /** For one, 150 percent: 1.50 off 2.00 where the clamped fold takes off all 2.00. */
  lemma AboveHundredPaysBack()
    ensures Discount(200, Overdrawing(150), PAIR) == 150
    ensures 200 - Remaining(200, Overdrawing(150), PAIR) == 200
  {
    OverdrawnBy(150);
  }

  // ---- checkout -------------------------------------------------------------------------------

  predicate ValidItem(item: LineItem) { 0 <= item.unitCents && 0 <= item.qty && 0 <= item.availableQty }

  function Clamped(items: seq<LineItem>): (lines: seq<LineInfo>)
    ensures |lines| == |items|
    ensures (forall i <- items :: ValidItem(i)) ==> forall l <- lines :: ValidLine(l)
  {
    if items == [] then []
    else
      assert items[0] in items;
      [LineInfo(items[0].sku, items[0].unitCents, Min(items[0].qty, items[0].availableQty))] + Clamped(items[1..])
  }

  function Subtotal(lines: seq<LineInfo>): int {
    if lines == [] then 0 else lines[0].unitCents * lines[0].qty + Subtotal(lines[1..])
  }

  lemma {:induction false} SubtotalIsPositive(lines: seq<LineInfo>)
    requires forall l <- lines :: ValidLine(l)
    ensures Subtotal(lines) >= 0
  {
    if lines != [] {
      assert lines[0] in lines;
      NonNegative(lines[0].unitCents, lines[0].qty);
      SubtotalIsPositive(lines[1..]);
    }
  }

  // ---- what the numbers mean ------------------------------------------------------------------

  /** The first line with this article. */
  ghost predicate FirstWith(lines: seq<LineInfo>, sku: string, k: nat) {
    k < |lines| && lines[k].sku == sku && forall i :: 0 <= i < k ==> lines[i].sku != sku
  }

  lemma {:induction false} FindIsFirst(lines: seq<LineInfo>, sku: string)
    ensures match Find(lines, sku)
      case Some(line) => exists k: nat :: FirstWith(lines, sku, k) && lines[k] == line
      case None => forall l <- lines :: l.sku != sku
  {
    if lines != [] && lines[0].sku == sku {
      assert FirstWith(lines, sku, 0);
    } else if lines != [] {
      FindIsFirst(lines[1..], sku);
      if Find(lines[1..], sku).Some? {
        var k: nat :| FirstWith(lines[1..], sku, k) && lines[1..][k] == Find(lines[1..], sku).value;
        assert FirstWith(lines, sku, k + 1);
      }
    }
  }

  predicate HalfOf(free: int, qty: int) {
    2 * free <= qty < 2 * free + 2
  }

  /** One of every two items of the article's first line is free; none if it is not in the basket. */
  lemma FreeMeans(lines: seq<LineInfo>, sku: string)
    requires forall l <- lines :: ValidLine(l)
    ensures (forall l <- lines :: l.sku != sku) ==> Free(lines, sku) == 0
    ensures (exists l <- lines :: l.sku == sku) ==>
      exists k: nat :: FirstWith(lines, sku, k) && exists free: nat ::
        HalfOf(free, lines[k].qty) && Free(lines, sku) == free * lines[k].unitCents
  {
    FindIsFirst(lines, sku);
    var found := Find(lines, sku);
    if found.Some? {
      var k: nat :| FirstWith(lines, sku, k) && lines[k] == found.value;
      assert lines[k] in lines && ValidLine(lines[k]);
      var free: nat := lines[k].qty / 2;
      assert HalfOf(free, lines[k].qty);
    }
  }

  /** The lesser of two amounts. */
  predicate Lesser(d: int, a: int, b: int) {
    d <= a && d <= b && (d == a || d == b)
  }

  /** A percentage of what is left, to half a cent; a fixed amount, or what the free items cost, as far
      as what is left goes. */
  lemma CouponMeans(left: nat, coupon: Coupon, lines: seq<LineInfo>)
    requires ValidCoupon(coupon) && forall l <- lines :: ValidLine(l)
    ensures coupon.Percent? ==> -100 < 2 * (100 * Worth(left, coupon, lines) - left * coupon.off) <= 100
    ensures coupon.Fixed? ==> Lesser(Worth(left, coupon, lines), coupon.cents, left)
    ensures coupon.Bogo? ==> Lesser(Worth(left, coupon, lines), Free(lines, coupon.sku), left)
  {
    match coupon
    case Percent(off) => PercentRange(left, off); RoundingError(left * off, 100);
    case Fixed(_) =>
    case Bogo(sku) => FreeIsPositive(lines, sku);
  }

  /** Every line sells what was ordered as far as the stock goes, at the article's own price. */
  lemma {:induction false} ClampedMeans(items: seq<LineItem>)
    ensures |Clamped(items)| == |items|
    ensures forall i :: 0 <= i < |items| ==> var l := Clamped(items)[i];
      l.sku == items[i].sku && l.unitCents == items[i].unitCents && Lesser(l.qty, items[i].qty, items[i].availableQty)
  {
    if items != [] { ClampedMeans(items[1..]); }
  }

  /** The price of every single item sold. */
  function Prices(lines: seq<LineInfo>): seq<int>
    requires forall l <- lines :: ValidLine(l)
  {
    if lines == [] then []
    else
      assert lines[0] in lines && ValidLine(lines[0]);
      seq(lines[0].qty, _ => lines[0].unitCents) + Prices(lines[1..])
  }

  function Sum(prices: seq<int>): int {
    if prices == [] then 0 else prices[0] + Sum(prices[1..])
  }

  lemma {:induction false} SumOfSame(n: nat, price: int, rest: seq<int>)
    ensures Sum(seq(n, _ => price) + rest) == price * n + Sum(rest)
  {
    var same := seq(n, _ => price);
    if n == 0 {
      assert same + rest == rest;
    } else {
      assert (same + rest)[1..] == seq(n - 1, _ => price) + rest;
      SumOfSame(n - 1, price, rest);
    }
  }

  /** The subtotal is what all the items sold cost one by one. */
  lemma {:induction false} SubtotalIsSum(lines: seq<LineInfo>)
    requires forall l <- lines :: ValidLine(l)
    ensures Subtotal(lines) == Sum(Prices(lines))
  {
    if lines != [] {
      assert lines[0] in lines;
      SumOfSame(lines[0].qty, lines[0].unitCents, Prices(lines[1..]));
      SubtotalIsSum(lines[1..]);
    }
  }

  /** `checkout`: the books balance, the outer clamp at zero never fires, and the tax is half a
      cent from exact at most. */
  method Checkout(items: seq<LineItem>, coupons: seq<Coupon>, taxRatePpm: nat) returns (t: Totals)
    requires (forall i <- items :: ValidItem(i)) && (forall c <- coupons :: ValidCoupon(c))
    ensures t.subtotalCents == Subtotal(Clamped(items))
    ensures 0 <= t.discountCents <= t.subtotalCents
    ensures t.subtotalCents - t.discountCents == Remaining(t.subtotalCents, coupons, Clamped(items))
    ensures t.totalCents == t.subtotalCents - t.discountCents + t.taxCents >= 0
    ensures var exact := (t.subtotalCents - t.discountCents) * taxRatePpm;
      -1_000_000 < 2 * (t.taxCents * 1_000_000 - exact) <= 1_000_000
  {
    hide Remaining, Clamped, Subtotal, Discount;
    var lines := Clamped(items);
    SubtotalIsPositive(lines);
    var subtotal := Subtotal(lines);
    var discount := ApplyCoupons(subtotal, coupons, lines);
    UnclampedIsClamped(subtotal, coupons, lines);
    var after := Max(0, subtotal - discount);
    var tax := RoundHalfUp(after * taxRatePpm, 1_000_000);
    RoundingError(after * taxRatePpm, 1_000_000);
    NonNegative(after, taxRatePpm);
    t := Totals(subtotal, discount, tax, after + tax);
  }
}
