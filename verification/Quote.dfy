/** Turning a supplier's quotation into token prices: each tier is read fail-closed, and the sale price is the
    cost divided by the share that is cost, both rounded to ten places. */
module Quote {
  import opened Basics

  // ----- Rounding -----

  /** The nearest whole number of steps of ten places, ties away from zero. */
  function Steps(x: real): int {
    if x >= 0.0 then (x * 10000000000.0 + 0.5).Floor else -(-x * 10000000000.0 + 0.5).Floor
  }

  function Round(x: real): real {
    Steps(x) as real * 0.0000000001
  }

  const HALF_STEP := 0.00000000005

  lemma RoundIsNear(x: real)
    ensures x - HALF_STEP <= Round(x) <= x + HALF_STEP
  {
    var y := (if x >= 0.0 then x else -x) * 10000000000.0 + 0.5;
    assert y - 1.0 < y.Floor as real <= y;
  }

  lemma FloorIsMonotone(a: real, b: real)
    requires a <= b
    ensures a.Floor <= b.Floor
  {
  }

  lemma RoundIsMonotone(x: real, y: real)
    requires 0.0 <= x <= y
    ensures Round(x) <= Round(y)
  {
    FloorIsMonotone(x * 10000000000.0 + 0.5, y * 10000000000.0 + 0.5);
    assert Steps(x) <= Steps(y);
  }

  function Cost(amount: real, fraction: real): real {
    Round(amount * fraction)
  }

  function Sale(amount: real, fraction: real, share: real): real
    requires share > 0.0
  {
    Round(amount * fraction / share)
  }

  // ----- Products and quotients -----

  lemma Product(a: real, b: real)
    requires 0.0 <= a && 0.0 <= b
    ensures 0.0 <= a * b
  {
  }

  lemma PositiveProduct(a: real, b: real)
    requires 0.0 < a && 0.0 < b
    ensures 0.0 < a * b
  {
  }

  lemma Difference(a: real, b: real, c: real)
    ensures (a - b) * c == a * c - b * c
  {
  }

  lemma QuotientTimes(v: real, share: real)
    requires 0.0 < share
    ensures v / share * share == v
  {
  }

  lemma SameQuotient(a: real, b: real, share: real)
    requires a * share == b * share && 0.0 < share
    ensures a == b
  {
    Difference(a, b, share);
    Difference(b, a, share);
    if a > b {
      PositiveProduct(a - b, share);
    } else if b > a {
      PositiveProduct(b - a, share);
    }
  }

  lemma QuotientGrows(v: real, share: real, q: real)
    requires 0.0 <= v && 0.0 < share <= 1.0 && q * share == v
    ensures 0.0 <= v <= q
  {
    if q < 0.0 {
      PositiveProduct(-q, share);
      Difference(0.0, q, share);
    } else {
      Product(q, 1.0 - share);
      Difference(1.0, share, q);
      assert share * q == q * share && (1.0 - share) * q == q * (1.0 - share);
    }
  }

  /** A product grows by at most the growth of its first factor times the second. */
  lemma ProductGrowth(a: real, b: real, step: real, c: real) returns (growth: real)
    requires a <= b + step && 0.0 <= c
    ensures growth == step * c && a * c <= b * c + growth
  {
    growth := step * c;
    Product(b + step - a, c);
    Difference(b + step, a, c);
    Difference(b, -step, c);
    assert (b - -step) * c == (b + step) * c && -step * c == -(step * c);
  }

  // ----- Sale and cost -----

  lemma ErrorBound(sale: real, cost: real, v: real, q: real, share: real)
    requires 0.0 < share && q * share == v
    requires v - HALF_STEP <= cost <= v + HALF_STEP && q - HALF_STEP <= sale <= q + HALF_STEP
    ensures -HALF_STEP - HALF_STEP * share <= sale * share - cost <= HALF_STEP + HALF_STEP * share
  {
    var up := ProductGrowth(sale, q, HALF_STEP, share);
    var down := ProductGrowth(q, sale, HALF_STEP, share);
    assert sale * share <= v + up && v <= sale * share + down;
  }

  /** The share of the sale price that goes to the supplier is the cost, up to the rounding of both. */
  lemma ShareOfSaleIsCost(amount: real, fraction: real, share: real)
    requires 0.0 < share
    ensures var sale, cost := Sale(amount, fraction, share), Cost(amount, fraction);
            -HALF_STEP - HALF_STEP * share <= sale * share - cost <= HALF_STEP + HALF_STEP * share
  {
    var v, q := amount * fraction, amount * fraction / share;
    RoundIsNear(v);
    RoundIsNear(q);
    QuotientTimes(v, share);
    ErrorBound(Sale(amount, fraction, share), Cost(amount, fraction), v, q, share);
  }

  ghost predicate NeverBelowCost(fraction: real, share: real)
    requires 0.0 < share
  {
    forall amount: real :: 0.0 <= amount ==> Cost(amount, fraction) <= Sale(amount, fraction, share)
  }

  lemma CoversCost(amount: real, fraction: real, share: real)
    requires 0.0 <= amount && 0.0 < fraction && 0.0 < share <= 1.0
    ensures Cost(amount, fraction) <= Sale(amount, fraction, share)
  {
    Product(amount, fraction);
    QuotientTimes(amount * fraction, share);
    QuotientGrows(amount * fraction, share, amount * fraction / share);
    RoundIsMonotone(amount * fraction, amount * fraction / share);
  }

  /** No quotation is sold below cost exactly when the share is at most one. */
  lemma SaleCoversCost(fraction: real, share: real)
    requires 0.0 < fraction && 0.0 < share
    ensures NeverBelowCost(fraction, share) <==> share <= 1.0
  {
    if share <= 1.0 {
      forall amount: real | 0.0 <= amount
        ensures Cost(amount, fraction) <= Sale(amount, fraction, share)
      {
        CoversCost(amount, fraction, share);
      }
    } else {
      var amount := SoldBelowCost(fraction, share);
    }
  }

  /** `v` is four half steps above its quotient. */
  lemma WideGap(share: real) returns (v: real, q: real)
    requires 1.0 < share
    ensures 0.0 <= v && q * share == v && v - q == 4.0 * HALF_STEP
  {
    q := 4.0 * HALF_STEP / (share - 1.0);
    v := q * share;
    QuotientTimes(4.0 * HALF_STEP, share - 1.0);
    Difference(share, 1.0, q);
    assert q * (share - 1.0) == (share - 1.0) * q && share * q == v;
    if q < 0.0 {
      PositiveProduct(-q, share - 1.0);
      Difference(0.0, q, share - 1.0);
    }
    Product(q, share);
  }

  lemma RoundsApart(v: real, q: real)
    requires v - q == 4.0 * HALF_STEP
    ensures Round(v) > Round(q)
  {
    RoundIsNear(v);
    RoundIsNear(q);
  }

  lemma AtQuotient(amount: real, fraction: real, share: real, v: real, q: real)
    requires 0.0 < share && amount * fraction == v && q * share == v
    ensures Cost(amount, fraction) == Round(v) && Sale(amount, fraction, share) == Round(q)
  {
    QuotientTimes(v, share);
    SameQuotient(q, v / share, share);
  }

  lemma NotNegativeQuotient(v: real, fraction: real, q: real)
    requires 0.0 <= v && 0.0 < fraction && q * fraction == v
    ensures 0.0 <= q
  {
    if q < 0.0 {
      PositiveProduct(-q, fraction);
      Difference(0.0, q, fraction);
    }
  }

  /** With a larger share, a price that is large enough comes out below cost. */
  lemma SoldBelowCost(fraction: real, share: real) returns (amount: real)
    requires 0.0 < fraction && 1.0 < share
    ensures 0.0 <= amount && Cost(amount, fraction) > Sale(amount, fraction, share)
  {
    var v, q := WideGap(share);
    amount := v / fraction;
    QuotientTimes(v, fraction);
    NotNegativeQuotient(v, fraction, amount);
    AtQuotient(amount, fraction, share, v, q);
    RoundsApart(v, q);
  }

  // ----- One tier -----

  /** A piece of a tier between separators, trimmed: with or without an equals sign. */
  datatype Fragment = Bare(text: string) | Pair(key: string, value: string)

  datatype Currency = USD | CNY

  datatype Money = Money(currency: Currency, amount: real)

  /** `_read_money`; `None` where it raises. */
  type Reader = string -> Option<Money>

  const PRICE_KEYS: map<string, string> := map[
    "输入单价" := "input_tokens",
    "输出单价" := "output_tokens",
    "输出" := "output_tokens",
    "缓存命中" := "cache_read",
    "缓存写入" := "cache_write",
    "缓存写入5m" := "cache_write_5m",
    "缓存写入1h" := "cache_write_1h"]

  const INPUT_LENGTH := "输入长度"
  const OUTPUT_LENGTH := "输出长度"
  const CONDITION_KEYS: set<string> := {INPUT_LENGTH, OUTPUT_LENGTH, "计费时段", "输入类型"}
  const STORAGE := "缓存存储"
  const FREE_FOR_NOW := "限时免费"
  const NOT_APPLICABLE := "不适用"

  datatype Rule = Rule(
    conditions: seq<Fragment>,
    currency: Currency,
    notApplicable: seq<string>,
    storageFree: nat,
    prices: map<string, real>)

  datatype Tier = NotOffered | Offered(rule: Rule) | Rejected

  predicate IsCondition(f: Fragment) {
    if f.Bare? then INPUT_LENGTH <= f.text || OUTPUT_LENGTH <= f.text
    else f.key != STORAGE && f.key !in PRICE_KEYS && f.key in CONDITION_KEYS
  }

  predicate IsFreeStorage(f: Fragment) {
    f.Pair? && f.key == STORAGE && f.value == FREE_FOR_NOW
  }

  predicate IsPriceKey(f: Fragment) {
    f.Pair? && f.key != STORAGE && f.key in PRICE_KEYS
  }

  predicate IsWaived(f: Fragment) {
    IsPriceKey(f) && f.value == NOT_APPLICABLE
  }

  /** The fragment quotes a price. */
  predicate Priced(f: Fragment) {
    IsPriceKey(f) && f.value != NOT_APPLICABLE
  }

  /** Every piece is understood, and every price readable and not negative. */
  predicate Understood(f: Fragment, money: Reader) {
    || IsCondition(f) || IsFreeStorage(f) || IsWaived(f)
    || (Priced(f) && money(f.value).Some? && money(f.value).value.amount >= 0.0)
  }

  predicate Compatible(f: Fragment, g: Fragment, money: Reader)
    requires Understood(f, money) && Understood(g, money)
  {
    Priced(f) && Priced(g) ==>
      PRICE_KEYS[f.key] != PRICE_KEYS[g.key] && money(f.value).value.currency == money(g.value).value.currency
  }

  predicate Consistent(parts: seq<Fragment>, money: Reader) {
    && (forall i :: 0 <= i < |parts| ==> Understood(parts[i], money))
    && (forall i, j :: 0 <= i < j < |parts| ==> Compatible(parts[i], parts[j], money))
  }

  /** Position `i` prices `dimension` at `amount`. */
  predicate Quotes(parts: seq<Fragment>, i: nat, money: Reader, dimension: string, m: Money)
    requires i < |parts|
  {
    Priced(parts[i]) && PRICE_KEYS[parts[i].key] == dimension && money(parts[i].value) == Some(m)
  }

  predicate Quoted(parts: seq<Fragment>, money: Reader, dimension: string, m: Money) {
    exists i :: 0 <= i < |parts| && Quotes(parts, i, money, dimension, m)
  }

  const INPUT := "input_tokens"

  predicate HasInput(parts: seq<Fragment>) {
    exists i :: 0 <= i < |parts| && Priced(parts[i]) && PRICE_KEYS[parts[i].key] == INPUT
  }

  /** A tier marked "-" throughout is not on offer. */
  predicate Dashed(parts: seq<Fragment>) {
    && (exists i :: 0 <= i < |parts| && parts[i].Pair?)
    && (forall i :: 0 <= i < |parts| && parts[i].Pair? ==> parts[i].value == "-")
  }

  function Conditions(parts: seq<Fragment>): seq<Fragment> {
    if parts == [] then []
    else Conditions(parts[..|parts| - 1]) + if IsCondition(parts[|parts| - 1]) then [parts[|parts| - 1]] else []
  }

  function Waived(parts: seq<Fragment>): seq<string> {
    if parts == [] then []
    else
      Waived(parts[..|parts| - 1]) +
      if IsWaived(parts[|parts| - 1]) then [PRICE_KEYS[parts[|parts| - 1].key]] else []
  }

  function FreeStorages(parts: seq<Fragment>): nat {
    if parts == [] then 0
    else FreeStorages(parts[..|parts| - 1]) + if IsFreeStorage(parts[|parts| - 1]) then 1 else 0
  }

  /** The rule holds exactly what the pieces say, whichever order they come in. */
  ghost predicate Reads(parts: seq<Fragment>, money: Reader, rule: Rule) {
    && rule.conditions == Conditions(parts) && rule.notApplicable == Waived(parts)
    && rule.storageFree == FreeStorages(parts)
    && (forall d, a :: Quoted(parts, money, d, Money(rule.currency, a)) <==> d in rule.prices && rule.prices[d] == a)
    && (forall i :: 0 <= i < |parts| && Priced(parts[i]) ==>
         money(parts[i].value).Some? && money(parts[i].value).value.currency == rule.currency)
  }

  /** What has been read of a tier's prices. */
  ghost predicate PricesRead(parts: seq<Fragment>, money: Reader, currency: Option<Currency>,
                             prices: map<string, real>)
  {
    && (forall i :: 0 <= i < |parts| && Priced(parts[i]) ==>
         && currency.Some? && PRICE_KEYS[parts[i].key] in prices
         && money(parts[i].value) == Some(Money(currency.value, prices[PRICE_KEYS[parts[i].key]])))
    && (forall d <- prices :: exists i :: 0 <= i < |parts| && Priced(parts[i]) && PRICE_KEYS[parts[i].key] == d)
    && (currency.Some? ==> prices != map[])
  }

  predicate IsPrice(f: Fragment, money: Reader, m: Money) {
    Priced(f) && money(f.value) == Some(m) && m.amount >= 0.0
  }

  /** A second price for a dimension, or a price in another currency, is refused. */
  lemma ClashPush(parts: seq<Fragment>, f: Fragment, money: Reader, currency: Option<Currency>,
                  prices: map<string, real>, m: Money, e: string)
    requires PricesRead(parts, money, currency, prices) && IsPrice(f, money, m) && e in prices
    requires e == PRICE_KEYS[f.key] || currency != Some(m.currency)
    ensures !Consistent(parts + [f], money)
  {
    var more := parts + [f];
    var i :| 0 <= i < |parts| && Priced(parts[i]) && PRICE_KEYS[parts[i].key] == e;
    assert more[i] == parts[i] && more[|parts|] == f;
    assert Consistent(more, money) ==> Compatible(more[i], more[|parts|], money);
  }

  lemma ConsistentPush(parts: seq<Fragment>, f: Fragment, money: Reader)
    requires Consistent(parts, money) && Understood(f, money)
    requires forall i :: 0 <= i < |parts| ==> Compatible(parts[i], f, money)
    ensures Consistent(parts + [f], money)
  {
    var more := parts + [f];
    assert forall i :: 0 <= i < |more| ==> more[i] == if i < |parts| then parts[i] else f;
  }

  lemma PricePush(parts: seq<Fragment>, f: Fragment, money: Reader, currency: Option<Currency>,
                  prices: map<string, real>, m: Money, d: string)
    requires PricesRead(parts, money, currency, prices) && Consistent(parts, money) && IsPrice(f, money, m)
    requires d == PRICE_KEYS[f.key] && d !in prices && (currency.None? || currency.value == m.currency)
    ensures Consistent(parts + [f], money)
    ensures PricesRead(parts + [f], money, Some(m.currency), prices[d := m.amount])
  {
    var more, after := parts + [f], prices[d := m.amount];
    ConsistentPush(parts, f, money);
    assert more[|parts|] == f && forall i :: 0 <= i < |parts| ==> more[i] == parts[i];
    forall e: string | e in after
      ensures exists i :: 0 <= i < |more| && Priced(more[i]) && PRICE_KEYS[more[i].key] == e
    {
      if e != d {
        var i :| 0 <= i < |parts| && Priced(parts[i]) && PRICE_KEYS[parts[i].key] == e;
        assert Priced(more[i]);
      }
    }
  }

  lemma OtherPush(parts: seq<Fragment>, f: Fragment, money: Reader, currency: Option<Currency>,
                  prices: map<string, real>)
    requires PricesRead(parts, money, currency, prices) && Consistent(parts, money)
    requires !Priced(f) && Understood(f, money)
    ensures Consistent(parts + [f], money) && PricesRead(parts + [f], money, currency, prices)
  {
    ConsistentPush(parts, f, money);
    UnpricedPush(parts, f, money, currency, prices);
  }

  lemma UnpricedPush(parts: seq<Fragment>, f: Fragment, money: Reader, currency: Option<Currency>,
                     prices: map<string, real>)
    requires PricesRead(parts, money, currency, prices) && !Priced(f)
    ensures PricesRead(parts + [f], money, currency, prices)
  {
    var more := parts + [f];
    assert more[|parts|] == f && forall i :: 0 <= i < |parts| ==> more[i] == parts[i];
    forall e | e in prices
      ensures exists i :: 0 <= i < |more| && Priced(more[i]) && PRICE_KEYS[more[i].key] == e
    {
      var i :| 0 <= i < |parts| && Priced(parts[i]) && PRICE_KEYS[parts[i].key] == e;
      assert Priced(more[i]);
    }
  }

  lemma ListsPush(parts: seq<Fragment>, f: Fragment)
    ensures Conditions(parts + [f]) == Conditions(parts) + if IsCondition(f) then [f] else []
    ensures Waived(parts + [f]) == Waived(parts) + if IsWaived(f) then [PRICE_KEYS[f.key]] else []
    ensures FreeStorages(parts + [f]) == FreeStorages(parts) + if IsFreeStorage(f) then 1 else 0
  {
    assert (parts + [f])[..|parts|] == parts;
  }

  lemma InconsistentPrefix(parts: seq<Fragment>, n: nat, money: Reader)
    requires n <= |parts| && !Consistent(parts[..n], money)
    ensures !Consistent(parts, money)
  {
    assert forall i :: 0 <= i < n ==> parts[..n][i] == parts[i];
  }

  lemma NotUnderstood(parts: seq<Fragment>, i: nat, money: Reader)
    requires i < |parts| && !Understood(parts[i], money)
    ensures !Consistent(parts, money)
  {
  }

  /** The state of a tier while its pieces are read. */
  datatype Draft = Draft(
    conditions: seq<Fragment>,
    currency: Option<Currency>,
    notApplicable: seq<string>,
    storageFree: nat,
    prices: map<string, real>)

  ghost predicate Drafted(parts: seq<Fragment>, money: Reader, d: Draft) {
    && d.conditions == Conditions(parts) && d.notApplicable == Waived(parts) && d.storageFree == FreeStorages(parts)
    && Consistent(parts, money) && PricesRead(parts, money, d.currency, d.prices)
  }

  /** One piece of a tier. */
  method ReadPart(f: Fragment, money: Reader, before: Draft, ghost parts: seq<Fragment>)
    returns (draft: Draft, ok: bool)
    requires Drafted(parts, money, before)
    ensures ok ==> Drafted(parts + [f], money, draft)
    ensures !ok ==> !Consistent(parts + [f], money)
  {
    draft, ok := before, false;
    ListsPush(parts, f);
    assert (parts + [f])[|parts|] == f;
    if f.Bare? {
      if INPUT_LENGTH <= f.text || OUTPUT_LENGTH <= f.text {
        OtherPush(parts, f, money, before.currency, before.prices);
        draft, ok := before.(conditions := before.conditions + [f]), true;
      }
      return;
    }
    if f.key == STORAGE {
      if f.value == FREE_FOR_NOW {
        OtherPush(parts, f, money, before.currency, before.prices);
        draft, ok := before.(storageFree := before.storageFree + 1), true;
      }
      return;
    }
    if f.key !in PRICE_KEYS {
      if f.key in CONDITION_KEYS {
        OtherPush(parts, f, money, before.currency, before.prices);
        draft, ok := before.(conditions := before.conditions + [f]), true;
      }
      return;
    }
    var dimension := PRICE_KEYS[f.key];
    if f.value == NOT_APPLICABLE {
      OtherPush(parts, f, money, before.currency, before.prices);
      return before.(notApplicable := before.notApplicable + [dimension]), true;
    }
    var read := money(f.value);
    if read.None? || read.value.amount < 0.0 {
      NotUnderstood(parts + [f], |parts|, money);
      return;
    }
    var m := read.value;
    if before.currency.Some? && m.currency != before.currency.value {
      var e :| e in before.prices;
      ClashPush(parts, f, money, before.currency, before.prices, m, e);
      return;
    }
    if dimension in before.prices {
      ClashPush(parts, f, money, before.currency, before.prices, m, dimension);
      return;
    }
    PricePush(parts, f, money, before.currency, before.prices, m, dimension);
    return before.(currency := Some(m.currency), prices := before.prices[dimension := m.amount]), true;
  }

  /** One tier of `parse_token_price_rules`: it is skipped, read in full, or refused. */
  method ParseTier(parts: seq<Fragment>, money: Reader) returns (tier: Tier)
    ensures tier.NotOffered? <==> Dashed(parts)
    ensures tier.Offered? <==> !Dashed(parts) && Consistent(parts, money) && HasInput(parts)
    ensures tier.Offered? ==> Reads(parts, money, tier.rule)
  {
    if Dashed(parts) {
      return NotOffered;
    }
    var draft := Draft([], None, [], 0, map[]);
    for i := 0 to |parts|
      invariant Drafted(parts[..i], money, draft)
    {
      var ok;
      assert parts[..i + 1] == parts[..i] + [parts[i]];
      draft, ok := ReadPart(parts[i], money, draft, parts[..i]);
      if !ok {
        InconsistentPrefix(parts, i + 1, money);
        return Rejected;
      }
    }
    assert parts[..|parts|] == parts;
    if draft.currency.None? || INPUT !in draft.prices {
      return Rejected;
    }
    var rule := Rule(draft.conditions, draft.currency.value, draft.notApplicable, draft.storageFree, draft.prices);
    DraftReads(parts, money, draft, rule);
    return Offered(rule);
  }

  lemma DraftReads(parts: seq<Fragment>, money: Reader, draft: Draft, rule: Rule)
    requires Drafted(parts, money, draft) && draft.currency.Some?
    requires rule == Rule(draft.conditions, draft.currency.value, draft.notApplicable, draft.storageFree, draft.prices)
    ensures Reads(parts, money, rule)
  {
    forall d, a
      ensures Quoted(parts, money, d, Money(rule.currency, a)) <==> d in rule.prices && rule.prices[d] == a
    {
      QuotedIsRead(parts, money, rule.currency, rule.prices, d, a);
    }
  }

  lemma QuotedIsRead(parts: seq<Fragment>, money: Reader, currency: Currency, prices: map<string, real>, d: string,
                     a: real)
    requires PricesRead(parts, money, Some(currency), prices)
    ensures Quoted(parts, money, d, Money(currency, a)) <==> d in prices && prices[d] == a
  {
    if d in prices && prices[d] == a {
      var i :| 0 <= i < |parts| && Priced(parts[i]) && PRICE_KEYS[parts[i].key] == d;
      assert Quotes(parts, i, money, d, Money(currency, a));
    }
  }

  lemma SamePrice(parts: seq<Fragment>, money: Reader, a: Rule, b: Rule, d: string)
    requires Reads(parts, money, a) && Reads(parts, money, b) && a.currency == b.currency && d in a.prices
    ensures d in b.prices && b.prices[d] == a.prices[d]
  {
    assert Quoted(parts, money, d, Money(a.currency, a.prices[d]));
  }

  /** The reading is unique: a tier with an input price has one meaning. */
  lemma ReadingIsUnique(parts: seq<Fragment>, money: Reader, a: Rule, b: Rule)
    requires Reads(parts, money, a) && Reads(parts, money, b) && HasInput(parts)
    ensures a == b
  {
    var k :| 0 <= k < |parts| && Priced(parts[k]) && PRICE_KEYS[parts[k].key] == INPUT;
    assert a.currency == b.currency;
    forall d | d in a.prices
      ensures d in b.prices && b.prices[d] == a.prices[d]
    {
      SamePrice(parts, money, a, b, d);
    }
    forall d | d in b.prices
      ensures d in a.prices
    {
      SamePrice(parts, money, b, a, d);
    }
    assert a.prices == b.prices;
  }

  // ----- All tiers -----

  datatype PricedRule = PricedRule(rule: Rule, cost: map<string, real>, sale: map<string, real>)

  function OnOffer(tiers: seq<seq<Fragment>>): seq<seq<Fragment>> {
    if tiers == [] then []
    else OnOffer(tiers[..|tiers| - 1]) + if Dashed(tiers[|tiers| - 1]) then [] else [tiers[|tiers| - 1]]
  }

  /** The rule of a tier, with cost and sale price of every quoted dimension. */
  ghost predicate Prices(parts: seq<Fragment>, money: Reader, fraction: real, share: real, r: PricedRule)
    requires share > 0.0
  {
    && Reads(parts, money, r.rule) && r.cost.Keys == r.sale.Keys == r.rule.prices.Keys
    && forall d <- r.rule.prices ::
         r.cost[d] == Cost(r.rule.prices[d], fraction) && r.sale[d] == Sale(r.rule.prices[d], fraction, share)
  }

  lemma OnOfferPush(tiers: seq<seq<Fragment>>, n: nat)
    requires n < |tiers|
    ensures OnOffer(tiers[..n + 1]) == OnOffer(tiers[..n]) + if Dashed(tiers[n]) then [] else [tiers[n]]
  {
    assert tiers[..n + 1][..n] == tiers[..n];
  }

  method PriceRule(ghost parts: seq<Fragment>, money: Reader, rule: Rule, fraction: real, share: real)
    returns (priced: PricedRule)
    requires share > 0.0 && Reads(parts, money, rule)
    ensures Prices(parts, money, fraction, share, priced)
  {
    priced := PricedRule(rule,
      map d | d in rule.prices :: Cost(rule.prices[d], fraction),
      map d | d in rule.prices :: Sale(rule.prices[d], fraction, share));
  }

  /** `parse_token_price_rules`: one rule per offered tier, in order, or none at all. */
  method ParseRules(tiers: seq<seq<Fragment>>, money: Reader, fraction: real, share: real)
    returns (rules: Option<seq<PricedRule>>)
    ensures rules.Some? <==>
              && fraction > 0.0 && share > 0.0
              && forall parts <- tiers :: Dashed(parts) || (Consistent(parts, money) && HasInput(parts))
    ensures rules.Some? ==>
              && |rules.value| == |OnOffer(tiers)|
              && forall i :: 0 <= i < |rules.value| ==>
                   Prices(OnOffer(tiers)[i], money, fraction, share, rules.value[i])
  {
    if !(fraction > 0.0) || !(share > 0.0) {
      return None;
    }
    var done: seq<PricedRule> := [];
    for n := 0 to |tiers|
      invariant forall i :: 0 <= i < n ==> Dashed(tiers[i]) || (Consistent(tiers[i], money) && HasInput(tiers[i]))
      invariant |done| == |OnOffer(tiers[..n])|
      invariant forall i :: 0 <= i < |done| ==> Prices(OnOffer(tiers[..n])[i], money, fraction, share, done[i])
    {
      OnOfferPush(tiers, n);
      var tier := ParseTier(tiers[n], money);
      match tier {
        case Rejected => return None;
        case NotOffered =>
        case Offered(rule) =>
          var priced := PriceRule(tiers[n], money, rule, fraction, share);
          done := done + [priced];
      }
    }
    assert tiers[..|tiers|] == tiers;
    return Some(done);
  }

  lemma QuotedIsNotNegative(parts: seq<Fragment>, money: Reader, rule: Rule, d: string)
    requires Consistent(parts, money) && Reads(parts, money, rule) && d in rule.prices
    ensures rule.prices[d] >= 0.0
  {
    assert Quoted(parts, money, d, Money(rule.currency, rule.prices[d]));
    var i :| 0 <= i < |parts| && Quotes(parts, i, money, d, Money(rule.currency, rule.prices[d]));
    assert Understood(parts[i], money);
  }

  lemma CostIsNotNegative(amount: real, fraction: real)
    requires 0.0 <= amount && 0.0 < fraction
    ensures 0.0 <= Cost(amount, fraction)
  {
    Product(amount, fraction);
    RoundIsMonotone(0.0, amount * fraction);
  }

  /** An accepted tier never sells below cost at a share of at most one, and prices nothing below zero. */
  lemma AcceptedTierCoversCost(parts: seq<Fragment>, money: Reader, fraction: real, share: real, r: PricedRule,
                               d: string)
    requires 0.0 < fraction && 0.0 < share <= 1.0
    requires Consistent(parts, money) && Prices(parts, money, fraction, share, r) && d in r.rule.prices
    ensures 0.0 <= r.cost[d] <= r.sale[d]
  {
    QuotedIsNotNegative(parts, money, r.rule, d);
    CostIsNotNegative(r.rule.prices[d], fraction);
    CoversCost(r.rule.prices[d], fraction, share);
  }

  // ----- Which row prices a model -----

  datatype Entry = Entry(name: string, enterprise: bool, active: bool)

  predicate SameModel(a: Entry, b: Entry, fold: string -> string) {
    fold(a.name) == fold(b.name)
  }

  /** The pricing-basis pass; `fold` is case folding. */
  method PricingBasis(entries: seq<Entry>, fold: string -> string) returns (basis: seq<bool>)
    ensures |basis| == |entries|
    ensures forall i :: 0 <= i < |entries| ==> basis[i] == IsBasis(entries, i, fold)
  {
    var activeEnterprise :=
      set i | 0 <= i < |entries| && entries[i].enterprise && entries[i].active :: fold(entries[i].name);
    basis := [];
    for n := 0 to |entries|
      invariant |basis| == n && forall i :: 0 <= i < n ==> basis[i] == IsBasis(entries, i, fold)
    {
      var e := entries[n];
      basis := basis + [e.active && (e.enterprise || fold(e.name) !in activeEnterprise)];
    }
  }

  /** The entry is active, and of the best grade among the active entries of its model. */
  predicate IsBasis(entries: seq<Entry>, i: nat, fold: string -> string)
    requires i < |entries|
  {
    && entries[i].active
    && forall j :: 0 <= j < |entries| && entries[j].active && SameModel(entries[j], entries[i], fold) ==>
         (entries[j].enterprise ==> entries[i].enterprise)
  }

  /** The basis rows of a model are all of one grade, and a model with an active row has one. */
  lemma OneGradePerModel(entries: seq<Entry>, fold: string -> string, i: nat)
    requires i < |entries| && entries[i].active
    ensures exists k :: 0 <= k < |entries| && SameModel(entries[k], entries[i], fold) && IsBasis(entries, k, fold)
    ensures forall k, l :: 0 <= k < |entries| && 0 <= l < |entries| ==>
              (IsBasis(entries, k, fold) && IsBasis(entries, l, fold) && SameModel(entries[k], entries[l], fold) ==>
                entries[k].enterprise == entries[l].enterprise)
  {
    if !IsBasis(entries, i, fold) {
      var j :| 0 <= j < |entries| && entries[j].active && SameModel(entries[j], entries[i], fold) &&
               entries[j].enterprise;
      assert IsBasis(entries, j, fold);
    }
  }

  // ----- Prices and pieces, written out -----

  /** Prices are rounded to ten places, and a price half way between two goes to the higher one. */
  lemma RoundExactly(k: nat, x: real)
    requires k as real - 0.5 <= x * 10000000000.0 < k as real + 0.5 && 0.0 <= x
    ensures Round(x) == k as real * 0.0000000001
  {
    FloorIs(x * 10000000000.0 + 0.5, k);
    assert Steps(x) == k;
  }

  lemma FloorIs(y: real, k: int)
    requires k as real <= y < k as real + 1.0
    ensures y.Floor == k
  {
  }

  /** Cost and sale price are the quoted amount times the fraction, the latter divided by the share, each up to half
      a step. */
  lemma PricesExactly(amount: real, fraction: real, share: real)
    requires 0.0 < share
    ensures amount * fraction - 0.00000000005 <= Cost(amount, fraction) <= amount * fraction + 0.00000000005
    ensures amount * fraction / share - 0.00000000005 <= Sale(amount, fraction, share)
    ensures Sale(amount, fraction, share) <= amount * fraction / share + 0.00000000005
  {
    RoundIsNear(amount * fraction);
    RoundIsNear(amount * fraction / share);
  }

  /** The fields that quote a price, and of what. */
  lemma PriceKeysAre(key: string)
    ensures key in PRICE_KEYS <==>
            key in {"输入单价", "输出单价", "输出", "缓存命中", "缓存写入", "缓存写入5m", "缓存写入1h"}
    ensures PRICE_KEYS["输入单价"] == "input_tokens" && PRICE_KEYS["输出单价"] == "output_tokens"
    ensures PRICE_KEYS["输出"] == "output_tokens" && PRICE_KEYS["缓存命中"] == "cache_read"
    ensures PRICE_KEYS["缓存写入"] == "cache_write" && PRICE_KEYS["缓存写入5m"] == "cache_write_5m"
    ensures PRICE_KEYS["缓存写入1h"] == "cache_write_1h"
  {
    var keys := ["输入单价", "输出单价", "输出", "缓存命中", "缓存写入", "缓存写入5m", "缓存写入1h"];
    assert |keys[0]| == 4 && |keys[1]| == 4 && |keys[2]| == 2 && |keys[3]| == 4 && |keys[4]| == 4;
    assert |keys[5]| == 6 && |keys[6]| == 6;
    assert keys[0][1] == '入' && keys[1][1] == '出' && keys[3][2] == '命' && keys[4][2] == '写';
    assert keys[5][4] == '5' && keys[6][4] == '1' && keys[3][0] == keys[4][0] == '缓' && keys[0][0] == keys[1][0] == '输';
  }

  /** A piece is understood exactly if it is a condition, the note that cache storage is free for now, a price field
      marked as not applicable, or a price field with a readable amount that is not negative. */
  lemma PieceExactly(f: Fragment, money: Reader)
    ensures Understood(f, money) <==>
            match f
            case Bare(text) => "输入长度" <= text || "输出长度" <= text
            case Pair(key, value) =>
              if key == "缓存存储" then value == "限时免费"
              else if key in PRICE_KEYS then
                value == "不适用" || (money(value).Some? && 0.0 <= money(value).value.amount)
              else key in {"输入长度", "输出长度", "计费时段", "输入类型"}
    ensures Priced(f) <==> f.Pair? && f.key != "缓存存储" && f.key in PRICE_KEYS && f.value != "不适用"
    ensures IsWaived(f) <==> f.Pair? && f.key != "缓存存储" && f.key in PRICE_KEYS && f.value == "不适用"
    ensures IsFreeStorage(f) <==> f == Pair("缓存存储", "限时免费")
    ensures IsCondition(f) ==> f.Bare? || f.key in {"输入长度", "输出长度", "计费时段", "输入类型"}
  {
  }

  /** A tier has an input price if some piece quotes it, and is not on offer if every field of it reads "-". */
  lemma TierExactly(parts: seq<Fragment>)
    ensures HasInput(parts) <==>
            exists i :: 0 <= i < |parts| && Priced(parts[i]) && PRICE_KEYS[parts[i].key] == "input_tokens"
    ensures Dashed(parts) <==>
            && (exists i :: 0 <= i < |parts| && parts[i].Pair?)
            && (forall i :: 0 <= i < |parts| ==> parts[i].Bare? || parts[i].value == "-")
  {
  }

  /** Two prices in one tier are for different things and in one currency. */
  lemma ClashExactly(parts: seq<Fragment>, money: Reader, i: nat, j: nat)
    requires Consistent(parts, money) && i < j < |parts| && Priced(parts[i]) && Priced(parts[j])
    ensures PRICE_KEYS[parts[i].key] != PRICE_KEYS[parts[j].key]
    ensures money(parts[i].value).Some? && money(parts[j].value).Some?
    ensures money(parts[i].value).value.currency == money(parts[j].value).value.currency
  {
    assert Compatible(parts[i], parts[j], money);
  }

  /** A row is a basis exactly if it is active and is an enterprise row or its model has no active one. */
  lemma BasisExactly(entries: seq<Entry>, i: nat, fold: string -> string)
    requires i < |entries|
    ensures IsBasis(entries, i, fold) <==>
            && entries[i].active
            && (entries[i].enterprise ||
                !exists j :: 0 <= j < |entries| && entries[j].active && entries[j].enterprise &&
                             fold(entries[j].name) == fold(entries[i].name))
  {
    if j :| 0 <= j < |entries| && entries[j].active && entries[j].enterprise &&
            fold(entries[j].name) == fold(entries[i].name) {
      assert SameModel(entries[j], entries[i], fold);
    }
  }
}
