/**
 The oracle's route reduction: prices of pairs along a route are combined into the price of the
 configured pair. Prices are exact positive reals.
 */
module Oracle {
  import opened Wrappers

  type Currency = string
  type Positive = r: real | r > 0.0 witness 1.0

  datatype CurrencyPair = CurrencyPair(base: Currency, quote: Currency)

  datatype PairAndPrice = PairAndPrice(pair: CurrencyPair, price: Positive)

  datatype ConfigError = NoStart | NoEnd | NoPath(left: CurrencyPair, right: CurrencyPair)

  // ---------------------------------------------------------------- prices

  function Reciprocal(p: Positive): Positive {
    1.0 / p
  }

  function Product(p: Positive, q: Positive): Positive {
    ProductPositive(p, q);
    p * q
  }

  lemma ProductPositive(p: Positive, q: Positive)
    ensures p * q > 0.0
  {
  }

  function InvertPair(p: CurrencyPair): CurrencyPair {
    CurrencyPair(p.quote, p.base)
  }

  function Invert(p: PairAndPrice): PairAndPrice {
    PairAndPrice(InvertPair(p.pair), Reciprocal(p.price))
  }

  /** Combine two prices; which of them are inverted depends on the element they share. */
  function Reduce(self: PairAndPrice, other: PairAndPrice): PairAndPrice {
    var (left, right) :=
      if self.pair.quote == other.pair.quote then (self, Invert(other))
      else if self.pair.base == other.pair.base then (Invert(self), other)
      else if self.pair.base == other.pair.quote then (Invert(self), Invert(other))
      else (self, other);
    PairAndPrice(CurrencyPair(left.pair.base, right.pair.quote), Product(left.price, right.price))
  }

  /** The left fold over a non-empty route. */
  function ReduceRoute(prices: seq<PairAndPrice>): PairAndPrice
    requires prices != []
  {
    if |prices| == 1 then prices[0]
    else Reduce(ReduceRoute(prices[..|prices| - 1]), prices[|prices| - 1])
  }

  /** What one feed reports for the configured pair; an empty route reports nothing. */
  function GetPrice(prices: seq<PairAndPrice>, pair: CurrencyPair): Option<PairAndPrice> {
    if prices == [] then None
    else
      var reduced := ReduceRoute(prices);
      Some(if reduced.pair.base != pair.base then Invert(reduced) else reduced)
  }

  // ---------------------------------------------------------------- meaning

  /** A worth for every currency, against which quotes can be checked. */
  type Valuation = Currency -> Positive

  /** One unit of the base is worth `price` units of the quote. */
  ghost predicate TrueAt(p: PairAndPrice, v: Valuation) {
    p.price == v(p.pair.base) / v(p.pair.quote)
  }

  /** The pair is made of these two currencies, either way round. */
  predicate Connects(p: CurrencyPair, x: Currency, y: Currency) {
    p == CurrencyPair(x, y) || p == CurrencyPair(y, x)
  }

  /** The pairs lead from the first name to the last, and no name occurs twice. */
  ghost predicate SimpleChain(names: seq<Currency>, route: seq<CurrencyPair>) {
    && route != [] && |names| == |route| + 1
    && (forall i, j :: 0 <= i < j < |names| ==> names[i] != names[j])
    && (forall i :: 0 <= i < |route| ==> Connects(route[i], names[i], names[i + 1]))
  }

  function PairsOf(prices: seq<PairAndPrice>): seq<CurrencyPair> {
    seq(|prices|, i requires 0 <= i < |prices| => prices[i].pair)
  }

  lemma RatiosCompose(a: Positive, b: Positive, c: Positive)
    ensures a / b * (b / c) == a / c
  {
  }

  lemma RatioInverts(a: Positive, b: Positive)
    ensures 1.0 / (a / b) == b / a
  {
    assert a / b * (b / a) == 1.0 by { RatiosCompose(a, b, a); }
  }

  lemma InvertKeepsTruth(p: PairAndPrice, v: Valuation)
    requires TrueAt(p, v)
    ensures TrueAt(Invert(p), v)
  {
    RatioInverts(v(p.pair.base), v(p.pair.quote));
  }

  /** Two true prices that share one currency reduce to the true price across it, from first to last. */
  lemma ReduceKeepsTruth(p: PairAndPrice, q: PairAndPrice, x: Currency, y: Currency, z: Currency, v: Valuation)
    requires x != y && y != z && x != z
    requires Connects(p.pair, x, y) && Connects(q.pair, y, z)
    requires TrueAt(p, v) && TrueAt(q, v)
    ensures Reduce(p, q).pair == CurrencyPair(x, z)
    ensures TrueAt(Reduce(p, q), v)
  {
    InvertKeepsTruth(p, v);
    InvertKeepsTruth(q, v);
    RatiosCompose(v(x), v(y), v(z));
  }

  lemma {:induction false} RouteKeepsTruth(names: seq<Currency>, prices: seq<PairAndPrice>, v: Valuation)
    requires SimpleChain(names, PairsOf(prices))
    requires forall i :: 0 <= i < |prices| ==> TrueAt(prices[i], v)
    ensures Connects(ReduceRoute(prices).pair, names[0], names[|prices|])
    ensures TrueAt(ReduceRoute(prices), v)
    decreases |prices|
  {
    var n := |prices|;
    assert forall i :: 0 <= i < n ==> PairsOf(prices)[i] == prices[i].pair;
    if n > 1 {
      var init := prices[..n - 1];
      assert PairsOf(init) == PairsOf(prices)[..n - 1];
      RouteKeepsTruth(names[..n], init, v);
      ReduceKeepsTruth(ReduceRoute(init), prices[n - 1], names[0], names[n - 1], names[n], v);
    }
  }

  /**
   Reduction preserves meaning: along a simple chain between the configured pair's currencies, with pairs
   in any orientation, the reported price is the configured pair's, and it is true of every valuation
   the quotes are true of.
   */
  lemma PriceIsTrue(names: seq<Currency>, prices: seq<PairAndPrice>, pair: CurrencyPair, v: Valuation)
    requires SimpleChain(names, PairsOf(prices))
    requires Connects(pair, names[0], names[|prices|])
    requires forall i :: 0 <= i < |prices| ==> TrueAt(prices[i], v)
    ensures GetPrice(prices, pair).Some?
    ensures GetPrice(prices, pair).value.pair == pair
    ensures GetPrice(prices, pair).value.price == v(pair.base) / v(pair.quote)
  {
    RouteKeepsTruth(names, prices, v);
    InvertKeepsTruth(ReduceRoute(prices), v);
  }

  // ---------------------------------------------------------------- configuration

  /** A currency's name up to the first `=`. */
  function Strip(c: Currency): Currency {
    if c == "" || c[0] == '=' then "" else [c[0]] + Strip(c[1..])
  }

  predicate Contains(p: CurrencyPair, c: Currency) {
    Strip(p.base) == Strip(c) || Strip(p.quote) == Strip(c)
  }

  predicate HasShared(p: CurrencyPair, q: CurrencyPair) {
    Contains(p, q.base) || Contains(p, q.quote)
  }

  /** The first two neighbours that share no currency. */
  function FirstGap(route: seq<CurrencyPair>): Option<ConfigError> {
    if |route| < 2 then None
    else if !HasShared(route[0], route[1]) then Some(NoPath(route[0], route[1]))
    else FirstGap(route[1..])
  }

  function ValidateRoute(pair: CurrencyPair, route: seq<CurrencyPair>): Result<(), ConfigError> {
    if route == [] then Err(NoStart)
    else if !Contains(route[0], pair.base) && !Contains(route[0], pair.quote) then Err(NoStart)
    else
      var end := if Contains(route[0], pair.base) then pair.quote else pair.base;
      if !Contains(route[|route| - 1], end) then Err(NoEnd)
      else
        match FirstGap(route)
        case Some(gap) => Err(gap)
        case None => Ok(())
  }

  /** The feeds of a configuration, in name order; the first bad route is reported. */
  function Validate(pair: CurrencyPair, feeds: seq<seq<CurrencyPair>>): Result<(), ConfigError> {
    if feeds == [] then Ok(())
    else
      match ValidateRoute(pair, feeds[0])
      case Err(e) => Err(e)
      case Ok(_) => Validate(pair, feeds[1..])
  }

  /** The name before the first `=`. */
  lemma {:induction false} StripExact(c: Currency)
    ensures var name := Strip(c);
            && name <= c && '=' !in name && (|name| < |c| ==> c[|name|] == '=')
  {
    if c != "" && c[0] != '=' {
      StripExact(c[1..]);
      assert c == [c[0]] + c[1..];
    }
  }

  /** Pair `i` of the route and the next one share no currency, up to the suffixes of their names. */
  predicate GapAt(route: seq<CurrencyPair>, i: nat) {
    i + 1 < |route| && !HasShared(route[i], route[i + 1])
  }

  lemma GapShifts(route: seq<CurrencyPair>, i: nat)
    requires route != []
    ensures GapAt(route[1..], i) <==> GapAt(route, i + 1)
  {
  }

  /** `i` is the first gap, and this is its error. */
  ghost predicate FirstGapAt(route: seq<CurrencyPair>, i: nat, error: ConfigError) {
    && GapAt(route, i) && error == NoPath(route[i], route[i + 1])
    && forall j :: 0 <= j < i ==> !GapAt(route, j)
  }

  /** There is no gap, or the first one is reported. */
  lemma {:induction false} FirstGapExact(route: seq<CurrencyPair>)
    ensures FirstGap(route) == None <==> forall i: nat :: !GapAt(route, i)
    ensures FirstGap(route).Some? ==> exists i: nat :: FirstGapAt(route, i, FirstGap(route).value)
  {
    hide HasShared;
    if |route| > 1 {
      var rest := route[1..];
      FirstGapExact(rest);
      forall i: nat | GapAt(route, i)
        ensures i == 0 || GapAt(rest, i - 1)
      {
        if i > 0 {
          GapShifts(route, i - 1);
        }
      }
      if HasShared(route[0], route[1]) && FirstGap(rest).Some? {
        var i: nat :| FirstGapAt(rest, i, FirstGap(rest).value);
        GapShifts(route, i);
        forall j | 0 <= j < i + 1
          ensures !GapAt(route, j)
        {
          if j > 0 {
            GapShifts(route, j - 1);
          }
        }
        assert FirstGapAt(route, i + 1, FirstGap(route).value);
      } else if !HasShared(route[0], route[1]) {
        assert GapAt(route, 0) && FirstGapAt(route, 0, FirstGap(route).value);
      }
    }
  }

  /** Some name of the one pair is, up to its suffix, a name of the other. */
  lemma HasSharedExact(p: CurrencyPair, q: CurrencyPair)
    ensures HasShared(p, q) <==>
            || Strip(p.base) == Strip(q.base) || Strip(p.base) == Strip(q.quote)
            || Strip(p.quote) == Strip(q.base) || Strip(p.quote) == Strip(q.quote)
  {
  }

  /**
   A route is accepted exactly when it starts with a pair of the configured base and ends with one of the quote,
   or starts with one of the quote only and ends with one of the base, and all neighbours share a currency.
   The error tells a bad start from a bad end, and both from a gap.
   */
  lemma ValidateRouteExact(pair: CurrencyPair, route: seq<CurrencyPair>)
    ensures var r := ValidateRoute(pair, route);
            var n := |route|;
            var forwards := n > 0 && Contains(route[0], pair.base);
            var backwards := n > 0 && !Contains(route[0], pair.base) && Contains(route[0], pair.quote);
            var ends := n > 0 && Contains(route[n - 1], if forwards then pair.quote else pair.base);
            && (r.Ok? <==> (forwards || backwards) && ends && forall i: nat :: !GapAt(route, i))
            && (r == Err(NoStart) <==> !forwards && !backwards)
            && (r == Err(NoEnd) <==> (forwards || backwards) && !ends)
            && (r.Err? && r.error.NoPath? ==>
                  && (forwards || backwards) && ends
                  && exists i: nat :: FirstGapAt(route, i, r.error))
  {
    hide Contains, HasShared;
    FirstGapExact(route);
    GapIsNoPath(route);
  }

  lemma {:induction false} GapIsNoPath(route: seq<CurrencyPair>)
    ensures FirstGap(route).Some? ==> FirstGap(route).value.NoPath?
  {
    if |route| > 1 {
      GapIsNoPath(route[1..]);
    }
  }

  /** Every route the theorem covers is accepted, whatever its direction; only the ends' names must stay apart. */
  lemma ChainsAreValid(names: seq<Currency>, route: seq<CurrencyPair>, pair: CurrencyPair)
    requires SimpleChain(names, route) && Connects(pair, names[0], names[|route|])
    requires forall i, j :: 0 <= i < j < |names| ==> Strip(names[i]) != Strip(names[j])
    ensures ValidateRoute(pair, route) == Ok(())
  {
    forall i: nat
      ensures !GapAt(route, i)
    {
      if i + 1 < |route| {
        assert Connects(route[i], names[i], names[i + 1]) && Connects(route[i + 1], names[i + 1], names[i + 2]);
      }
    }
    FirstGapExact(route);
    assert Connects(route[0], names[0], names[1]);
    assert Connects(route[|route| - 1], names[|route| - 1], names[|route|]);
  }

  /** A configuration is accepted exactly when all its routes are; otherwise the first bad one is reported. */
  lemma {:induction false} ValidateExact(pair: CurrencyPair, feeds: seq<seq<CurrencyPair>>)
    ensures Validate(pair, feeds) == Ok(()) <==>
            forall k :: 0 <= k < |feeds| ==> ValidateRoute(pair, feeds[k]) == Ok(())
    ensures Validate(pair, feeds).Err? ==>
              exists k :: && 0 <= k < |feeds| && ValidateRoute(pair, feeds[k]) == Validate(pair, feeds)
                          && forall l :: 0 <= l < k ==> ValidateRoute(pair, feeds[l]) == Ok(())
  {
    if feeds != [] {
      var rest := feeds[1..];
      ValidateExact(pair, rest);
      assert forall l :: 0 < l < |feeds| ==> feeds[l] == rest[l - 1];
      assert forall l :: 0 <= l < |rest| ==> rest[l] == feeds[l + 1];
      if ValidateRoute(pair, feeds[0]).Ok? && Validate(pair, rest).Err? {
        var k :| && 0 <= k < |rest| && ValidateRoute(pair, rest[k]) == Validate(pair, rest)
                 && forall l :: 0 <= l < k ==> ValidateRoute(pair, rest[l]) == Ok(());
        assert feeds[k + 1] == rest[k];
      }
    }
  }

  /**
   The converse fails: a route that turns back is accepted, and then the price of another pair is reported.
   A route over A/X then A/B, configured for A/B, reports B/X, whatever the three currencies.
   */
  lemma TurningRouteMisreports(a: Currency, b: Currency, x: Currency, p: Positive, q: Positive)
    requires a != b && a != x && b != x
    ensures var pair := CurrencyPair(a, b);
            var prices := [PairAndPrice(CurrencyPair(a, x), p), PairAndPrice(pair, q)];
            && ValidateRoute(pair, PairsOf(prices)) == Ok(())
            && GetPrice(prices, pair).value.pair == CurrencyPair(b, x)
  {
    var pair := CurrencyPair(a, b);
    var prices := [PairAndPrice(CurrencyPair(a, x), p), PairAndPrice(pair, q)];
    assert PairsOf(prices) == [CurrencyPair(a, x), pair];
    assert [CurrencyPair(a, x), pair][1..] == [pair];
    assert prices[..1] == [prices[0]];
    assert ReduceRoute(prices[..1]) == prices[0];
    assert ReduceRoute(prices) == Reduce(prices[0], prices[1]);
    var route := [CurrencyPair(a, x), pair];
    assert FirstGap(route[1..]) == None;
    assert HasShared(route[0], route[1]);
    assert FirstGap(route) == None;
    assert Contains(route[0], a) && Contains(route[1], b);
    assert ValidateRoute(pair, route) == Ok(());
    assert ReduceRoute(prices).pair == CurrencyPair(x, b);
  }

  /** The fold on pairs alone: what a route reduces to can be known before any price is fetched. */
  function ReducePairs(route: seq<CurrencyPair>): CurrencyPair
    requires route != []
  {
    if |route| == 1 then route[0]
    else
      var p, q := ReducePairs(route[..|route| - 1]), route[|route| - 1];
      if p.quote == q.quote then CurrencyPair(p.base, q.base)
      else if p.base == q.base then CurrencyPair(p.quote, q.quote)
      else if p.base == q.quote then CurrencyPair(p.quote, q.base)
      else CurrencyPair(p.base, q.quote)
  }

  predicate Shares(p: CurrencyPair, q: CurrencyPair) {
    p.base == q.base || p.base == q.quote || p.quote == q.base || p.quote == q.quote
  }

  /** Every pair shares a currency with what the pairs before it reduce to. */
  predicate Joined(route: seq<CurrencyPair>) {
    |route| > 1 ==>
      && Joined(route[..|route| - 1])
      && Shares(ReducePairs(route[..|route| - 1]), route[|route| - 1])
  }

  lemma ReduceSharedKeepsTruth(p: PairAndPrice, q: PairAndPrice, v: Valuation)
    requires Shares(p.pair, q.pair) && TrueAt(p, v) && TrueAt(q, v)
    ensures TrueAt(Reduce(p, q), v)
  {
    InvertKeepsTruth(p, v);
    InvertKeepsTruth(q, v);
    var a, b, c, d := v(p.pair.base), v(p.pair.quote), v(q.pair.base), v(q.pair.quote);
    RatiosCompose(a, b, c);
    RatiosCompose(b, a, d);
    RatiosCompose(b, a, c);
    RatiosCompose(a, b, d);
  }

  lemma {:induction false} JoinedKeepsTruth(prices: seq<PairAndPrice>, v: Valuation)
    requires prices != [] && Joined(PairsOf(prices))
    requires forall i :: 0 <= i < |prices| ==> TrueAt(prices[i], v)
    ensures ReduceRoute(prices).pair == ReducePairs(PairsOf(prices))
    ensures TrueAt(ReduceRoute(prices), v)
    decreases |prices|
  {
    var n := |prices|;
    if n > 1 {
      var init := prices[..n - 1];
      assert PairsOf(init) == PairsOf(prices)[..n - 1];
      assert PairsOf(prices)[n - 1] == prices[n - 1].pair;
      JoinedKeepsTruth(init, v);
      ReduceSharedKeepsTruth(ReduceRoute(init), prices[n - 1], v);
    }
  }

  /** Simple or not, what a joined route reports is true, if perhaps of another pair. */
  lemma JoinedRouteReportsTruth(prices: seq<PairAndPrice>, pair: CurrencyPair, v: Valuation)
    requires prices != [] && Joined(PairsOf(prices))
    requires forall i :: 0 <= i < |prices| ==> TrueAt(prices[i], v)
    ensures TrueAt(GetPrice(prices, pair).value, v)
    ensures GetPrice(prices, pair).value.pair == pair <==>
            Connects(ReducePairs(PairsOf(prices)), pair.base, pair.quote)
  {
    JoinedKeepsTruth(prices, v);
    InvertKeepsTruth(ReduceRoute(prices), v);
  }

  // ---------------------------------------------------------------- exactly which routes serve a pair

  ghost predicate QuotesTrue(prices: seq<PairAndPrice>, v: Valuation) {
    forall i :: 0 <= i < |prices| ==> TrueAt(prices[i], v)
  }

  /** What is reported is the configured pair at the ratio of the valuations. */
  ghost predicate Reports(prices: seq<PairAndPrice>, pair: CurrencyPair, v: Valuation) {
    && GetPrice(prices, pair).Some? && GetPrice(prices, pair).value.pair == pair
    && TrueAt(GetPrice(prices, pair).value, v)
  }

  /** The route is right for the pair: whatever the currencies are worth, true quotes give the true price of the pair. */
  ghost predicate Serves(route: seq<CurrencyPair>, pair: CurrencyPair) {
    forall prices, v :: PairsOf(prices) == route && QuotesTrue(prices, v) ==> Reports(prices, pair, v)
  }

  /** How often the currency is a factor of a quote for the pair, divisions counting negatively. */
  function PairExponent(p: CurrencyPair, c: Currency): int {
    (if p.base == c then 1 else 0) - (if p.quote == c then 1 else 0)
  }

  predicate InvertsLeft(p: CurrencyPair, q: CurrencyPair) {
    p.quote != q.quote && (p.base == q.base || p.base == q.quote)
  }

  predicate InvertsRight(p: CurrencyPair, q: CurrencyPair) {
    p.quote == q.quote || (p.base != q.base && p.base == q.quote)
  }

  /** The net exponent of a currency along the route: its uses in the quotes, each counted in the direction it is multiplied. */
  function NetExponent(route: seq<CurrencyPair>, c: Currency): int
    requires route != []
  {
    if |route| == 1 then PairExponent(route[0], c)
    else
      var p, q := ReducePairs(route[..|route| - 1]), route[|route| - 1];
      var left, right := NetExponent(route[..|route| - 1], c), PairExponent(q, c);
      (if InvertsLeft(p, q) then -left else left) + (if InvertsRight(p, q) then -right else right)
  }

  /** All currencies but those of the reduced pair cancel, and these two are left once each. */
  ghost predicate Cancels(route: seq<CurrencyPair>)
    requires route != []
  {
    forall c :: NetExponent(route, c) == PairExponent(ReducePairs(route), c)
  }

  /** The price a route of true quotes reduces to. */
  function RoutePrice(route: seq<CurrencyPair>, v: Valuation): Positive
    requires route != []
  {
    if |route| == 1 then Ratio(v(route[0].base), v(route[0].quote))
    else
      var p, q := ReducePairs(route[..|route| - 1]), route[|route| - 1];
      var left, right := RoutePrice(route[..|route| - 1], v), Ratio(v(q.base), v(q.quote));
      Product(if InvertsLeft(p, q) then Reciprocal(left) else left,
              if InvertsRight(p, q) then Reciprocal(right) else right)
  }

  function Ratio(a: Positive, b: Positive): Positive {
    a / b
  }

  lemma {:induction false} ReducesToRoutePrice(prices: seq<PairAndPrice>, v: Valuation)
    requires prices != [] && QuotesTrue(prices, v)
    ensures ReduceRoute(prices) == PairAndPrice(ReducePairs(PairsOf(prices)), RoutePrice(PairsOf(prices), v))
    decreases |prices|
  {
    var n := |prices|;
    assert PairsOf(prices)[n - 1] == prices[n - 1].pair && TrueAt(prices[n - 1], v);
    if n > 1 {
      var init := prices[..n - 1];
      assert PairsOf(init) == PairsOf(prices)[..n - 1];
      ReducesToRoutePrice(init, v);
    }
  }

  // ---- prices are products of powers

  lemma SplitQuotient(a: Positive, b: Positive, c: Positive, d: Positive)
    ensures Ratio(Product(a, b), Product(c, d)) == Product(Ratio(a, c), Ratio(b, d))
  {
    assert a * b / (c * d) == a / c * (b / d) by {
      assert a / c * (b / d) * (c * d) == (a / c * c) * (b / d * d);
    }
  }

  lemma SplitReciprocal(a: Positive, b: Positive)
    ensures Reciprocal(Product(a, b)) == Product(Reciprocal(a), Reciprocal(b))
  {
    SplitQuotient(1.0, 1.0, a, b);
  }

  ghost predicate NamesOf(route: seq<CurrencyPair>, names: set<Currency>) {
    forall i :: 0 <= i < |route| ==> route[i].base in names && route[i].quote in names
  }

  lemma SplitProduct(a: Positive, b: Positive, c: Positive, d: Positive)
    ensures Product(Product(a, b), Product(c, d)) == Product(Product(a, c), Product(b, d))
  {
  }

  /** If every currency's worth is a product, so is the price. */
  lemma {:induction false} RoutePriceSplits(
    route: seq<CurrencyPair>, names: set<Currency>, u: Valuation, v: Valuation, w: Valuation)
    requires route != [] && NamesOf(route, names)
    requires forall c :: c in names ==> u(c) == Product(v(c), w(c))
    ensures RoutePrice(route, u) == Product(RoutePrice(route, v), RoutePrice(route, w))
    decreases |route|
  {
    hide Product, Ratio, Reciprocal;
    var init, q := route[..|route| - 1], route[|route| - 1];
    SplitQuotient(v(q.base), w(q.base), v(q.quote), w(q.quote));
    if |route| > 1 {
      RoutePriceSplits(init, names, u, v, w);
      var p := ReducePairs(init);
      var lv, lw := RoutePrice(init, v), RoutePrice(init, w);
      var rv, rw := Ratio(v(q.base), v(q.quote)), Ratio(w(q.base), w(q.quote));
      SplitReciprocal(lv, lw);
      SplitReciprocal(rv, rw);
      SplitProduct(if InvertsLeft(p, q) then Reciprocal(lv) else lv, if InvertsLeft(p, q) then Reciprocal(lw) else lw,
                   if InvertsRight(p, q) then Reciprocal(rv) else rv, if InvertsRight(p, q) then Reciprocal(rw) else rw);
    }
  }

  function Power(t: Positive, n: int): Positive
    decreases if n < 0 then -n else n
  {
    if n == 0 then 1.0 else if n > 0 then Product(t, Power(t, n - 1)) else Ratio(Power(t, n + 1), t)
  }

  lemma PowerStep(t: Positive, n: int)
    ensures Power(t, n + 1) == Product(t, Power(t, n))
    ensures Power(t, n - 1) == Ratio(Power(t, n), t)
  {
  }

  lemma ProductsReorder(a: Positive, b: Positive, t: Positive)
    ensures Product(t, Product(a, b)) == Product(a, Product(t, b))
    ensures Ratio(Product(a, b), t) == Product(a, Ratio(b, t))
  {
  }

  lemma {:induction false} PowerAdds(t: Positive, m: int, n: int)
    ensures Power(t, m + n) == Product(Power(t, m), Power(t, n))
    decreases if n < 0 then -n else n
  {
    hide Power, Product, Ratio;
    if n == 0 {
      PowerZero(t);
      ProductByOne();
    } else {
      var less := if n > 0 then n - 1 else n + 1;
      PowerAdds(t, m, less);
      PowerStep(t, m + less);
      PowerStep(t, less);
      ProductsReorder(Power(t, m), Power(t, less), t);
    }
  }

  lemma PowerZero(t: Positive)
    ensures Power(t, 0) == 1.0
  {
  }

  lemma OnlyReciprocal(a: Positive, b: Positive)
    requires Product(a, b) == 1.0
    ensures b == Reciprocal(a)
  {
  }

  lemma PowerNegates(t: Positive, n: int)
    ensures Power(t, -n) == Reciprocal(Power(t, n))
  {
    hide Power;
    PowerAdds(t, n, -n);
    assert Power(t, 0) == 1.0 by { PowerZero(t); }
    OnlyReciprocal(Power(t, n), Power(t, -n));
  }

  /** Different powers of two differ. */
  lemma {:induction false} PowerOfTwo(n: int)
    ensures n > 0 ==> Power(2.0, n) > 1.0
    ensures n < 0 ==> Power(2.0, n) < 1.0
    decreases if n < 0 then -n else n
  {
    if n > 0 {
      PowerOfTwo(n - 1);
    } else if n < 0 {
      PowerOfTwo(n + 1);
    }
  }

  lemma PowerOfTwoInjective(m: int, n: int)
    requires Power(2.0, m) == Power(2.0, n)
    ensures m == n
  {
    hide Power;
    PowerAdds(2.0, m, -n);
    PowerNegates(2.0, n);
    PowerOfTwo(m - n);
    assert Product(Power(2.0, m), Reciprocal(Power(2.0, m))) == 1.0;
  }

  /** Worth `t` for one currency and one for every other. */
  function Spike(x: Currency, t: Positive): Valuation {
    (c: Currency) => if c == x then t else 1.0
  }

  /** When one currency alone has a worth, the price is that worth to its net exponent. */
  lemma {:induction false} SpikePrice(route: seq<CurrencyPair>, x: Currency, t: Positive)
    requires route != []
    ensures RoutePrice(route, Spike(x, t)) == Power(t, NetExponent(route, x))
    decreases |route|
  {
    var init, q := route[..|route| - 1], route[|route| - 1];
    SpikeRatio(q, x, t);
    if |route| > 1 {
      SpikePrice(init, x, t);
      var p := ReducePairs(init);
      var left, right := NetExponent(init, x), PairExponent(q, x);
      PowerNegates(t, left);
      PowerNegates(t, right);
      PowerAdds(t, if InvertsLeft(p, q) then -left else left, if InvertsRight(p, q) then -right else right);
    }
  }

  lemma SpikeRatio(q: CurrencyPair, x: Currency, t: Positive)
    ensures Ratio(Spike(x, t)(q.base), Spike(x, t)(q.quote)) == Power(t, PairExponent(q, x))
  {
    PowerStep(t, 0);
  }

  /** The valuation on some names, and one elsewhere. */
  function Restrict(v: Valuation, names: set<Currency>): Valuation {
    (c: Currency) => if c in names then v(c) else 1.0
  }

  /** Routes with the same net exponents have the same price under every valuation. */
  lemma {:induction false} SameExponentsSamePrice(
    a: seq<CurrencyPair>, b: seq<CurrencyPair>, names: set<Currency>, some: set<Currency>, v: Valuation)
    requires a != [] && b != [] && NamesOf(a, names) && NamesOf(b, names) && some <= names
    requires forall c :: NetExponent(a, c) == NetExponent(b, c)
    ensures RoutePrice(a, Restrict(v, some)) == RoutePrice(b, Restrict(v, some))
    decreases some
  {
    hide RoutePrice, Product;
    var u := Restrict(v, some);
    if some == {} {
      ProductByOne();
      RoutePriceSplits(a, names, u, u, u);
      RoutePriceSplits(b, names, u, u, u);
      OnlyOneIsItsSquare(RoutePrice(a, u));
      OnlyOneIsItsSquare(RoutePrice(b, u));
    } else {
      var x :| x in some;
      var w, spike := Restrict(v, some - {x}), Spike(x, v(x));
      SameExponentsSamePrice(a, b, names, some - {x}, v);
      forall c
        ensures u(c) == Product(w(c), spike(c))
      {
        ProductByOne();
      }
      RoutePriceSplits(a, names, u, w, spike);
      RoutePriceSplits(b, names, u, w, spike);
      SpikePrice(a, x, v(x));
      SpikePrice(b, x, v(x));
    }
  }

  lemma OnlyOneIsItsSquare(p: Positive)
    requires p == Product(p, p)
    ensures p == 1.0
  {
    assert p * (p - 1.0) == 0.0;
  }

  lemma ProductByOne()
    ensures forall p: Positive :: Product(p, 1.0) == p && Product(1.0, p) == p
  {
  }

  function Names(route: seq<CurrencyPair>): set<Currency> {
    (set p | p in route :: p.base) + (set p | p in route :: p.quote)
  }

  lemma PriceByExponents(a: seq<CurrencyPair>, b: seq<CurrencyPair>, v: Valuation)
    requires a != [] && b != [] && forall c :: NetExponent(a, c) == NetExponent(b, c)
    ensures RoutePrice(a, v) == RoutePrice(b, v)
  {
    hide RoutePrice, NetExponent, Product;
    var names := Names(a) + Names(b);
    var u, ones := Restrict(v, names), Restrict(v, {});
    SameExponentsSamePrice(a, b, names, names, v);
    SameExponentsSamePrice(a, b, names, {}, v);
    ProductByOne();
    RoutePriceSplits(a, names, v, u, ones);
    RoutePriceSplits(b, names, v, u, ones);
  }

  function Quotes(route: seq<CurrencyPair>, v: Valuation): seq<PairAndPrice> {
    seq(|route|, i requires 0 <= i < |route| => PairAndPrice(route[i], Ratio(v(route[i].base), v(route[i].quote))))
  }

  /** What is reported is right exactly when the reduced pair is the configured one and the reduced price is true of it. */
  lemma ReportsExactly(prices: seq<PairAndPrice>, pair: CurrencyPair, v: Valuation)
    requires prices != [] && QuotesTrue(prices, v)
    ensures var p := ReducePairs(PairsOf(prices));
            Reports(prices, pair, v) <==>
            Connects(p, pair.base, pair.quote) && RoutePrice(PairsOf(prices), v) == Ratio(v(p.base), v(p.quote))
  {
    hide RoutePrice, ReducePairs, ReduceRoute;
    ReducesToRoutePrice(prices, v);
    var reduced := ReduceRoute(prices);
    if TrueAt(reduced, v) {
      InvertKeepsTruth(reduced, v);
    }
    if TrueAt(Invert(reduced), v) {
      InvertKeepsTruth(Invert(reduced), v);
      assert Reciprocal(Reciprocal(reduced.price)) == reduced.price;
    }
  }

  /**
   Exactly when a route serves the configured pair, for every route, accepted or not: it reduces to that
   pair, either way round, and along it every other currency cancels.
   */
  lemma RouteServesPair(route: seq<CurrencyPair>, pair: CurrencyPair)
    ensures Serves(route, pair) <==>
            route != [] && Connects(ReducePairs(route), pair.base, pair.quote) && Cancels(route)
  {
    if route == [] {
      EmptyRouteServesNothing(pair);
    } else {
      if Serves(route, pair) {
        ServingRouteCancels(route, pair);
      }
      if Connects(ReducePairs(route), pair.base, pair.quote) && Cancels(route) {
        CancellingRouteServes(route, pair);
      }
    }
  }

  lemma EmptyRouteServesNothing(pair: CurrencyPair)
    ensures !Serves([], pair)
  {
    assert PairsOf([]) == [];
    assert QuotesTrue([], Spike("", 1.0)) && !Reports([], pair, Spike("", 1.0));
  }

  lemma ServingRouteCancels(route: seq<CurrencyPair>, pair: CurrencyPair)
    requires route != [] && Serves(route, pair)
    ensures Connects(ReducePairs(route), pair.base, pair.quote) && Cancels(route)
  {
    hide RoutePrice, NetExponent, ReducePairs, Reports, Connects;
    var p := ReducePairs(route);
    forall c
      ensures NetExponent(route, c) == PairExponent(p, c) && Connects(p, pair.base, pair.quote)
    {
      var v := Spike(c, 2.0);
      var prices := Quotes(route, v);
      assert PairsOf(prices) == route && QuotesTrue(prices, v) && Reports(prices, pair, v);
      ReportsExactly(prices, pair, v);
      SpikePrice(route, c, 2.0);
      SpikeRatio(p, c, 2.0);
      PowerOfTwoInjective(NetExponent(route, c), PairExponent(p, c));
    }
    assert NetExponent(route, "") == PairExponent(p, "");
  }

  lemma CancellingRouteServes(route: seq<CurrencyPair>, pair: CurrencyPair)
    requires route != [] && Connects(ReducePairs(route), pair.base, pair.quote) && Cancels(route)
    ensures Serves(route, pair)
  {
    hide RoutePrice, ReducePairs, Reports, Connects;
    var p := ReducePairs(route);
    forall prices, v | PairsOf(prices) == route && QuotesTrue(prices, v)
      ensures Reports(prices, pair, v)
    {
      PriceByExponents(route, [p], v);
      assert RoutePrice([p], v) == Ratio(v(p.base), v(p.quote)) by { SinglePrice(p, v); }
      ReportsExactly(prices, pair, v);
    }
  }

  lemma SinglePrice(p: CurrencyPair, v: Valuation)
    ensures RoutePrice([p], v) == Ratio(v(p.base), v(p.quote))
  {
  }

  // ---- a check by counting

  /** How many pairs of the route name the currency, twice for a pair of it with itself. */
  function Uses(route: seq<CurrencyPair>, c: Currency): nat {
    if route == [] then 0
    else
      var q := route[|route| - 1];
      Uses(route[..|route| - 1], c) + (if q.base == c then 1 else 0) + (if q.quote == c then 1 else 0)
  }

  /** The pair's currencies are named an odd number of times, all others an even number. */
  ghost predicate OddEnds(route: seq<CurrencyPair>, pair: CurrencyPair) {
    forall c :: Uses(route, c) % 2 == 1 <==> c == pair.base || c == pair.quote
  }

  lemma {:induction false} NetParity(route: seq<CurrencyPair>, c: Currency)
    requires route != []
    ensures (NetExponent(route, c) - Uses(route, c)) % 2 == 0
    decreases |route|
  {
    if |route| > 1 {
      NetParity(route[..|route| - 1], c);
    }
  }

  lemma {:induction false} JoinedCancels(route: seq<CurrencyPair>, c: Currency)
    requires route != [] && Joined(route)
    ensures NetExponent(route, c) == PairExponent(ReducePairs(route), c)
    decreases |route|
  {
    if |route| > 1 {
      JoinedCancels(route[..|route| - 1], c);
    }
  }

  /**
   The check by counting: no route serves a pair unless just the pair's two currencies are named an odd
   number of times; for a joined route that is enough.
   */
  lemma JoinedRouteServesPair(route: seq<CurrencyPair>, pair: CurrencyPair)
    requires route != [] && pair.base != pair.quote
    ensures Serves(route, pair) ==> OddEnds(route, pair)
    ensures Joined(route) ==> (Serves(route, pair) <==> OddEnds(route, pair))
  {
    hide NetExponent, Uses, ReducePairs, Joined;
    RouteServesPair(route, pair);
    var p := ReducePairs(route);
    forall c
      ensures Cancels(route) ==> (Uses(route, c) % 2 == 1 <==> PairExponent(p, c) % 2 == 1)
      ensures Joined(route) ==> NetExponent(route, c) == PairExponent(p, c)
    {
      NetParity(route, c);
      if Joined(route) {
        JoinedCancels(route, c);
      }
    }
    if Joined(route) && OddEnds(route, pair) {
      assert Cancels(route);
      assert PairExponent(p, pair.base) % 2 == 1 && PairExponent(p, pair.quote) % 2 == 1;
    }
  }

  lemma ThreeHops(p: CurrencyPair, q: CurrencyPair, r: CurrencyPair, v: Valuation)
    ensures var two, three := Quotes([p, q], v), Quotes([p, q, r], v);
            && ReduceRoute(two) == Reduce(Quotes([p], v)[0], Quotes([q], v)[0])
            && ReduceRoute(three) == Reduce(ReduceRoute(two), Quotes([r], v)[0])
    ensures FirstGap([p, q, r]) == if !HasShared(p, q) then Some(NoPath(p, q)) else FirstGap([q, r])
    ensures FirstGap([q, r]) == if !HasShared(q, r) then Some(NoPath(q, r)) else None
    ensures Joined([p, q, r]) ==> Shares(ReducePairs([p, q]), r)
    ensures ReducePairs([p, q]) == Reduce(Quotes([p], v)[0], Quotes([q], v)[0]).pair
  {
    var two, three := Quotes([p, q], v), Quotes([p, q, r], v);
    assert three[..2] == two && two[..1] == Quotes([p], v);
    assert [p, q, r][..2] == [p, q] && [p, q][..1] == [p];
    assert [p, q, r][1..] == [q, r] && [q, r][1..] == [r];
  }

  /**
   Worse than a wrong pair: the route A/X, X/Y, X/B is accepted for A/B and reports that pair at a price that
   is false as soon as X and Y are not worth the same.
   */
  lemma AcceptedRouteMisprices(a: Currency, b: Currency, x: Currency, y: Currency, v: Valuation)
    requires a != b && a != x && a != y && b != x && b != y && x != y && v(x) != v(y)
    ensures var pair, route := CurrencyPair(a, b), [CurrencyPair(a, x), CurrencyPair(x, y), CurrencyPair(x, b)];
            var reported := GetPrice(Quotes(route, v), pair).value;
            && ValidateRoute(pair, route) == Ok(()) && !Joined(route) && !Serves(route, pair)
            && QuotesTrue(Quotes(route, v), v) && reported.pair == pair && !TrueAt(reported, v)
  {
    hide Joined, FirstGap, ReduceRoute, ReducePairs, Strip;
    var pair, route := CurrencyPair(a, b), [CurrencyPair(a, x), CurrencyPair(x, y), CurrencyPair(x, b)];
    ThreeHops(route[0], route[1], route[2], v);
    var reported := GetPrice(Quotes(route, v), pair).value;
    assert reported == PairAndPrice(pair, Product(Product(Ratio(v(a), v(x)), Ratio(v(x), v(y))), Ratio(v(x), v(b))));
    DriftedPrice(v(a), v(b), v(x), v(y));
    assert PairsOf(Quotes(route, v)) == route && QuotesTrue(Quotes(route, v), v) && !Reports(Quotes(route, v), pair, v);
  }

  lemma DriftedPrice(a: Positive, b: Positive, x: Positive, y: Positive)
    requires x != y
    ensures Product(Product(Ratio(a, x), Ratio(x, y)), Ratio(x, b)) != Ratio(a, b)
  {
    var wrong := a / x * (x / y) * (x / b);
    assert a / x * (x / y) == a / y by { RatiosCompose(a, x, y); }
    assert wrong * (y * b) == (a / y * y) * (x / b * b);
    assert a / b * (y * b) == a * y;
    assert a * x != a * y;
  }

  lemma OneMoreHop(init: seq<CurrencyPair>, q: CurrencyPair, c: Currency)
    requires init != []
    ensures var p, longer := ReducePairs(init), init + [q];
            && ReducePairs(longer) ==
                 CurrencyPair(if InvertsLeft(p, q) then p.quote else p.base, if InvertsRight(p, q) then q.base else q.quote)
            && NetExponent(longer, c) ==
                 (if InvertsLeft(p, q) then -NetExponent(init, c) else NetExponent(init, c))
                 + (if InvertsRight(p, q) then -PairExponent(q, c) else PairExponent(q, c))
            && (Joined(longer) <==> Joined(init) && Shares(p, q))
  {
    assert (init + [q])[..|init|] == init;
  }

  /** Being joined is not necessary: errors of several hops can cancel each other. */
  lemma UnjoinedRouteServes(a: Currency, b: Currency, x: Currency, y: Currency)
    requires a != b && a != x && a != y && b != x && b != y && x != y
    ensures var pair := CurrencyPair(a, b);
            var route := [CurrencyPair(x, a)] + [CurrencyPair(x, y)] + [CurrencyPair(x, b)] + [CurrencyPair(x, b)] + [CurrencyPair(y, b)];
            ValidateRoute(pair, route) == Ok(()) && !Joined(route) && Serves(route, pair)
  {
    hide ReducePairs, NetExponent, Joined;
    var pair := CurrencyPair(a, b);
    var r1 := [CurrencyPair(x, a)];
    var r2 := r1 + [CurrencyPair(x, y)];
    var r3 := r2 + [CurrencyPair(x, b)];
    var r4 := r3 + [CurrencyPair(x, b)];
    var route := r4 + [CurrencyPair(y, b)];
    forall c
      ensures NetExponent(route, c) == PairExponent(ReducePairs(route), c)
      ensures !Joined(route) && Connects(ReducePairs(route), a, b)
    {
      assert NetExponent(r1, c) == PairExponent(r1[0], c) && ReducePairs(r1) == r1[0] by { SingleHop(r1[0], c); }
      OneMoreHop(r1, CurrencyPair(x, y), c);
      OneMoreHop(r2, CurrencyPair(x, b), c);
      OneMoreHop(r3, CurrencyPair(x, b), c);
      OneMoreHop(r4, CurrencyPair(y, b), c);
    }
    assert NetExponent(route, "") == PairExponent(ReducePairs(route), "");
    RouteServesPair(route, pair);
    FirstGapExact(route);
  }

  lemma SingleHop(p: CurrencyPair, c: Currency)
    ensures NetExponent([p], c) == PairExponent(p, c) && ReducePairs([p]) == p
  {
  }
}
