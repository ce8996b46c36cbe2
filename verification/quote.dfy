/** The instant quote calculator: wall width and height in feet and two unit
    prices (currency per square foot) give a wall area, a material cost, an
    installation cost and a total.

    Numbers are exact reals, not IEEE doubles. A text field's content is
    represented by what `parseFloat` makes of it: `Some(v)` for a number and
    `None` for a blank or unparsable entry (NaN). */
module QuoteCalculator {
  import opened Wrappers

  /** Unit prices the calculator starts with. */
  const DefaultPrice: real := 150.0
  const DefaultInstall: real := 40.0

  /** The calculator's state: the parsed width and height fields, and the two
      unit prices, which are stored already coerced to numbers. */
  datatype Inputs = Inputs(width: Option<real>, height: Option<real>, price: real, install: real)

  /** The derived figures shown in the estimate panel. */
  datatype Estimate = Estimate(area: real, materialCost: int, installCost: int, total: int)

  /** `parseFloat(text) || 0`: NaN (and 0 itself) become 0. The result is 0
      exactly when the entry is unparsable or zero, and any other result is
      the parsed number. */
  function Coerce(parsed: Option<real>): (r: real)
    ensures r == 0.0 <==> parsed.None? || parsed == Some(0.0)
    ensures r != 0.0 ==> parsed == Some(r)
  {
    parsed.GetOr(0.0)
  }

  /** `Math.round`: the nearest integer, with halves going up (towards
      positive infinity). */
  function Round(x: real): (r: int)
    ensures x - 0.5 < r as real <= x + 0.5
  {
    (x + 0.5).Floor
  }

  /** The state on first render: both dimension fields blank. */
  const Initial: Inputs := Inputs(None, None, DefaultPrice, DefaultInstall)

  /** Typing into the width field: the text is kept, its parse is used later. */
  function SetWidth(s: Inputs, parsed: Option<real>): (r: Inputs)
    ensures r.width == parsed
    ensures r.height == s.height && r.price == s.price && r.install == s.install
  {
    s.(width := parsed)
  }

  /** Typing into the height field. */
  function SetHeight(s: Inputs, parsed: Option<real>): (r: Inputs)
    ensures r.height == parsed
    ensures r.width == s.width && r.price == s.price && r.install == s.install
  {
    s.(height := parsed)
  }

  /** Typing into the wallpaper unit price field: the entry is coerced on the
      way in, so an unparsable entry is stored as 0. */
  function SetPrice(s: Inputs, parsed: Option<real>): (r: Inputs)
    ensures parsed.None? ==> r.price == 0.0
    ensures parsed.Some? ==> r.price == parsed.value
    ensures r.width == s.width && r.height == s.height && r.install == s.install
  {
    s.(price := Coerce(parsed))
  }

  /** Typing into the installation unit price field. */
  function SetInstall(s: Inputs, parsed: Option<real>): (r: Inputs)
    ensures parsed.None? ==> r.install == 0.0
    ensures parsed.Some? ==> r.install == parsed.value
    ensures r.width == s.width && r.height == s.height && r.price == s.price
  {
    s.(install := Coerce(parsed))
  }

  /** The figures computed from the numeric inputs: the area is not rounded,
      each cost is rounded on its own, and the total adds the rounded costs. */
  function Compute(w: real, h: real, price: real, install: real): (e: Estimate)
    ensures e.area == w * h
    ensures e.area * price - 0.5 < e.materialCost as real <= e.area * price + 0.5
    ensures e.area * install - 0.5 < e.installCost as real <= e.area * install + 0.5
    ensures e.total == e.materialCost + e.installCost
    ensures e.area * (price + install) - 1.0 < e.total as real <= e.area * (price + install) + 1.0
  {
    var area := w * h;
    var material := Round(area * price);
    var installation := Round(area * install);
    Estimate(area, material, installation, material + installation)
  }

  /** The estimate panel for a calculator state. */
  function QuoteOf(s: Inputs): (e: Estimate)
    ensures s.width.None? || s.height.None? ==> e == Estimate(0.0, 0, 0, 0)
    ensures s.width.Some? && s.height.Some? ==> e.area == s.width.value * s.height.value
    ensures e.total == e.materialCost + e.installCost
  {
    Compute(Coerce(s.width), Coerce(s.height), s.price, s.install)
  }

  /** Any integer within half a unit of x (upper end included) is Round(x):
      the rounding contract determines the result. */
  lemma RoundUnique(x: real, n: int)
    requires x - 0.5 < n as real <= x + 0.5
    ensures n == Round(x)
  {
  }

  /** Rounding never reverses the order of its arguments. */
  lemma RoundMonotone(x: real, y: real)
    requires x <= y
    ensures Round(x) <= Round(y)
  {
  }

  /** A zero dimension gives zero area and zero costs whatever the unit prices. */
  lemma ZeroAreaIsFree(w: real, h: real, price: real, install: real)
    requires w == 0.0 || h == 0.0
    ensures Compute(w, h, price, install) == Estimate(0.0, 0, 0, 0)
  {
  }

  /** With non-negative figures, raising any input (or several) never lowers
      the total. */
  lemma TotalMonotone(w: real, h: real, p: real, q: real, w': real, h': real, p': real, q': real)
    requires 0.0 <= w <= w' && 0.0 <= h <= h' && 0.0 <= p <= p' && 0.0 <= q <= q'
    ensures Compute(w, h, p, q).total <= Compute(w', h', p', q').total
    ensures Compute(w, h, p, q).materialCost <= Compute(w', h', p', q').materialCost
    ensures Compute(w, h, p, q).installCost <= Compute(w', h', p', q').installCost
  {
    var a, a' := w * h, w' * h';
    ProductMonotone(w, h, w', h');
    CostMonotone(a, p, a', p');
    CostMonotone(a, q, a', q');
    assert Compute(w, h, p, q) == Estimate(a, Round(a * p), Round(a * q), Round(a * p) + Round(a * q));
    assert Compute(w', h', p', q') == Estimate(a', Round(a' * p'), Round(a' * q'), Round(a' * p') + Round(a' * q'));
  }

  /** A rounded cost grows with both the area and the unit price. */
  lemma CostMonotone(a: real, p: real, a': real, p': real)
    requires 0.0 <= a <= a' && 0.0 <= p <= p'
    ensures Round(a * p) <= Round(a' * p')
  {
    ProductMonotone(a, p, a', p');
    RoundMonotone(a * p, a' * p');
  }

  lemma ProductMonotone(x: real, y: real, x': real, y': real)
    requires 0.0 <= x <= x' && 0.0 <= y <= y'
    ensures 0.0 <= x * y <= x' * y'
  {
    assert x * y <= x' * y by {
      assert (x' - x) * y >= 0.0;
    }
    assert x' * y <= x' * y' by {
      assert x' * (y' - y) >= 0.0;
    }
  }

  /** Width 10 and height 8 typed into a fresh calculator, at the default
      prices: area 80, material 12000, installation 3200, total 15200. */
  lemma DefaultPricesExample()
    ensures QuoteOf(SetHeight(SetWidth(Initial, Some(10.0)), Some(8.0)))
         == Estimate(80.0, 12000, 3200, 15200)
  {
    assert Round(12000.0) == 12000;
    assert Round(3200.0) == 3200;
  }

  /** On first render, and with only a height entered, the estimate is all zero. */
  lemma BlankWidthExample()
    ensures QuoteOf(Initial) == Estimate(0.0, 0, 0, 0)
    ensures QuoteOf(SetHeight(Initial, Some(5.0))) == Estimate(0.0, 0, 0, 0)
  {
  }

  /** A half goes up: one square foot at 150.5 costs 151. */
  lemma HalfGoesUpExample()
    ensures QuoteOf(Inputs(Some(1.0), Some(1.0), 150.5, 0.0)) == Estimate(1.0, 151, 0, 151)
  {
    assert Round(150.5) == 151;
    assert Round(0.0) == 0;
  }

  /** Rounding before adding is observable: one square foot at 0.5 + 0.5
      totals 2, while rounding the combined product would give 1. */
  lemma RoundThenAddExample()
    ensures QuoteOf(Inputs(Some(1.0), Some(1.0), 0.5, 0.5)).total == 2
    ensures Round(1.0 * (0.5 + 0.5)) == 1
  {
    assert Round(0.5) == 1;
    assert Round(1.0) == 1;
  }

  /** A negative half rounds up too (towards positive infinity), not away
      from zero: a negative area is reachable by typing a negative width. */
  lemma NegativeHalfExample()
    ensures QuoteOf(Inputs(Some(-5.0), Some(0.5), 1.0, 0.0)).materialCost == -2
  {
    assert Round(-2.5) == -2;
  }
}
