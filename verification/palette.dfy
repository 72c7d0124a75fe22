/** The damage palette: an ordered table of colour stops ending in a NaN
    sentinel whose colour is the background, the piecewise-linear lookup of a
    change value, and the background lookup. */
module Palette {
  import opened Common

  /** An 8-bit-per-channel colour as stored in the table. */
  datatype Rgb8 = Rgb8(r: U8, g: U8, b: U8)

  /** A colour with real channels, nominally in [0, 1], as handed to the
      drawing library. */
  datatype Rgb = Rgb(r: real, g: real, b: real)

  /** A palette entry: its stop value (None stands for the NaN sentinel) and
      its colour. */
  datatype PaletteEntry = PaletteEntry(v: Option<real>, colour: Rgb8)

  /** The table the tool draws with: light grey at 0, mid grey at 0.5, dark
      grey at 0.75, blue at 1, and white as the sentinel's background. */
  const PALETTE: seq<PaletteEntry> := [
    PaletteEntry(Some(0.0), Rgb8(242, 242, 242)),
    PaletteEntry(Some(0.5), Rgb8(153, 153, 153)),
    PaletteEntry(Some(0.75), Rgb8(64, 64, 64)),
    PaletteEntry(Some(1.0), Rgb8(0, 0, 255)),
    PaletteEntry(None, Rgb8(255, 255, 255))
  ]

  /** At least two real stops in strictly increasing order, then exactly one
      sentinel, at the end. */
  predicate WellFormed(p: seq<PaletteEntry>) {
    && |p| >= 3
    && p[|p| - 1].v.None?
    && (forall i :: 0 <= i < |p| - 1 ==> p[i].v.Some?)
    && (forall i, j :: 0 <= i < j < |p| - 1 ==> p[i].v.value < p[j].v.value)
  }

  /** Index of the last real stop. */
  function LastStop(p: seq<PaletteEntry>): nat
    requires WellFormed(p)
  {
    |p| - 2
  }

  function Value(p: seq<PaletteEntry>, i: nat): real
    requires WellFormed(p) && i <= LastStop(p)
  {
    p[i].v.value
  }

  lemma PaletteWellFormed()
    ensures WellFormed(PALETTE)
    ensures Value(PALETTE, 0) == 0.0
    ensures Value(PALETTE, LastStop(PALETTE)) == 1.0
  {
  }

  /** A table colour scaled to [0, 1]. */
  function ToUnit(c: Rgb8): Rgb {
    Rgb(c.r as real / 255.0, c.g as real / 255.0, c.b as real / 255.0)
  }

  /** The search loop of set_damage_colour from stop `i` on: the first stop
      whose value is at least d. */
  function FindEnd(p: seq<PaletteEntry>, d: real, i: nat): (e: nat)
    requires WellFormed(p) && 1 <= i <= LastStop(p) && d <= Value(p, LastStop(p))
    ensures i <= e <= LastStop(p)
    ensures d <= Value(p, e)
    ensures forall k :: i <= k < e ==> Value(p, k) < d
    decreases LastStop(p) - i
  {
    if d <= Value(p, i) then i else FindEnd(p, d, i + 1)
  }

  /** The end stop selected for change value d: d is clamped to at least 0,
      and the end is the first stop i >= 1 with d <= v_i. */
  function EndStop(p: seq<PaletteEntry>, d: real): (e: nat)
    requires WellFormed(p) && Max(0.0, d) <= Value(p, LastStop(p))
    ensures 1 <= e <= LastStop(p)
    ensures Max(0.0, d) <= Value(p, e)
    ensures forall k :: 1 <= k < e ==> Value(p, k) < Max(0.0, d)
  {
    FindEnd(p, Max(0.0, d), 1)
  }

  /** The interpolation fraction of d between the start and end stops. */
  function Fraction(p: seq<PaletteEntry>, d: real): (x: real)
    requires WellFormed(p) && Max(0.0, d) <= Value(p, LastStop(p))
    ensures Value(p, 0) <= Max(0.0, d) ==> 0.0 <= x <= 1.0
  {
    var e := EndStop(p, d);
    var lo := Value(p, e - 1);
    var hi := Value(p, e);
    FractionInUnit(lo, Max(0.0, d), hi);
    (Max(0.0, d) - lo) / (hi - lo)
  }

  /** One channel blended from start value a to end value b by fraction x,
      scaled to [0, 1]. */
  function Blend(x: real, a: U8, b: U8): real {
    Mix(x, a as real, b as real) / 255.0
  }

  /** Linear interpolation from lo (x = 0) to hi (x = 1). */
  function Mix(x: real, lo: real, hi: real): real {
    x * hi + (1.0 - x) * lo
  }

  /** v lies between a / 255 and b / 255, whichever order they come in. */
  predicate Between(v: real, a: U8, b: U8) {
    if a <= b then a as real / 255.0 <= v <= b as real / 255.0
    else b as real / 255.0 <= v <= a as real / 255.0
  }

  predicate InUnit(c: Rgb) {
    0.0 <= c.r <= 1.0 && 0.0 <= c.g <= 1.0 && 0.0 <= c.b <= 1.0
  }

  /** Stop values never decrease along the table. */
  lemma ValueMonotone(p: seq<PaletteEntry>, i: nat, j: nat)
    requires WellFormed(p) && i <= j <= LastStop(p)
    ensures Value(p, i) <= Value(p, j)
  {
  }

  /** If segment (v_{i-1}, v_i] holds the clamped value, the end stop is i.
      EndStopExactly gives the converse. */
  lemma EndStopAt(p: seq<PaletteEntry>, d: real, i: nat)
    requires WellFormed(p) && 1 <= i <= LastStop(p)
    requires Value(p, i - 1) < Max(0.0, d) <= Value(p, i)
    ensures InRange(p, d) && EndStop(p, d) == i
  {
    ValueMonotone(p, i, LastStop(p));
    var e := EndStop(p, d);
    assert p[e].v.value >= Max(0.0, d) > p[i - 1].v.value;
  }

  /** The end stop is i exactly when the clamped value is at most v_i and,
      for i > 1, above v_{i-1}. The search starts at stop 1, so its segment
      is closed below: stop 1 also takes every value at or below v_0. */
  lemma EndStopExactly(p: seq<PaletteEntry>, d: real, i: nat)
    requires WellFormed(p) && 1 <= i <= LastStop(p)
    requires Max(0.0, d) <= Value(p, LastStop(p))
    ensures EndStop(p, d) == i <==>
      Max(0.0, d) <= Value(p, i) && (i == 1 || Value(p, i - 1) < Max(0.0, d))
  {
    var e := EndStop(p, d);
    if Max(0.0, d) <= Value(p, i) && (i == 1 || Value(p, i - 1) < Max(0.0, d)) {
      if e < i {
        ValueMonotone(p, e, i - 1);
      }
    }
  }

  /** Whether change value d (clamped to at least 0) lies within the
      palette's last real stop, so that the search finds an end stop. */
  predicate InRange(p: seq<PaletteEntry>, d: real)
    requires WellFormed(p)
  {
    Max(0.0, d) <= Value(p, LastStop(p))
  }

  /** set_damage_colour: the colour for change value d, interpolated
      linearly between the start and end stops of its segment. Beyond the
      last stop the search runs into the sentinel with start and end both at
      the last stop: the fraction's denominator is 0 and its numerator
      positive, so the fraction is +infinity and each channel is NaN
      (infinity * 0 where the stop's channel is 0, infinity - infinity
      otherwise), modelled as None. For any d from the first stop up to the
      last, each channel lies between the start and end stops' channels. */
  function DamageColour(p: seq<PaletteEntry>, d: real): (c: Option<Rgb>)
    requires WellFormed(p)
    ensures c.Some? <==> InRange(p, d)
    ensures c.Some? && Value(p, 0) <= Max(0.0, d) ==>
      var e := EndStop(p, d);
      && Between(c.value.r, p[e - 1].colour.r, p[e].colour.r)
      && Between(c.value.g, p[e - 1].colour.g, p[e].colour.g)
      && Between(c.value.b, p[e - 1].colour.b, p[e].colour.b)
    ensures c.Some? && Value(p, 0) <= Max(0.0, d) ==> InUnit(c.value)
  {
    if !InRange(p, d) then None
    else
      var e := EndStop(p, d);
      var x := Fraction(p, d);
      var start := p[e - 1].colour;
      var end := p[e].colour;
      if Value(p, 0) <= Max(0.0, d) then
        BlendBetween(x, start.r, end.r);
        BlendBetween(x, start.g, end.g);
        BlendBetween(x, start.b, end.b);
        Some(Rgb(Blend(x, start.r, end.r), Blend(x, start.g, end.g), Blend(x, start.b, end.b)))
      else
        Some(Rgb(Blend(x, start.r, end.r), Blend(x, start.g, end.g), Blend(x, start.b, end.b)))
  }

  /** At every real stop i >= 1 (with a non-negative value) the palette
      yields exactly that stop's colour. */
  lemma DamageColourAtStop(p: seq<PaletteEntry>, i: nat)
    requires WellFormed(p) && 1 <= i <= LastStop(p) && 0.0 <= Value(p, i)
    ensures DamageColour(p, Value(p, i)) == Some(ToUnit(p[i].colour))
  {
    ValueMonotone(p, i, LastStop(p));
    EndStopAt(p, Value(p, i), i);
    var lo := Value(p, i - 1);
    assert Fraction(p, Value(p, i)) == 1.0 by {
      SelfQuotient(Value(p, i) - lo);
    }
  }

  /** When the first stop is 0, a change of 0 (or anything clamped to 0)
      yields exactly the first stop's colour. */
  lemma DamageColourAtZero(p: seq<PaletteEntry>, d: real)
    requires WellFormed(p) && Value(p, 0) == 0.0 && d <= 0.0
    ensures DamageColour(p, d) == Some(ToUnit(p[0].colour))
  {
    assert Value(p, 0) < Value(p, 1);
    ValueMonotone(p, 1, LastStop(p));
    assert EndStop(p, d) == 1;
    assert Fraction(p, d) == 0.0;
  }

  /** Halfway between two adjacent non-negative stops the palette yields the
      mean of their channels. */
  lemma DamageColourHalfway(p: seq<PaletteEntry>, i: nat)
    requires WellFormed(p) && 1 <= i <= LastStop(p) && 0.0 <= Value(p, i - 1)
    ensures
      var c := DamageColour(p, (Value(p, i - 1) + Value(p, i)) / 2.0);
      var a := p[i - 1].colour;
      var b := p[i].colour;
      && c.Some?
      && c.value.r == (a.r + b.r) as real / 510.0
      && c.value.g == (a.g + b.g) as real / 510.0
      && c.value.b == (a.b + b.b) as real / 510.0
  {
    var lo := Value(p, i - 1);
    var hi := Value(p, i);
    var d := (lo + hi) / 2.0;
    assert lo < d < hi;
    ValueMonotone(p, i, LastStop(p));
    EndStopAt(p, d, i);
    assert Fraction(p, d) == 0.5 by {
      assert d - lo == (hi - lo) / 2.0;
      HalfQuotient(hi - lo);
    }
  }

  /** Past the last real stop the colour is undefined (NaN in the C code). */
  lemma DamageColourBeyondLastStop(p: seq<PaletteEntry>, d: real)
    requires WellFormed(p) && d > Value(p, LastStop(p))
    ensures DamageColour(p, d).None?
  {
  }

  /** The search loop of set_background_colour from entry `i` on: the first
      entry whose value is NaN. */
  function FindSentinel(p: seq<PaletteEntry>, i: nat): (k: nat)
    requires i <= |p| && exists j :: i <= j < |p| && p[j].v.None?
    ensures i <= k < |p| && p[k].v.None?
    ensures forall j :: i <= j < k ==> p[j].v.Some?
    decreases |p| - i
  {
    if p[i].v.None? then i else FindSentinel(p, i + 1)
  }

  /** set_background_colour: the colour of the first NaN entry. In a
      well-formed table that is the last entry. */
  function BackgroundColour(p: seq<PaletteEntry>): (c: Rgb)
    requires exists j :: 0 <= j < |p| && p[j].v.None?
    ensures exists k :: (0 <= k < |p| && p[k].v.None? && c == ToUnit(p[k].colour)
                         && forall j :: 0 <= j < k ==> p[j].v.Some?)
    ensures WellFormed(p) ==> c == ToUnit(p[|p| - 1].colour)
  {
    ToUnit(p[FindSentinel(p, 0)].colour)
  }

  // Arithmetic facts over reals, each kept small so the solver proves it
  // without other facts in scope.

  lemma FractionInUnit(lo: real, d: real, hi: real)
    requires lo < hi && d <= hi
    ensures lo <= d ==> 0.0 <= (d - lo) / (hi - lo) <= 1.0
  {
    if lo <= d {
      QuotientInUnit(d - lo, hi - lo);
    }
  }

  lemma QuotientInUnit(n: real, w: real)
    requires w > 0.0 && 0.0 <= n <= w
    ensures 0.0 <= n / w <= 1.0
  {
  }

  lemma SelfQuotient(w: real)
    requires w > 0.0
    ensures w / w == 1.0
  {
  }

  lemma HalfQuotient(w: real)
    requires w > 0.0
    ensures (w / 2.0) / w == 0.5
  {
  }

  lemma BlendBetween(x: real, a: U8, b: U8)
    requires 0.0 <= x <= 1.0
    ensures Between(Blend(x, a, b), a, b)
  {
    if a <= b {
      BlendScaled(x, a as real, b as real);
    } else {
      BlendScaledReversed(x, a as real, b as real);
    }
  }

  lemma BlendScaled(x: real, lo: real, hi: real)
    requires 0.0 <= x <= 1.0 && lo <= hi
    ensures lo / 255.0 <= Mix(x, lo, hi) / 255.0 <= hi / 255.0
  {
    BlendBounds(x, lo, hi);
    ScaleDown(lo, Mix(x, lo, hi), hi);
  }

  lemma BlendScaledReversed(x: real, lo: real, hi: real)
    requires 0.0 <= x <= 1.0 && hi <= lo
    ensures hi / 255.0 <= Mix(x, lo, hi) / 255.0 <= lo / 255.0
  {
    BlendBoundsReversed(x, lo, hi);
    ScaleDown(hi, Mix(x, lo, hi), lo);
  }

  lemma ScaleDown(lo: real, v: real, hi: real)
    requires lo <= v <= hi
    ensures lo / 255.0 <= v / 255.0 <= hi / 255.0
  {
  }

  lemma BlendBounds(x: real, lo: real, hi: real)
    requires 0.0 <= x <= 1.0 && lo <= hi
    ensures lo <= Mix(x, lo, hi) <= hi
  {
    var w := hi - lo;
    ProductBounds(x, w);
    ShiftBounds(lo, x * w, w);
    BlendIsShift(x, lo, hi, w);
  }

  lemma BlendBoundsReversed(x: real, lo: real, hi: real)
    requires 0.0 <= x <= 1.0 && hi <= lo
    ensures hi <= Mix(x, lo, hi) <= lo
  {
    BlendBounds(1.0 - x, hi, lo);
    MixReversed(x, lo, hi);
  }

  lemma MixReversed(x: real, lo: real, hi: real)
    ensures Mix(1.0 - x, hi, lo) == Mix(x, lo, hi)
  {
  }

  lemma ProductBounds(x: real, w: real)
    requires 0.0 <= x <= 1.0 && w >= 0.0
    ensures 0.0 <= x * w <= w
  {
  }

  lemma ShiftBounds(lo: real, t: real, w: real)
    requires 0.0 <= t <= w
    ensures lo <= lo + t <= lo + w
  {
  }

  lemma BlendIsShift(x: real, lo: real, hi: real, w: real)
    requires w == hi - lo
    ensures Mix(x, lo, hi) == lo + x * w
  {
  }
}
