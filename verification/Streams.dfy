/** rnd.c: drawing from the seed table and padding every stream to a fixed number of draws per row. */
module Streams {
  import opened Division
  import opened Modular
  import opened PowerCertificates
  import opened Rnd
  import opened SpeedSeed

  const MAX_STREAM: int := 47
  const MAX_LONG: int := 0x7FFF_FFFF

  /** Which NthElement the build uses: SUPPORT_64BITS or the 32-bit replacement. */
  datatype Form = Form64 | Form32

  /** The options that row_stop looks at; the covered tables come from tdefs. */
  datatype Options = Options(form: Form, setSeeds: bool, table: int, child: int)

  /** One call of RANDOM: the requested stream may lie outside the seed table. */
  datatype Draw = Draw(stream: int, lower: int, upper: int)

  ghost predicate ValidTable(s: seq<Stream>)
  {
    |s| == MAX_STREAM + 1 && forall i :: 0 <= i < |s| ==> HoldsSeed(s[i]) && 0 <= s[i].boundary < M
  }

  // ----- UnifInt and dss_random -----

  /** The share of a range that a seed stands for; long and double are exact here. */
  function Fraction(value: Seed, width: int): real
  {
    (value as real / 2147483647.0) * width as real
  }

  /** The integer that UnifInt scales a seed to. */
  function Scaled(value: Seed, low: int, high: int): (r: int)
    requires low <= high
    ensures low <= r <= high
    ensures M * (r - low) <= value * (high - low + 1) < M * (r - low + 1)
  {
    FloorIsQuotient(value, high - low + 1);
    low + Fraction(value, high - low + 1).Floor
  }

  lemma FloorIsQuotient(value: Seed, range: int)
    requires range > 0
    ensures var q := Fraction(value, range).Floor;
      0 <= q < range && M * q <= value * range < M * (q + 1)
  {
    hide Fraction;
    FractionStaysBelow(value, range);
    FractionScales(value, range);
    FloorScales(Fraction(value, range), value * range);
  }

  lemma FractionStaysBelow(value: Seed, range: int)
    requires range > 0
    ensures 0.0 <= Fraction(value, range) < range as real
  {
    ScaleStaysBelow(value, range as real);
  }

  lemma FractionScales(value: Seed, range: int)
    ensures Fraction(value, range) * 2147483647.0 == (value * range) as real
  {
    var u, w := value as real / 2147483647.0, range as real;
    assert Fraction(value, range) == u * w;
    hide Fraction;
    RealProduct(value, range);
    Rescale(u, w, value as real);
  }

  lemma RealProduct(x: int, y: int)
    ensures (x * y) as real == x as real * y as real
  {
  }

  lemma Rescale(u: real, w: real, v: real)
    requires u * 2147483647.0 == v
    ensures u * w * 2147483647.0 == v * w
  {
  }

  lemma FloorScales(x: real, n: int)
    requires x * 2147483647.0 == n as real
    ensures M * x.Floor <= n < M * (x.Floor + 1)
  {
    var q := x.Floor;
    assert (M * q) as real == q as real * 2147483647.0 && (M * (q + 1)) as real == (q + 1) as real * 2147483647.0;
  }

  /** The bounds of the drawn number fix it. */
  lemma DrawIsDetermined(x: int, q: int, r: int)
    requires M * q <= x < M * (q + 1) && M * r <= x < M * (r + 1)
    ensures q == r
  {
  }

  ghost predicate IsReached(low: int, high: int, r: int)
    requires low <= high
  {
    exists seed: Seed :: Scaled(NextRand(seed), low, high) == r
  }

  /**
   Every number of a range is drawn from some seed if and only if the range has no more numbers than the
   generator has values; of a wider one the first number is never drawn.
   */
  lemma EveryNumberIsDrawn(low: int, high: int)
    requires low <= high
    ensures (forall r :: low <= r <= high ==> IsReached(low, high, r)) <==> high - low + 1 <= N
  {
    hide Scaled, NextRand;
    if high - low + 1 <= N {
      forall r | low <= r <= high
        ensures IsReached(low, high, r)
      {
        var seed := SeedFor(low, high, r);
      }
    } else {
      forall seed: Seed
        ensures Scaled(NextRand(seed), low, high) != low
      {
        WideRangeSkipsLow(NextRand(seed), low, high);
      }
      assert !IsReached(low, high, low);
    }
  }

  lemma WideRangeSkipsLow(value: Seed, low: int, high: int)
    requires low <= high && high - low + 1 > N
    ensures Scaled(value, low, high) != low
  {
    hide Scaled;
    MulMonotone(high - low + 1, 1, value);
  }

  lemma SeedFor(low: int, high: int, r: int) returns (seed: Seed)
    requires low <= r <= high && high - low + 1 <= N
    ensures Scaled(NextRand(seed), low, high) == r
  {
    hide Scaled, NextRand, PreviousRand;
    var k, w := r - low, high - low + 1;
    var v := M * k / w + 1;
    ValueFor(k, w, v);
    seed := PreviousRand(v);
    NextRandIsBijective(v);
    DrawIsDetermined(v * w, Scaled(v, low, high) - low, k);
  }

  lemma ValueFor(k: nat, w: int, v: int)
    requires k < w <= N && v == M * k / w + 1
    ensures 1 <= v <= N && M * k <= v * w < M * (k + 1)
  {
    var x := M * k;
    assert w * (x / w) <= x < w * (x / w) + w;
    assert v * w == w * (x / w) + w;
    assert M * (k + 1) == x + M;
    assert x / w < N by {
      MulMonotone(M, k, w - 1);
      QuotientBelow(x, w, N);
    }
    assert x / w >= 0 by { QuotientIsNatural(x, w); }
  }

  lemma QuotientBelow(x: int, w: int, n: int)
    requires w > 0 && x < n * w
    ensures x / w < n
  {
    if x / w >= n {
      MulMonotone(w, n, x / w);
    }
  }

  lemma QuotientIsNatural(x: nat, w: int)
    requires w > 0
    ensures x / w >= 0
  {
  }

  lemma ScaleStaysBelow(value: Seed, range: real)
    requires range >= 1.0
    ensures 0.0 <= (value as real / 2147483647.0) * range < range
  {
    var x := value as real / 2147483647.0;
    assert 0.0 < x < 1.0;
    assert x * range < 1.0 * range;
    assert 0.0 * range <= x * range;
  }

  // ----- where longs have 32 bits -----

  /** Conversion of a double to a long: towards 0. */
  function Truncated(x: real): (t: int)
  {
    if x >= 0.0 then x.Floor else -(-x).Floor
  }

  /** The last lines of UnifInt with 32-bit longs: the width of the range wraps. */
  function Scaled32(value: Seed, low: int, high: int): (r: int)
  {
    low + Truncated(Fraction(value, Wrapped(high - low + 1)))
  }

  /** A range of up to 2^31 - 1 numbers is safe. */
  lemma NarrowRangeFits(value: Seed, low: int, high: int)
    requires low <= high && high - low + 1 < 0x8000_0000
    ensures Scaled32(value, low, high) == Scaled(value, low, high)
  {
    var width := high - low + 1;
    assert Wrapped(width) == width;
    assert Scaled(value, low, high) == low + Fraction(value, width).Floor;
    ScaleStaysBelow(value, width as real);
    assert Fraction(value, width) >= 0.0;
    hide Fraction, Scaled, Wrapped;
  }

  /** A wider one leaves its bounds, except for small seeds. */
  lemma WideRangeWraps(value: Seed, low: int, high: int)
    requires -0x8000_0000 <= low <= high < 0x8000_0000 <= high - low + 1
    ensures low <= Scaled32(value, low, high) <= high <==> value * (0x1_0000_0000 - (high - low + 1)) < M
  {
    hide Fraction, Truncated;
    var k := 0x1_0000_0000 - (high - low + 1);
    assert Wrapped(high - low + 1) == -k;
    NegativeWidth(value, k);
    QuotientIsZero(value * k);
  }

  lemma QuotientIsZero(n: nat)
    ensures n / M >= 0 && (n / M == 0 <==> n < M)
  {
  }

  lemma NegativeWidth(value: Seed, k: int)
    requires k >= 0
    ensures value * k >= 0 && Truncated(Fraction(value, -k)) == -(value * k / M)
  {
    var x := Fraction(value, -k);
    var n, q := value * k, value * k / M;
    assert -x == n as real / 2147483647.0 by {
      assert (value as real / 2147483647.0) * k as real == (value as real * k as real) / 2147483647.0;
      assert value as real * k as real == n as real;
    }
    assert n == M * q + n % M;
    assert (-x).Floor == q;
  }

  /** The characters of a_rnd are drawn from such a range: with 32-bit longs every draw is negative. */
  lemma CharacterDrawWraps(value: Seed)
    ensures Scaled32(value, 0, MAX_LONG) < 0
  {
    assert Wrapped(0x8000_0000) == -0x8000_0000;
    NegativeWidth(value, 0x8000_0000);
  }

  /** UnifInt swaps bounds given in the wrong order. */
  function Low(d: Draw): int { if d.lower > d.upper then d.upper else d.lower }
  function High(d: Draw): int { if d.lower > d.upper then d.lower else d.upper }

  predicate InTable(stream: int) { 0 <= stream <= MAX_STREAM }

  /** UnifInt falls back to stream 0 for a stream outside the table. */
  function Target(stream: int): (i: nat)
    ensures InTable(i)
  {
    if InTable(stream) then stream else 0
  }

  function Drawn(s: Stream): (r: Stream)
    requires HoldsSeed(s)
    ensures HoldsSeed(r)
  {
    s.(value := NextRand(s.value))
  }

  /** The number r is what the draw gives from the table s: its share of the range is that of the next seed. */
  ghost predicate IsDrawn(s: seq<Stream>, d: Draw, r: int)
    requires ValidTable(s)
  {
    M * (r - Low(d)) <= NextRand(s[Target(d.stream)].value) * (High(d) - Low(d) + 1) < M * (r - Low(d) + 1)
  }

  /** Exactly one number is drawn, and it is the scaled seed. */
  lemma DrawnIsScaled(s: seq<Stream>, d: Draw, r: int)
    requires ValidTable(s)
    ensures var i := if 0 <= d.stream <= MAX_STREAM then d.stream else 0;
      var low := if d.lower > d.upper then d.upper else d.lower;
      var high := if d.lower > d.upper then d.lower else d.upper;
      IsDrawn(s, d, r) <==> r == Scaled(NextRand(s[i].value), low, high)
  {
    hide Scaled, NextRand;
    var q := Scaled(NextRand(s[Target(d.stream)].value), Low(d), High(d));
    var x := NextRand(s[Target(d.stream)].value) * (High(d) - Low(d) + 1);
    if IsDrawn(s, d, r) {
      DrawIsDetermined(x, q - Low(d), r - Low(d));
    }
  }

  method UnifInt(d: Draw, seeds: array<Stream>) returns (r: int)
    requires ValidTable(seeds[..])
    modifies seeds
    ensures seeds[..] == old(seeds[..])[Target(d.stream) := Drawn(old(seeds[Target(d.stream)]))]
    ensures r == Scaled(NextRand(old(seeds[Target(d.stream)].value)), Low(d), High(d))
    ensures Low(d) <= r <= High(d)
    ensures IsDrawn(old(seeds[..]), d, r)
    ensures var i := if 0 <= d.stream <= MAX_STREAM then d.stream else 0;
      var low := if d.lower > d.upper then d.upper else d.lower;
      var high := if d.lower > d.upper then d.lower else d.upper;
      M * (r - low) <= seeds[i].value * (high - low + 1) < M * (r - low + 1)
  {
    var stream := d.stream;
    if stream < 0 || stream > MAX_STREAM {
      stream := 0;
    }
    var low, high := d.lower, d.upper;
    if low > high {
      low, high := high, low;
    }
    assert HoldsSeed(seeds[..][stream]);
    seeds[stream] := seeds[stream].(value := NextRand(seeds[stream].value));
    r := Scaled(seeds[stream].value, low, high);
  }

  /** What one draw does to the table: only a draw inside the table is counted. */
  function AfterDraw(s: seq<Stream>, d: Draw): (r: seq<Stream>)
    requires ValidTable(s)
    ensures ValidTable(r)
  {
    var i := Target(d.stream);
    var t := Drawn(s[i]);
    s[i := if InTable(d.stream) then t.(usage := t.usage + 1) else t]
  }

  /**
   dss_random. For a stream outside the table the source increments a counter beyond the end of the
   array; the model leaves that write out.
   */
  method DssRandom(d: Draw, seeds: array<Stream>) returns (tgt: int)
    requires ValidTable(seeds[..])
    modifies seeds
    ensures seeds[..] == AfterDraw(old(seeds[..]), d)
    ensures tgt == Scaled(NextRand(old(seeds[Target(d.stream)].value)), Low(d), High(d))
    ensures Low(d) <= tgt <= High(d)
    ensures IsDrawn(old(seeds[..]), d, tgt)
    ensures var i := if 0 <= d.stream <= MAX_STREAM then d.stream else 0;
      var low := if d.lower > d.upper then d.upper else d.lower;
      var high := if d.lower > d.upper then d.lower else d.upper;
      M * (tgt - low) <= seeds[i].value * (high - low + 1) < M * (tgt - low + 1)
  {
    tgt := UnifInt(d, seeds);
    if InTable(d.stream) {
      seeds[d.stream] := seeds[d.stream].(usage := seeds[d.stream].usage + 1);
    }
  }

  // ----- row_start and row_stop -----

  function Fresh(s: Stream): Stream { s.(usage := 0) }

  method RowStart(seeds: array<Stream>)
    requires seeds.Length == MAX_STREAM + 1
    modifies seeds
    ensures forall i :: 0 <= i < seeds.Length ==> seeds[i] == Fresh(old(seeds[i]))
    ensures forall i :: 0 <= i < seeds.Length ==> seeds[i] == old(seeds[i]).(usage := 0)
  {
    var i := 0;
    while i <= MAX_STREAM
      invariant 0 <= i <= MAX_STREAM + 1
      invariant forall j :: 0 <= j < i ==> seeds[j] == Fresh(old(seeds[j]))
      invariant forall j :: i <= j < seeds.Length ==> seeds[j] == old(seeds[j])
    {
      seeds[i] := seeds[i].(usage := 0);
      i := i + 1;
    }
  }

  predicate Covered(o: Options, s: Stream)
  {
    s.table == o.table || s.table == o.child
  }

  function Advance(form: Form, value: Seed, n: int): (r: Seed)
    requires -M < n
  {
    if form.Form64? then Advance64(value, n) else Advance32(value, n)
  }

  /** What row_stop does to one stream. */
  function Stopped(o: Options, s: Stream): (r: Stream)
    requires HoldsSeed(s) && 0 <= s.boundary < M && s.usage < M
    ensures HoldsSeed(r) && 0 <= r.boundary < M
  {
    if !Covered(o, s) then s
    else if o.setSeeds && s.usage > s.boundary then s.(boundary := s.usage)
    else s.(value := Advance(o.form, s.value, s.boundary - s.usage))
  }

  method NthElement(form: Form, n: int, seeds: array<Stream>, i: nat)
    requires -M < n
    requires i < seeds.Length && HoldsSeed(seeds[i])
    modifies seeds
    ensures seeds[..] == old(seeds[..])[i := old(seeds[i]).(value := Advance(form, old(seeds[i].value), n))]
  {
    if form.Form64? {
      NthElement64(n, seeds, i);
    } else {
      var _ := NthElement32(n, seeds, i);
    }
  }

  method RowStop(o: Options, seeds: array<Stream>)
    requires ValidTable(seeds[..])
    requires forall i :: 0 <= i < seeds.Length ==> seeds[i].usage < M
    modifies seeds
    ensures ValidTable(seeds[..])
    ensures forall i :: 0 <= i < seeds.Length ==>
      HoldsSeed(old(seeds[i])) && 0 <= old(seeds[i].boundary) < M && seeds[i] == Stopped(o, old(seeds[i]))
  {
    hide Advance, Shift;
    ghost var before := seeds[..];
    var i := 0;
    while i <= MAX_STREAM
      invariant 0 <= i <= MAX_STREAM + 1 == |before|
      invariant forall j :: 0 <= j < |before| ==> HoldsSeed(before[j]) && 0 <= before[j].boundary < M
      invariant forall j :: 0 <= j < i ==> seeds[j] == Stopped(o, before[j])
      invariant forall j :: i <= j < seeds.Length ==> seeds[j] == before[j]
    {
      if seeds[i].table == o.table || seeds[i].table == o.child {
        if o.setSeeds && seeds[i].usage > seeds[i].boundary {
          seeds[i] := seeds[i].(boundary := seeds[i].usage);
        } else {
          ghost var here := seeds[..];
          NthElement(o.form, seeds[i].boundary - seeds[i].usage, seeds, i);
          assert forall j :: 0 <= j < seeds.Length && j != i ==> seeds[j] == here[j] by {
            assert forall j :: 0 <= j < seeds.Length && j != i ==> seeds[..][j] == here[j];
          }
          assert seeds[..][i] == seeds[i];
        }
      }
      i := i + 1;
    }
  }
}
