/**
 * The integer geometry of `create_fraction_pie` (SumFrac01.py): how the circle
 * is cut into wedges, which wedges are highlighted, and where the dashed guide
 * lines of the finer subdivision fall.
 *
 * Angles are exact fractions of a full turn (`Turn(k, n)` is k/n of 360
 * degrees) rather than floating-point degrees; figure, axes, colours and
 * styling are not modelled.
 */
module FractionPie {

  /** The angle num/den of a full turn. */
  datatype Turn = Turn(num: nat, den: nat)

  /** Two angles are the same fraction of a turn (cross-multiplication). */
  predicate SameAngle(s: Turn, t: Turn)
  {
    s.num * t.den == t.num * s.den
  }

  /**
   * Angle s is at most angle t. The comparison is by cross-multiplication, so
   * it is meaningful only for positive denominators; the lemmas that use it
   * (`WedgesCoverTurn`, `WedgesOrdered`) supply d >= 1 and q >= 1.
   */
  predicate AtMost(s: Turn, t: Turn)
  {
    s.num * t.den <= t.num * s.den
  }

  /** Highlighted wedges carry the fraction's colour; neutral ones are the light-grey remainder. */
  datatype Style = Highlighted | Neutral

  /** One pie slice from angle `start` to angle `end`. */
  datatype Wedge = Wedge(start: Turn, end: Turn, style: Style)

  /** What one call draws: the wedges in drawing order, then the guide-line angles. */
  datatype PieDiagram = PieDiagram(wedges: seq<Wedge>, guides: seq<Turn>)

  function Max(a: nat, b: nat): (m: nat)
    ensures m >= a && m >= b && (m == a || m == b)
  {
    if a < b then b else a
  }

  /**
   * The wedges the two loops draw: wedge i spans [i/d, (i+1)/d] of a turn and
   * is highlighted exactly when i < n. The first loop runs over range(n), the
   * second over range(n, d), which is empty when n >= d.
   */
  predicate WedgeLayout(ws: seq<Wedge>, n: nat, d: nat)
  {
    && |ws| == Max(n, d)
    && forall i {:trigger ws[i]} :: 0 <= i < |ws| ==>
         && ws[i].start == Turn(i, d)
         && ws[i].end == Turn(i + 1, d)
         && (ws[i].style == Highlighted <==> i < n)
  }

  /**
   * The guide lines: with total = d * f subdivisions they are drawn only when
   * total > d, and then at the total + 1 angles k/total, k = 0..total, that
   * linspace(0, 360, total + 1) produces.
   */
  predicate GuideLayout(gs: seq<Turn>, d: nat, f: nat)
  {
    var total := d * f;
    && |gs| == (if total > d then total + 1 else 0)
    && forall k :: 0 <= k < |gs| ==> gs[k] == Turn(k, total)
  }

  /**
   * `create_fraction_pie(numerator, denominator, subdivision_factor, ...)`:
   * the highlighted wedges, then the neutral ones, then the guide lines, each
   * appended one at a time as the source adds patches and plots lines.
   */
  method CreateFractionPie(numerator: nat, denominator: nat, subdivisionFactor: nat)
    returns (pie: PieDiagram)
    requires denominator >= 1
    ensures WedgeLayout(pie.wedges, numerator, denominator)
    ensures GuideLayout(pie.guides, denominator, subdivisionFactor)
  {
    var wedges: seq<Wedge> := [];
    // Selected slices (the numerator).
    for i := 0 to numerator
      invariant |wedges| == i
      invariant forall j :: 0 <= j < i ==>
        wedges[j].start == Turn(j, denominator) && wedges[j].end == Turn(j + 1, denominator) && wedges[j].style == Highlighted
    {
      wedges := wedges + [Wedge(Turn(i, denominator), Turn(i + 1, denominator), Highlighted)];
    }
    // Unselected slices: range(numerator, denominator).
    var i := numerator;
    while i < denominator
      invariant numerator <= i <= Max(numerator, denominator)
      invariant |wedges| == i
      invariant forall j :: 0 <= j < i ==>
        && wedges[j].start == Turn(j, denominator)
        && wedges[j].end == Turn(j + 1, denominator)
        && (wedges[j].style == Highlighted <==> j < numerator)
    {
      wedges := wedges + [Wedge(Turn(i, denominator), Turn(i + 1, denominator), Neutral)];
      i := i + 1;
    }
    // Subdivision lines for the entered factor.
    var guides: seq<Turn> := [];
    var total := denominator * subdivisionFactor;
    if total > denominator {
      for k := 0 to total + 1
        invariant |guides| == k
        invariant forall j :: 0 <= j < k ==> guides[j] == Turn(j, total)
      {
        guides := guides + [Turn(k, total)];
      }
    }
    pie := PieDiagram(wedges, guides);
  }

  // ---------------------------------------------------------------------------
  // The wedges partition the circle
  // ---------------------------------------------------------------------------

  /**
   * For a proper fraction (n <= d) there are exactly d wedges of width 1/d,
   * laid end to end: the first starts at 0, each starts where the previous one
   * ends, and the last ends at the full turn.
   */
  lemma WedgesTileTurn(ws: seq<Wedge>, n: nat, d: nat)
    requires d >= 1 && n <= d && WedgeLayout(ws, n, d)
    ensures |ws| == d
    ensures ws[0].start.num == 0 && ws[d - 1].end.num == ws[d - 1].end.den
    ensures forall i :: 0 <= i < d ==> ws[i].start.den == ws[i].end.den == d && ws[i].end.num == ws[i].start.num + 1
    ensures forall i :: 0 <= i < d - 1 ==> ws[i].end == ws[i + 1].start
  {
    assert ws[d - 1].end == Turn(d, d);
  }

  /**
   * Every angle p/q within one turn lies in some wedge: the wedge index is
   * floor(p*d/q), or the last wedge for the full turn itself.
   */
  lemma WedgesCoverTurn(ws: seq<Wedge>, n: nat, d: nat, p: nat, q: nat) returns (i: nat)
    requires d >= 1 && n <= d && WedgeLayout(ws, n, d)
    requires q >= 1 && p <= q
    ensures i < |ws|
    ensures AtMost(ws[i].start, Turn(p, q)) && AtMost(Turn(p, q), ws[i].end)
  {
    i := WedgeIndex(p, q, d);
    assert ws[i].start == Turn(i, d) && ws[i].end == Turn(i + 1, d);
  }

  /** The index of the wedge holding angle p/q: i/d <= p/q <= (i+1)/d with i < d. */
  lemma WedgeIndex(p: nat, q: nat, d: nat) returns (i: nat)
    requires d >= 1 && q >= 1 && p <= q
    ensures i < d && i * q <= p * d <= (i + 1) * q
  {
    if p == q {
      i := d - 1;
      assert (i + 1) * q == p * d;
      assert i * q <= (i + 1) * q;
    } else {
      i := (p * d) / q;
      FloorBounds(p * d, q, i);
      assert p * d < q * d by {
        assert q * d - p * d == (q - p) * d;
      }
      FloorBelow(p * d, q, d, i);
    }
  }

  lemma FloorBounds(x: nat, q: nat, i: nat)
    requires q >= 1 && i == x / q
    ensures i * q <= x < (i + 1) * q
  {
    assert x == q * i + x % q;
  }

  lemma FloorBelow(x: nat, q: nat, d: nat, i: nat)
    requires q >= 1 && i * q <= x < q * d
    ensures i < d
  {
    assert (d - i) * q == d * q - i * q;
  }

  /** Wedges never overlap: a wedge ends no later than any later wedge starts. */
  lemma WedgesOrdered(ws: seq<Wedge>, n: nat, d: nat, i: nat, j: nat)
    requires d >= 1 && WedgeLayout(ws, n, d)
    requires i < j < |ws|
    ensures AtMost(ws[i].end, ws[j].start)
  {
    assert ws[i].end == Turn(i + 1, d) && ws[j].start == Turn(j, d);
    assert (i + 1) * d <= j * d;
  }

  // ---------------------------------------------------------------------------
  // Highlighted and neutral wedges
  // ---------------------------------------------------------------------------

  /** The number of wedges drawn in the given style. */
  function CountStyle(ws: seq<Wedge>, s: Style): (c: nat)
    ensures c <= |ws|
  {
    if |ws| == 0 then 0
    else CountStyle(ws[..|ws| - 1], s) + (if ws[|ws| - 1].style == s then 1 else 0)
  }

  /**
   * Exactly `n` wedges are highlighted, and the remaining max(n, d) - n are
   * neutral; for a proper fraction that is d - n neutral wedges.
   */
  lemma HighlightedCount(ws: seq<Wedge>, n: nat, d: nat)
    requires WedgeLayout(ws, n, d)
    ensures CountStyle(ws, Highlighted) == n
    ensures CountStyle(ws, Neutral) == |ws| - n
    ensures n <= d ==> CountStyle(ws, Neutral) == d - n
  {
    PrefixCount(ws, n, d, |ws|);
    assert ws[..|ws|] == ws;
  }

  lemma {:induction false} PrefixCount(ws: seq<Wedge>, n: nat, d: nat, k: nat)
    requires WedgeLayout(ws, n, d) && k <= |ws|
    ensures CountStyle(ws[..k], Highlighted) == (if k < n then k else n)
    ensures CountStyle(ws[..k], Neutral) == (if k < n then 0 else k - n)
  {
    if k > 0 {
      PrefixCount(ws, n, d, k - 1);
      assert ws[..k][..k - 1] == ws[..k - 1];
    }
  }

  /**
   * The boundary cases: numerator 0 draws no highlighted wedge, and
   * numerator == denominator draws no neutral wedge.
   */
  lemma BoundaryCases(ws: seq<Wedge>, n: nat, d: nat)
    requires WedgeLayout(ws, n, d)
    ensures n == 0 ==> forall i :: 0 <= i < |ws| ==> ws[i].style == Neutral
    ensures n == d ==> forall i :: 0 <= i < |ws| ==> ws[i].style == Highlighted
  {
  }

  // ---------------------------------------------------------------------------
  // Guide lines
  // ---------------------------------------------------------------------------

  /**
   * Guide lines are drawn exactly when the factor exceeds 1; then there are
   * d*f + 1 of them, from angle 0 up to the full turn, so the first and last
   * coincide and d*f distinct directions are marked.
   */
  lemma GuidesDrawnIffFactorAboveOne(gs: seq<Turn>, d: nat, f: nat)
    requires d >= 1 && GuideLayout(gs, d, f)
    ensures |gs| > 0 <==> f > 1
    ensures f > 1 ==> |gs| == d * f + 1 && gs[0].num == 0 && gs[d * f].num == gs[d * f].den
  {
    if f > 1 {
      assert d * f >= d * 2;
    } else {
      assert d * f <= d * 1;
    }
  }

  /**
   * With a factor above 1 the guide lines refine the wedges: boundary i/d of
   * the pie is guide line i*f, so each wedge is cut into exactly f equal parts.
   */
  lemma GuidesRefineWedges(ws: seq<Wedge>, gs: seq<Turn>, n: nat, d: nat, f: nat, i: nat)
    requires d >= 1 && f > 1 && n <= d
    requires WedgeLayout(ws, n, d) && GuideLayout(gs, d, f)
    requires i < d
    ensures (i + 1) * f < |gs|
    ensures SameAngle(gs[i * f], ws[i].start) && SameAngle(gs[(i + 1) * f], ws[i].end)
  {
    GuidesDrawnIffFactorAboveOne(gs, d, f);
    assert (i + 1) * f <= d * f;
    assert (i * f) * d == i * (d * f);
    assert ((i + 1) * f) * d == (i + 1) * (d * f);
  }

  // ---------------------------------------------------------------------------
  // Determinism and worked examples
  // ---------------------------------------------------------------------------

  /**
   * The layout is a function of the inputs: two calls with the same numerator,
   * denominator and factor draw the same wedges and the same guide lines.
   */
  lemma LayoutDeterminesDiagram(p1: PieDiagram, p2: PieDiagram, n: nat, d: nat, f: nat)
    requires WedgeLayout(p1.wedges, n, d) && GuideLayout(p1.guides, d, f)
    requires WedgeLayout(p2.wedges, n, d) && GuideLayout(p2.guides, d, f)
    ensures p1 == p2
  {
    forall i | 0 <= i < |p1.wedges|
      ensures p1.wedges[i] == p2.wedges[i]
    {
      assert p1.wedges[i].style == p2.wedges[i].style;
    }
  }

  /**
   * One sixth: a single highlighted wedge of a sixth of a turn (60 degrees)
   * and five neutral ones. Two sixths with factor 3: the 6*3 = 18 subdivisions
   * are marked by 19 guide lines, the first at 0 and the last at the full turn,
   * the same direction.
   */
  lemma ExamplePies(ws: seq<Wedge>, gs: seq<Turn>)
    requires WedgeLayout(ws, 1, 6) && GuideLayout(gs, 6, 3)
    ensures CountStyle(ws, Highlighted) == 1 && CountStyle(ws, Neutral) == 5
    ensures ws[0].style == Highlighted && ws[0].start == Turn(0, 6) && ws[0].end == Turn(1, 6)
    ensures |gs| == 19 && SameAngle(gs[0], Turn(0, 1)) && SameAngle(gs[18], Turn(1, 1))
  {
    HighlightedCount(ws, 1, 6);
  }
}
