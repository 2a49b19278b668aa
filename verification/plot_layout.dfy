/** The layout arithmetic of the bar-chart scripts: a 680 x 480 canvas,
    margins top 80, right 50, bottom 60, left 200, the plot area they
    leave, the two axis lines, the title, the per-beer labels and the
    bar lengths of the linear x scale. Coordinates grow rightwards and
    downwards from the top-left corner. Divisions that JavaScript
    performs in floating point are taken over the reals. */
module PlotLayout {
  import opened Wrappers
  import Ranking

  datatype Margin = Margin(top: int, right: int, bottom: int, left: int)

  const Width: int := 680
  const Height: int := 480
  const Margins: Margin := Margin(80, 50, 60, 200)

  /** `height - margin.top - margin.bottom`. */
  const PlotHeight: int := Height - Margins.top - Margins.bottom
  /** `width - margin.left - margin.right`. */
  const PlotWidth: int := Width - Margins.left - Margins.right

  datatype Point = Point(x: int, y: int)
  datatype Line = Line(start: Point, end: Point)

  predicate InCanvas(p: Point) {
    0 <= p.x <= Width && 0 <= p.y <= Height
  }

  predicate InPlotArea(p: Point) {
    Margins.left <= p.x <= Margins.left + PlotWidth && Margins.top <= p.y <= Margins.top + PlotHeight
  }

  /** The margins and the plot area add up to the canvas on both axes. */
  lemma PlotArea()
    ensures Margins.left + PlotWidth + Margins.right == Width
    ensures Margins.top + PlotHeight + Margins.bottom == Height
    ensures PlotWidth == 430 && PlotHeight == 340
  {
  }

  /** The y axis line, from `(left, top)` down to `(left, top + plotHeight)`. */
  function YAxis(): (l: Line)
    ensures l.start.x == l.end.x && l.end.y - l.start.y == PlotHeight
    ensures InPlotArea(l.start) && InPlotArea(l.end)
  {
    Line(Point(Margins.left, Margins.top), Point(Margins.left, Margins.top + PlotHeight))
  }

  /** The x axis line, from `(left, top + plotHeight)` to
      `(left + plotWidth, top + plotHeight)`. */
  function XAxis(): (l: Line)
    ensures l.start.y == l.end.y && l.end.x - l.start.x == PlotWidth
    ensures InPlotArea(l.start) && InPlotArea(l.end)
  {
    Line(Point(Margins.left, Margins.top + PlotHeight), Point(Margins.left + PlotWidth, Margins.top + PlotHeight))
  }

  /** Where the axis groups of the bar chart are translated to: the
      x axis to `(left, plotHeight + top)`, the y axis to `(left, top)`. */
  function XAxisOrigin(): Point {
    Point(Margins.left, PlotHeight + Margins.top)
  }

  function YAxisOrigin(): Point {
    Point(Margins.left, Margins.top)
  }

  /** The axes meet in the bottom-left corner of the plot area, where the
      translated x axis group starts too, and the whole frame lies
      inside the canvas. */
  lemma AxesMeet()
    ensures YAxis().end == XAxis().start == XAxisOrigin()
    ensures YAxis().start == YAxisOrigin()
    ensures forall p :: InPlotArea(p) ==> InCanvas(p)
  {
  }

  /** The "IBU" caption, 25 units right of and below the plot's
      bottom-right corner. */
  function CaptionPoint(): (p: Point)
    ensures InCanvas(p) && !InPlotArea(p)
    ensures p.x == XAxis().end.x + 25 && p.y == XAxis().end.y + 25
  {
    Point(Margins.left + PlotWidth + 25, Margins.top + PlotHeight + 25)
  }

  /** The title's anchor: `x = width / 2`, `y = (top / 3) * 2`. */
  function TitleAnchor(): (r: (real, real))
    ensures r.0 + r.0 == Width as real
    ensures 3.0 * r.1 == 2.0 * Margins.top as real
    ensures 0.0 < r.1 < Margins.top as real
  {
    (Width as real / 2.0, (Margins.top as real / 3.0) * 2.0)
  }

  // ---------------------------------------------------------------------
  // Labels, bands and bars of the ranking
  // ---------------------------------------------------------------------

  datatype Label = Label(text: string, x: real, y: real)

  /** One text element per ranked beer: its name, at `x = left` and
      `y = top + i * (plotHeight / n)`. */
  function Labels(ranked: seq<Ranking.Entry>): (ls: seq<Label>)
    ensures |ls| == |ranked|
    ensures forall i :: 0 <= i < |ls| ==> ls[i].text == ranked[i].name && ls[i].x == Margins.left as real
    ensures |ls| > 0 ==> ls[0].y == Margins.top as real
    ensures forall i, j :: 0 <= i < j < |ls| ==> ls[i].y < ls[j].y
    ensures forall i :: 0 <= i < |ls| ==>
              Margins.top as real <= ls[i].y < (Margins.top + PlotHeight) as real
  {
    var n := |ranked|;
    var ls := seq(n, i requires 0 <= i < n => Label(ranked[i].name, Margins.left as real,
                                                        Margins.top as real + i as real * (PlotHeight as real / n as real)));
    forall i, j | 0 <= i < j < n ensures ls[i].y < ls[j].y {
      StepIncreases(i as real, j as real, PlotHeight as real / n as real);
    }
    forall i | 0 <= i < n ensures ls[i].y < (Margins.top + PlotHeight) as real {
      BelowEnd(i, n, PlotHeight as real);
    }
    ls
  }

  lemma StepIncreases(a: real, b: real, step: real)
    requires a < b && 0.0 < step
    ensures a * step < b * step
  {
  }

  lemma BelowEnd(i: nat, n: nat, h: real)
    requires i < n && 0.0 < h
    ensures i as real * (h / n as real) < h
  {
    var step := h / n as real;
    assert step * n as real == h;
    assert i as real * step < n as real * step;
  }

  /** `scaleY.domain(ibu.map(x => x.name))`: one band per ranked beer,
      in ranking order. */
  function BandDomain(ranked: seq<Ranking.Entry>): (names: seq<string>)
    ensures |names| == |ranked|
  {
    seq(|ranked|, i requires 0 <= i < |ranked| => ranked[i].name)
  }

  /** Labels and bands list the same beers in the same order. */
  lemma LabelsFollowBands(ranked: seq<Ranking.Entry>)
    ensures forall i :: 0 <= i < |ranked| ==> Labels(ranked)[i].text == BandDomain(ranked)[i]
  {
  }

  /** The bar lengths `scaleX(d.value)`, with the linear scale mapping
      `[0, ibu[0].value]` onto `[0, plotWidth]`; an empty ranking fails
      where the domain is read. A degenerate domain `[0, 0]` sends every
      value to the middle of the range, as d3's linear scale does. */
  function BarLengths(ranked: seq<Ranking.Entry>): (r: Result<seq<real>>)
    ensures r.Err? <==> ranked == []
    ensures r.Ok? ==> |r.value| == |ranked|
    ensures r.Ok? && Ranking.Key(ranked[0]) != 0.0 ==> r.value[0] == PlotWidth as real
    ensures r.Ok? && Ranking.Key(ranked[0]) > 0.0 && Ranking.NonIncreasing(ranked) ==>
              forall i, j :: 0 <= i < j < |r.value| ==> r.value[j] <= r.value[i] <= PlotWidth as real
  {
    var domain := Ranking.XDomain(ranked);
    if domain.Err? then Err(domain.error)
    else
      var hi := domain.value.1;
      assert hi == Ranking.Key(ranked[0]);
      if hi == 0.0 then Ok(seq(|ranked|, _ => PlotWidth as real / 2.0))
      else
        ScaleOrdered(ranked, hi);
        Ok(ScaleAll(ranked, hi))
  }

  /** The linear scale from `[0, hi]` onto `[0, plotWidth]`. */
  function ScaleAll(ranked: seq<Ranking.Entry>, hi: real): (ws: seq<real>)
    requires hi != 0.0
    ensures |ws| == |ranked|
  {
    seq(|ranked|, i requires 0 <= i < |ranked| => Ranking.Key(ranked[i]) / hi * PlotWidth as real)
  }

  lemma ScaleOrdered(ranked: seq<Ranking.Entry>, hi: real)
    requires ranked != [] && hi == Ranking.Key(ranked[0]) && hi != 0.0
    ensures ScaleAll(ranked, hi)[0] == PlotWidth as real
    ensures hi > 0.0 && Ranking.NonIncreasing(ranked) ==>
              forall i, j :: 0 <= i < j < |ranked| ==>
                ScaleAll(ranked, hi)[j] <= ScaleAll(ranked, hi)[i] <= PlotWidth as real
  {
    var ws := ScaleAll(ranked, hi);
    if hi > 0.0 && Ranking.NonIncreasing(ranked) {
      forall i, j | 0 <= i < j < |ranked| ensures ws[j] <= ws[i] <= PlotWidth as real {
        Scaled(Ranking.Key(ranked[j]), Ranking.Key(ranked[i]), hi, PlotWidth as real);
        assert Ranking.Key(ranked[i]) <= Ranking.Key(ranked[0]);
        Scaled(Ranking.Key(ranked[i]), hi, hi, PlotWidth as real);
        assert hi / hi * PlotWidth as real == PlotWidth as real;
      }
    }
  }

  /** For the chart's own ranking the scale is always defined: the first
      bar spans the plot width. */
  lemma RankedBars(beers: seq<Ranking.Beer>)
    requires Ranking.Rank(beers) != []
    ensures BarLengths(Ranking.Rank(beers)).Ok?
    ensures BarLengths(Ranking.Rank(beers)).value[0] == PlotWidth as real
  {
    assert Ranking.Kept(Ranking.Rank(beers)[0]);
  }

  lemma Scaled(a: real, b: real, hi: real, w: real)
    requires a <= b && 0.0 < hi && 0.0 <= w
    ensures a / hi * w <= b / hi * w
  {
    assert a / hi <= b / hi;
  }
}
