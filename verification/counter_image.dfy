/**
 * The arithmetic of the counter image: which glyph is drawn where, and how
 * large the canvas is. Fetching and decoding the glyph images and encoding
 * the PNG are left to the caller; only the size of the glyph at position 0
 * of the URL list is consulted, through `measure`.
 */
module CounterImage {
  import Decimal

  datatype Size = Size(width: nat, height: nat)

  /** One `drawImage` call: glyph `glyph`, loaded from `source`, scaled into the given rectangle. */
  datatype Placement = Placement(glyph: Decimal.digit, source: string, x: nat, y: nat, width: nat, height: nat)

  /** The canvas with the draws made on it, left to right. */
  datatype Canvas = Canvas(width: nat, height: nat, draws: seq<Placement>)

  /** True when pixel `(x, y)` lies inside the rectangle of `p`. */
  predicate Covers(p: Placement, x: int, y: int) {
    p.x <= x < p.x + p.width && p.y <= y < p.y + p.height
  }

  /** The glyphs drawn, in order. */
  function Glyphs(c: Canvas): (ds: seq<Decimal.digit>)
    ensures |ds| == |c.draws|
    ensures forall i :: 0 <= i < |ds| ==> ds[i] == c.draws[i].glyph
  {
    seq(|c.draws|, i requires 0 <= i < |c.draws| => c.draws[i].glyph)
  }

  /** The draw of the `i`-th digit `d`: glyph `d` at column `i`, at the size of the glyph for 0. */
  function Draw(d: Decimal.digit, i: nat, urls: seq<string>, glyph: Size): Placement
    requires |urls| == 10
  {
    Placement(d, urls[d], i * glyph.width, 0, glyph.width, glyph.height)
  }

  /** The canvas for the digit sequence `digits`, drawn left to right from the glyphs at `urls`. */
  function Layout(digits: seq<Decimal.digit>, urls: seq<string>, glyph: Size): (c: Canvas)
    requires |urls| == 10
    ensures Glyphs(c) == digits
    ensures c.width == glyph.width * |digits| && c.height == glyph.height
    ensures forall i :: 0 <= i < |c.draws| ==> c.draws[i] == Draw(digits[i], i, urls, glyph)
  {
    var draws := seq(|digits|, i requires 0 <= i < |digits| => Draw(digits[i], i, urls, glyph));
    var c := Canvas(glyph.width * |digits|, glyph.height, draws);
    assert Glyphs(c) == digits;
    c
  }

  /**
   * The picture of `count` drawn from the ten glyphs at `urls` (position `d`
   * of the list is the glyph for digit `d`), every glyph scaled to the size
   * of the glyph for 0.
   */
  function Render(count: nat, urls: seq<string>, measure: string -> Size): (c: Canvas)
    requires |urls| == 10
    ensures Glyphs(c) == Decimal.Digits(count)
    ensures Decimal.Value(Glyphs(c)) == count
    ensures c.width == measure(urls[0]).width * |Decimal.Digits(count)|
    ensures c.height == measure(urls[0]).height
    ensures forall i :: 0 <= i < |c.draws| ==> c.draws[i] == Draw(c.draws[i].glyph, i, urls, measure(urls[0]))
  {
    Decimal.TextDigitsShow(count);
    Layout(Decimal.TextDigits(Decimal.Show(count)), urls, measure(urls[0]))
  }

  /** Every draw stays inside the canvas. */
  ghost predicate InBounds(c: Canvas) {
    forall i :: 0 <= i < |c.draws| ==>
      c.draws[i].x + c.draws[i].width <= c.width && c.draws[i].y + c.draws[i].height <= c.height
  }

  /** No pixel is drawn twice. */
  ghost predicate Disjoint(c: Canvas) {
    forall i, j, x, y :: 0 <= i < j < |c.draws| && Covers(c.draws[i], x, y) ==> !Covers(c.draws[j], x, y)
  }

  /** Some draw covers pixel `(x, y)`. */
  ghost predicate Drawn(c: Canvas, x: int, y: int) {
    exists i :: 0 <= i < |c.draws| && Covers(c.draws[i], x, y)
  }

  /** Every pixel of the canvas is drawn. */
  ghost predicate Covered(c: Canvas) {
    forall x, y :: 0 <= x < c.width && 0 <= y < c.height ==> Drawn(c, x, y)
  }

  /** A product grows with its left factor. */
  lemma MulMonotone(a: int, b: int, w: nat)
    requires a <= b
    ensures a * w <= b * w
  {
    assert b * w - a * w == (b - a) * w;
  }

  /** Euclidean division: `x == k * w + r` with `0 <= r < w` fixes the quotient. */
  lemma QuotientUnique(x: int, w: nat, k: int, r: int)
    requires w > 0 && 0 <= r < w && x == k * w + r
    ensures x / w == k
  {
    var q := x / w;
    assert x == q * w + x % w;
    if q < k {
      assert (q + 1) * w == q * w + w;
      MulMonotone(q + 1, k, w);
    } else if q > k {
      assert (k + 1) * w == k * w + w;
      MulMonotone(k + 1, q, w);
    }
  }

  /** Left-to-right strips of width `w`: strip `k` holds exactly the columns `x` with `x / w == k`. */
  lemma StripOfColumn(w: nat, k: nat, x: int)
    requires w > 0
    ensures k * w <= x < k * w + w <==> 0 <= x && x / w == k
  {
    if k * w <= x < k * w + w {
      QuotientUnique(x, w, k, x - k * w);
    }
  }

  /**
   * The shape of a counter canvas: draw `i` fills the `i`-th column strip of
   * width `w` and the full height `h`, and the canvas is exactly as wide as
   * its strips.
   */
  ghost predicate Strips(c: Canvas, w: nat, h: nat) {
    && c.width == w * |c.draws|
    && c.height == h
    && forall i :: 0 <= i < |c.draws| ==>
         c.draws[i].x == i * w && c.draws[i].y == 0 && c.draws[i].width == w && c.draws[i].height == h
  }

  /** A rendered counter has the strip shape, with the size of the glyph for 0. */
  lemma RenderStrips(count: nat, urls: seq<string>, measure: string -> Size)
    requires |urls| == 10
    ensures Strips(Render(count, urls, measure), measure(urls[0]).width, measure(urls[0]).height)
  {
  }

  /** The strips stay inside the canvas. */
  lemma StripsInBounds(c: Canvas, w: nat, h: nat)
    requires Strips(c, w, h)
    ensures InBounds(c)
  {
    forall i | 0 <= i < |c.draws|
      ensures c.draws[i].x + c.draws[i].width <= c.width
    {
      assert c.draws[i].x + c.draws[i].width == (i + 1) * w;
      MulMonotone(i + 1, |c.draws|, w);
    }
  }

  /** No two strips share a pixel. */
  lemma StripsDisjoint(c: Canvas, w: nat, h: nat)
    requires Strips(c, w, h)
    ensures Disjoint(c)
  {
    forall i, j, x, y | 0 <= i < j < |c.draws| && Covers(c.draws[i], x, y)
      ensures !Covers(c.draws[j], x, y)
    {
      StripOfColumn(w, i, x);
      StripOfColumn(w, j, x);
    }
  }

  /** Every pixel of the canvas lies in some strip. */
  lemma StripsCovered(c: Canvas, w: nat, h: nat)
    requires Strips(c, w, h)
    ensures Covered(c)
  {
    forall x, y | 0 <= x < c.width && 0 <= y < c.height
      ensures Drawn(c, x, y)
    {
      var k := x / w;
      StripOfColumn(w, k, x);
      if k >= |c.draws| {
        MulMonotone(|c.draws|, k, w);
      }
      assert Covers(c.draws[k], x, y);
    }
  }

  /** The draws of a rendered counter tile its canvas exactly: in bounds, disjoint and covering. */
  lemma RenderTiles(count: nat, urls: seq<string>, measure: string -> Size)
    requires |urls| == 10
    ensures InBounds(Render(count, urls, measure))
    ensures Disjoint(Render(count, urls, measure))
    ensures Covered(Render(count, urls, measure))
  {
    var c := Render(count, urls, measure);
    var glyph := measure(urls[0]);
    RenderStrips(count, urls, measure);
    StripsInBounds(c, glyph.width, glyph.height);
    StripsDisjoint(c, glyph.width, glyph.height);
    StripsCovered(c, glyph.width, glyph.height);
  }

  /** A one-digit count is a single glyph as wide as the glyph for 0. */
  lemma SingleDigitIsOneGlyph(count: nat, urls: seq<string>, measure: string -> Size)
    requires |urls| == 10 && count < 10
    ensures Render(count, urls, measure).width == measure(urls[0]).width
    ensures Glyphs(Render(count, urls, measure)) == [count]
  {
  }

  /** 104 is drawn as the glyphs 1, 0 and 4, three glyphs wide. */
  lemma HundredFour(urls: seq<string>, measure: string -> Size)
    requires |urls| == 10
    ensures Render(104, urls, measure).width == 3 * measure(urls[0]).width
    ensures Glyphs(Render(104, urls, measure)) == [1, 0, 4]
  {
    assert Decimal.Digits(1) == [1];
    assert Decimal.Digits(10) == [1] + [0];
    assert Decimal.Digits(104) == [1, 0] + [4];
  }
}
