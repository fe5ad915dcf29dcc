/** The de-interlacing loops of stb_image's `stbi__create_png_image`, for pixels of any type. */
module Adam7 {

  datatype Option<T> = None | Some(value: T)

  function XOrig(p: nat): nat requires p < 7 { [0, 4, 0, 2, 0, 1, 0][p] }
  function YOrig(p: nat): nat requires p < 7 { [0, 0, 4, 0, 2, 0, 1][p] }
  function XSpc(p: nat): (s: nat) requires p < 7 ensures s > 0 { [8, 8, 4, 4, 2, 2, 1][p] }
  function YSpc(p: nat): (s: nat) requires p < 7 ensures s > 0 { [8, 8, 8, 4, 4, 2, 2][p] }

  /** Columns and rows of a pass image, as the source computes them. */
  function PassWidth(w: nat, p: nat): nat
    requires w >= 1 && p < 7
  {
    (w - XOrig(p) + XSpc(p) - 1) / XSpc(p)
  }

  function PassHeight(h: nat, p: nat): nat
    requires h >= 1 && p < 7
  {
    (h - YOrig(p) + YSpc(p) - 1) / YSpc(p)
  }

  /** The pass that transmits a pixel, counted from zero. */
  function PassOf(x: nat, y: nat): (p: nat)
    ensures p < 7
  {
    if y % 2 == 1 then 6
    else if x % 2 == 1 then 5
    else if y % 4 == 2 then 4
    else if x % 4 == 2 then 3
    else if y % 8 == 4 then 2
    else if x % 8 == 4 then 1
    else 0
  }

  /** The 8 by 8 pattern of RFC 2083 section 2.6, which counts passes from one. */
  function Pattern(): seq<seq<nat>> {
    [ [1, 6, 4, 6, 2, 6, 4, 6],
      [7, 7, 7, 7, 7, 7, 7, 7],
      [5, 6, 5, 6, 5, 6, 5, 6],
      [7, 7, 7, 7, 7, 7, 7, 7],
      [3, 6, 4, 6, 3, 6, 4, 6],
      [7, 7, 7, 7, 7, 7, 7, 7],
      [5, 6, 5, 6, 5, 6, 5, 6],
      [7, 7, 7, 7, 7, 7, 7, 7] ]
  }

  lemma PassOfIsPattern(x: nat, y: nat)
    ensures PassOf(x, y) + 1 == Pattern()[y % 8][x % 8]
  {
    PassPeriodic(x, y);
    PatternRow(y % 8);
    hide PassOf, Pattern;
    var a, b := x % 8, y % 8;
    assert seq(8, k requires 0 <= k => PassOf(k, b) + 1)[a] == PassOf(a, b) + 1;
  }

  lemma PassPeriodic(x: nat, y: nat)
    ensures PassOf(x, y) == PassOf(x % 8, y % 8)
  {
    ModMod(x);
    ModMod(y);
  }

  lemma ModMod(x: nat)
    ensures x % 8 % 2 == x % 2 && x % 8 % 4 == x % 4 && x % 8 % 8 == x % 8
  {
  }

  lemma PatternRow(b: nat)
    requires b < 8
    ensures seq(8, k requires 0 <= k => PassOf(k, b) + 1) == Pattern()[b]
  {
  }

  function Column(p: nat, x: nat): nat
    requires p < 7
  {
    if x < XOrig(p) then 0 else (x - XOrig(p)) / XSpc(p)
  }

  function Row(p: nat, y: nat): nat
    requires p < 7
  {
    if y < YOrig(p) then 0 else (y - YOrig(p)) / YSpc(p)
  }

  /** Every pixel of the image lies in the pass image of its pass, at its column and row. */
  lemma PixelInPass(w: nat, h: nat, x: nat, y: nat)
    requires x < w && y < h
    ensures var p := PassOf(x, y);
      && Column(p, x) < PassWidth(w, p) && x == XOrig(p) + XSpc(p) * Column(p, x)
      && Row(p, y) < PassHeight(h, p) && y == YOrig(p) + YSpc(p) * Row(p, y)
  {
    PassGrid(x, y);
    hide PassOf;
    var p := PassOf(x, y);
    GridPoint(x, XOrig(p), XSpc(p), w);
    GridPoint(y, YOrig(p), YSpc(p), h);
  }

  /** The points o, o + s, o + 2s, ... below `w`, and how many there are. */
  lemma GridPoint(x: nat, o: nat, s: nat, w: nat)
    requires s == 1 || s == 2 || s == 4 || s == 8
    requires x < w && o < s && x % s == o
    ensures x >= o && x == o + s * ((x - o) / s) && (x - o) / s < (w - o + s - 1) / s
  {
    if s == 1 {
    } else if s == 2 {
    } else if s == 4 {
    } else {
    }
  }

  /** The pixels of a pass form a grid. */
  lemma PassGrid(x: nat, y: nat)
    ensures x % XSpc(PassOf(x, y)) == XOrig(PassOf(x, y))
    ensures y % YSpc(PassOf(x, y)) == YOrig(PassOf(x, y))
  {
  }

  /** Every element of a pass image is the pixel of the image at that pass, column and row. */
  lemma PassInImage(w: nat, h: nat, p: nat, i: nat, j: nat)
    requires w >= 1 && h >= 1 && p < 7 && i < PassWidth(w, p) && j < PassHeight(h, p)
    ensures var x, y := i * XSpc(p) + XOrig(p), j * YSpc(p) + YOrig(p);
      x < w && y < h && PassOf(x, y) == p && Column(p, x) == i && Row(p, y) == j
  {
    GridElement(i, XOrig(p), XSpc(p), w);
    GridElement(j, YOrig(p), YSpc(p), h);
    GridPass(i * XSpc(p) + XOrig(p), j * YSpc(p) + YOrig(p), p);
  }

  lemma GridElement(i: nat, o: nat, s: nat, w: nat)
    requires s == 1 || s == 2 || s == 4 || s == 8
    requires w >= 1 && o < s && i < (w - o + s - 1) / s
    ensures var x := i * s + o; x < w && x % s == o && (x - o) / s == i
  {
    var x := i * s + o;
    if s == 1 {
      assert x == i + o;
    } else if s == 2 {
      assert x == 2 * i + o && 2 * (i + 1) <= w - o + 1;
    } else if s == 4 {
      assert x == 4 * i + o && 4 * (i + 1) <= w - o + 3;
    } else {
      assert x == 8 * i + o && 8 * (i + 1) <= w - o + 7;
    }
  }

  lemma GridPass(x: nat, y: nat, p: nat)
    requires p < 7 && x % XSpc(p) == XOrig(p) && y % YSpc(p) == YOrig(p)
    ensures PassOf(x, y) == p
  {
  }

  // ---- the scatter ----

  /** The place of a pixel in a row-major image of `w` columns. */
  function Place(w: nat, x: nat, y: nat): nat {
    y * w + x
  }

  lemma PlaceInside(w: nat, h: nat, x: nat, y: nat)
    requires x < w && y < h
    ensures Place(w, x, y) < w * h
  {
    assert (y + 1) * w + (h - y - 1) * w == w * h;
    NonNegative(h - y - 1, w);
  }

  lemma NonNegative(a: nat, b: nat)
    ensures a * b >= 0
  {
  }

  /** Different pixels have different places. */
  lemma PlacesDiffer(w: nat, x: nat, y: nat, a: nat, b: nat)
    requires x < w && a < w && Place(w, x, y) == Place(w, a, b)
    ensures x == a && y == b
  {
    assert (y - b) * w == a - x;
    if y != b {
      LargeMultiple(y - b, w);
    }
  }

  lemma LargeMultiple(d: int, w: nat)
    requires d != 0
    ensures d * w + w <= 0 || w <= d * w
  {
    if d >= 1 {
      NonNegative(d - 1, w);
    } else {
      NonNegative(-d - 1, w);
    }
  }

  /** Whether pass `p` has any pixels. */
  predicate Occupied(w: nat, h: nat, p: nat)
    requires w >= 1 && h >= 1 && p < 7
  {
    PassWidth(w, p) != 0 && PassHeight(h, p) != 0
  }

  /** Results of the raw decoder, one per pass; those decoded have the size of their pass. */
  ghost predicate PassImages<P>(passes: seq<Option<seq<P>>>, w: nat, h: nat) {
    && w >= 1 && h >= 1 && |passes| == 7
    && forall p :: 0 <= p < 7 && passes[p].Some? ==> |passes[p].value| == PassWidth(w, p) * PassHeight(h, p)
  }

  ghost predicate AllDecoded<P>(passes: seq<Option<seq<P>>>, w: nat, h: nat, n: nat)
    requires PassImages(passes, w, h) && n <= 7
  {
    forall p :: 0 <= p < n && Occupied(w, h, p) ==> passes[p].Some?
  }

  /** `v` is the element that transmits pixel (x, y): in the image of its pass, at its row and column. */
  ghost predicate Transmits<P>(passes: seq<Option<seq<P>>>, w: nat, h: nat, x: nat, y: nat, v: P)
    requires PassImages(passes, w, h)
  {
    var p := PassOf(x, y);
    var k := Place(PassWidth(w, p), Column(p, x), Row(p, y));
    passes[p].Some? && k < |passes[p].value| && v == passes[p].value[k]
  }

  /** The pixel is written before element (i, j) of pass `p`. */
  predicate Before(x: nat, y: nat, p: nat, j: nat, i: nat) {
    var q := PassOf(x, y);
    q < p || (q == p && (Row(q, y) < j || (Row(q, y) == j && Column(q, x) < i)))
  }

  ghost predicate Written<P>(passes: seq<Option<seq<P>>>, w: nat, h: nat, final: seq<P>, x: nat, y: nat)
    requires PassImages(passes, w, h)
  {
    Place(w, x, y) < |final| && Transmits(passes, w, h, x, y, final[Place(w, x, y)])
  }

  /** The same over plain indices: both images hold their rows one after the other, left to right. */
  ghost predicate IsTransmitted<P>(passes: seq<Option<seq<P>>>, w: nat, h: nat, final: seq<P>, x: nat, y: nat)
    requires PassImages(passes, w, h)
  {
    var p := PassOf(x, y);
    var at, from := y * w + x, (y - YOrig(p)) / YSpc(p) * PassWidth(w, p) + (x - XOrig(p)) / XSpc(p);
    passes[p].Some? && 0 <= at < |final| && 0 <= from < |passes[p].value| && final[at] == passes[p].value[from]
  }

  lemma AllTransmitted<P>(passes: seq<Option<seq<P>>>, w: nat, h: nat, final: seq<P>)
    requires PassImages(passes, w, h) && WrittenBefore(passes, w, h, final, 7, 0, 0)
    ensures forall x: nat, y: nat :: x < w && y < h ==> IsTransmitted(passes, w, h, final, x, y)
  {
    forall x: nat, y: nat | x < w && y < h ensures IsTransmitted(passes, w, h, final, x, y) {
      ItIsTransmitted(passes, w, h, final, x, y);
    }
  }

  lemma ItIsTransmitted<P>(passes: seq<Option<seq<P>>>, w: nat, h: nat, final: seq<P>, x: nat, y: nat)
    requires PassImages(passes, w, h) && x < w && y < h && Written(passes, w, h, final, x, y)
    ensures IsTransmitted(passes, w, h, final, x, y)
  {
    hide PassOf, PassWidth, PassHeight, XSpc, YSpc, XOrig, YOrig;
    PixelInPass(w, h, x, y);
  }

  ghost predicate WrittenBefore<P>(passes: seq<Option<seq<P>>>, w: nat, h: nat, final: seq<P>, p: nat, j: nat, i: nat)
    requires PassImages(passes, w, h)
  {
    forall x: nat, y: nat :: x < w && y < h && Before(x, y, p, j, i) ==> Written(passes, w, h, final, x, y)
  }

  /** Scatter the seven pass images into one image of `w` columns and `h` rows.  `passes[p]` is what
      the raw decoder makes of pass `p`; a pass without pixels is not decoded. */
  method Deinterlace<P(0)>(w: nat, h: nat, passes: seq<Option<seq<P>>>) returns (ok: bool, final: array<P>)
    requires PassImages(passes, w, h)
    ensures ok <==> AllDecoded(passes, w, h, 7)
    ensures ok ==> final.Length == w * h
    ensures ok ==> forall x: nat, y: nat :: x < w && y < h ==> IsTransmitted(passes, w, h, final[..], x, y)
  {
    hide PassOf, Row, Column, Transmits, PassWidth, PassHeight, XOrig, YOrig, XSpc, YSpc, Place;
    NonNegative(w, h);
    final := new P[w * h];
    for p := 0 to 7
      invariant AllDecoded(passes, w, h, p)
      invariant WrittenBefore(passes, w, h, final[..], p, 0, 0)
    {
      var pw, ph := PassWidth(w, p), PassHeight(h, p);
      if pw != 0 && ph != 0 {
        if passes[p].None? {
          return false, final;
        }
        ScatterPass(passes, w, h, p, passes[p].value, final);
      }
      NextPass(passes, w, h, final[..], p);
    }
    AllTransmitted(passes, w, h, final[..]);
    ok := true;
  }

  method ScatterPass<P>(ghost passes: seq<Option<seq<P>>>, w: nat, h: nat, p: nat, image: seq<P>, final: array<P>)
    requires PassImages(passes, w, h) && p < 7 && passes[p] == Some(image) && final.Length == w * h
    requires WrittenBefore(passes, w, h, final[..], p, 0, 0)
    modifies final
    ensures WrittenBefore(passes, w, h, final[..], p, PassHeight(h, p), 0)
  {
    hide PassOf, Row, Column, Transmits, PassWidth, PassHeight, XOrig, YOrig, XSpc, YSpc, Place;
    for j := 0 to PassHeight(h, p)
      invariant WrittenBefore(passes, w, h, final[..], p, j, 0)
    {
      for i := 0 to PassWidth(w, p)
        invariant WrittenBefore(passes, w, h, final[..], p, j, i)
      {
        ghost var before := final[..];
        var x, y := i * XSpc(p) + XOrig(p), j * YSpc(p) + YOrig(p);
        ElementInPlace(passes, w, h, p, j, i, x, y, image);
        final[Place(w, x, y)] := image[Place(PassWidth(w, p), i, j)];
        OneMore(passes, w, h, before, final[..], p, j, i, x, y);
      }
      NextRow(passes, w, h, final[..], p, j);
    }
  }

  lemma ElementInPlace<P>(passes: seq<Option<seq<P>>>, w: nat, h: nat, p: nat, j: nat, i: nat, x: nat, y: nat,
                          image: seq<P>)
    requires PassImages(passes, w, h) && p < 7 && passes[p] == Some(image)
    requires i < PassWidth(w, p) && j < PassHeight(h, p)
    requires x == i * XSpc(p) + XOrig(p) && y == j * YSpc(p) + YOrig(p)
    ensures x < w && y < h && PassOf(x, y) == p && Column(p, x) == i && Row(p, y) == j
    ensures Place(w, x, y) < w * h && Place(PassWidth(w, p), i, j) < |image|
    ensures Transmits(passes, w, h, x, y, image[Place(PassWidth(w, p), i, j)])
  {
    PassInImage(w, h, p, i, j);
    hide PassOf, Row, Column, PassWidth, PassHeight, XOrig, YOrig, XSpc, YSpc, Place;
    PlaceInside(w, h, x, y);
    PlaceInside(PassWidth(w, p), PassHeight(h, p), i, j);
  }

  lemma OneMore<P>(passes: seq<Option<seq<P>>>, w: nat, h: nat, before: seq<P>, after: seq<P>,
                   p: nat, j: nat, i: nat, x: nat, y: nat)
    requires PassImages(passes, w, h) && p < 7 && x < w && y < h
    requires i < PassWidth(w, p) && j < PassHeight(h, p)
    requires x == i * XSpc(p) + XOrig(p) && y == j * YSpc(p) + YOrig(p)
    requires WrittenBefore(passes, w, h, before, p, j, i) && |before| == |after| && Place(w, x, y) < |after|
    requires forall k :: 0 <= k < |after| && k != Place(w, x, y) ==> after[k] == before[k]
    requires Transmits(passes, w, h, x, y, after[Place(w, x, y)])
    ensures WrittenBefore(passes, w, h, after, p, j, i + 1)
  {
    hide PassOf, Transmits, PassWidth, PassHeight, Place, PassImages;
    forall a: nat, b: nat | a < w && b < h && Before(a, b, p, j, i + 1) ensures Written(passes, w, h, after, a, b) {
      if Before(a, b, p, j, i) {
        if Place(w, a, b) == Place(w, x, y) {
          PlacesDiffer(w, a, b, x, y);
        }
      } else {
        PixelInPass(w, h, a, b);
      }
    }
  }

  lemma NextRow<P>(passes: seq<Option<seq<P>>>, w: nat, h: nat, final: seq<P>, p: nat, j: nat)
    requires PassImages(passes, w, h) && p < 7 && WrittenBefore(passes, w, h, final, p, j, PassWidth(w, p))
    ensures WrittenBefore(passes, w, h, final, p, j + 1, 0)
  {
    hide PassOf, Row, Column, PassWidth, PassHeight, Written, PassImages, XOrig, YOrig, XSpc, YSpc;
    forall x: nat, y: nat | x < w && y < h && Before(x, y, p, j + 1, 0) ensures Written(passes, w, h, final, x, y) {
      PixelInPass(w, h, x, y);
    }
  }

  lemma NextPass<P>(passes: seq<Option<seq<P>>>, w: nat, h: nat, final: seq<P>, p: nat)
    requires PassImages(passes, w, h) && p < 7
    requires Occupied(w, h, p) ==> WrittenBefore(passes, w, h, final, p, PassHeight(h, p), 0)
    requires WrittenBefore(passes, w, h, final, p, 0, 0)
    ensures WrittenBefore(passes, w, h, final, p + 1, 0, 0)
  {
    hide PassOf, Row, Column, PassWidth, PassHeight, Written, PassImages, XOrig, YOrig, XSpc, YSpc;
    forall x: nat, y: nat | x < w && y < h && Before(x, y, p + 1, 0, 0) ensures Written(passes, w, h, final, x, y) {
      PixelInPass(w, h, x, y);
    }
  }
}
