/** The fixed table of resolutions every uploaded image is stored at, and the
    dimensions `uploadFile` gives each variant.

    jimp's `resize` changes the image in place and returns it, so the width and
    height read on each pass of the loop are those of the PREVIOUS variant, not
    of the source: the dimensions are a fold over the table. */
module Variants {

  type PosNat = n: nat | n > 0 witness 1

  /** An exact rational `num / den`. */
  datatype Ratio = Ratio(num: nat, den: PosNat)

  /** One row of the table: the scaling ratio and the key prefix (`path`). */
  datatype Size = Size(ratio: Ratio, path: string)

  /** The table, in the order the loop visits it. */
  const Sizes: seq<Size> := [
    Size(Ratio(1, 1), "original_size"),
    Size(Ratio(1, 2), "50%_resize"),
    Size(Ratio(1, 4), "25%_resize"),
    Size(Ratio(1, 10), "10%_resize")
  ]

  /** `Math.floor(x * ratio)` for a non-negative size, in exact arithmetic. */
  function Scale(x: nat, r: Ratio): nat
  {
    x * r.num / r.den
  }

  /** The side jimp's `resize` gives a bitmap asked for `Scale(x, r)`: jimp
      rounds a requested side of 0 up to 1, so no variant is ever empty. */
  function Resized(x: nat, r: Ratio): (y: PosNat)
    ensures Scale(x, r) > 0 ==> y == Scale(x, r)
    ensures Scale(x, r) == 0 ==> y == 1
  {
    AtLeastOne(Scale(x, r))
  }

  /** `n`, or 1 in place of 0. */
  function AtLeastOne(n: nat): PosNat
  {
    if n == 0 then 1 else n
  }

  /** The decoded image as far as the model needs it; a decoded bitmap has at
      least one pixel a side. */
  datatype Image = Image(width: PosNat, height: PosNat, mime: string)

  /** One resized rendition: the table row it belongs to, its size, its MIME type. */
  datatype Variant = Variant(path: string, width: PosNat, height: PosNat, mime: string)

  /** The variants produced from `cur` by walking `sizes`, each pass scaling the
      image left behind by the previous pass. Every variant carries its row's
      path and the MIME type read once from the source. */
  function Derive(cur: Image, sizes: seq<Size>): (vs: seq<Variant>)
    ensures |vs| == |sizes|
    ensures forall i :: 0 <= i < |vs| ==> vs[i].path == sizes[i].path && vs[i].mime == cur.mime
    decreases |sizes|
  {
    if |sizes| == 0 then []
    else
      var w := Resized(cur.width, sizes[0].ratio);
      var h := Resized(cur.height, sizes[0].ratio);
      [Variant(sizes[0].path, w, h, cur.mime)] + Derive(Image(w, h, cur.mime), sizes[1..])
  }

  /** One pass of the fold: the head variant, then the fold over the rest
      starting from it. */
  lemma DeriveStep(cur: Image, sizes: seq<Size>)
    requires |sizes| > 0
    ensures var w := Resized(cur.width, sizes[0].ratio);
            var h := Resized(cur.height, sizes[0].ratio);
      Derive(cur, sizes) == [Variant(sizes[0].path, w, h, cur.mime)] + Derive(Image(w, h, cur.mime), sizes[1..])
  {
  }

  /** The first variant scales the source itself. */
  lemma DeriveHead(img: Image, sizes: seq<Size>)
    requires |sizes| > 0
    ensures Derive(img, sizes)[0].width == Resized(img.width, sizes[0].ratio)
    ensures Derive(img, sizes)[0].height == Resized(img.height, sizes[0].ratio)
  {
  }

  /** Every later variant scales the variant before it, not the source. */
  lemma {:induction false} DeriveChain(img: Image, sizes: seq<Size>, i: nat)
    requires 0 < i < |sizes|
    ensures Derive(img, sizes)[i].width == Resized(Derive(img, sizes)[i - 1].width, sizes[i].ratio)
    ensures Derive(img, sizes)[i].height == Resized(Derive(img, sizes)[i - 1].height, sizes[i].ratio)
    decreases i
  {
    var w := Resized(img.width, sizes[0].ratio);
    var h := Resized(img.height, sizes[0].ratio);
    var next := Image(w, h, img.mime);
    var vs := Derive(img, sizes);
    assert vs[1..] == Derive(next, sizes[1..]);
    if i > 1 {
      DeriveChain(next, sizes[1..], i - 1);
      assert vs[i] == Derive(next, sizes[1..])[i - 1];
      assert vs[i - 1] == Derive(next, sizes[1..])[i - 2];
    }
  }

  /** The table's first row has ratio 1, so the first variant keeps exactly
      the source's width and height. */
  lemma FirstVariantIsSourceSize(img: Image)
    ensures Derive(img, Sizes)[0].width == img.width
    ensures Derive(img, Sizes)[0].height == img.height
  {
    DeriveHead(img, Sizes);
    ScaleByOne(img.width);
    ScaleByOne(img.height);
  }

  lemma ScaleByOne(x: nat)
    ensures Scale(x, Ratio(1, 1)) == x
  {
  }

  /** Resizing a non-empty side by a ratio of at most one never grows it. */
  lemma ResizedShrinks(x: PosNat, r: Ratio)
    requires r.num <= r.den
    ensures Resized(x, r) <= x
  {
    ScaleShrinks(x, r);
  }

  /** Scaling by a ratio of at most one never grows a size. */
  lemma ScaleShrinks(x: nat, r: Ratio)
    requires r.num <= r.den
    ensures Scale(x, r) <= x
  {
    assert x * r.num <= x * r.den;
  }

  /** Every ratio in `sizes` is at most one. */
  predicate Shrinking(sizes: seq<Size>)
  {
    forall i :: 0 <= i < |sizes| ==> sizes[i].ratio.num <= sizes[i].ratio.den
  }

  /** Along a table of shrinking ratios the dimensions never increase. */
  lemma DeriveNonIncreasing(img: Image, sizes: seq<Size>, i: nat)
    requires Shrinking(sizes) && 0 < i < |sizes|
    ensures Derive(img, sizes)[i].width <= Derive(img, sizes)[i - 1].width
    ensures Derive(img, sizes)[i].height <= Derive(img, sizes)[i - 1].height
  {
    var vs := Derive(img, sizes);
    DeriveChain(img, sizes, i);
    ResizedShrinks(vs[i - 1].width, sizes[i].ratio);
    ResizedShrinks(vs[i - 1].height, sizes[i].ratio);
  }

  /** Over the table every variant is at most as large as the one before it. */
  lemma SizesNonIncreasing(img: Image, i: nat)
    requires 0 < i < |Sizes|
    ensures Derive(img, Sizes)[i].width <= Derive(img, Sizes)[i - 1].width
    ensures Derive(img, Sizes)[i].height <= Derive(img, Sizes)[i - 1].height
  {
    assert Shrinking(Sizes);
    DeriveNonIncreasing(img, Sizes, i);
  }

  /** Halving then quartering, with a 0 rounded up to 1 after each step, is
      dividing by 8 once, with the same rounding. */
  lemma HalfThenQuarter(x: PosNat)
    ensures AtLeastOne(AtLeastOne(x / 2) / 4) == AtLeastOne(x / 8)
  {
    if x >= 2 {
      assert x / 2 / 4 == x / 8;
    }
  }

  /** Dividing by 8 then by 10, with the same rounding, is dividing by 80. */
  lemma EighthThenTenth(x: PosNat)
    ensures AtLeastOne(AtLeastOne(x / 8) / 10) == AtLeastOne(x / 80)
  {
    if x >= 8 {
      assert x / 8 / 10 == x / 80;
    }
  }

  /** Closed form of the fold over the table: the source divided by the running
      product of the denominators 1, 2, 4, 10, that is by 1, 2, 8 and 80, with
      a side that reaches 0 kept at 1. */
  lemma {:induction false} SizesClosedForm(img: Image)
    ensures var vs := Derive(img, Sizes);
      && vs[0].width == img.width && vs[0].height == img.height
      && vs[1].width == AtLeastOne(img.width / 2) && vs[1].height == AtLeastOne(img.height / 2)
      && vs[2].width == AtLeastOne(img.width / 8) && vs[2].height == AtLeastOne(img.height / 8)
      && vs[3].width == AtLeastOne(img.width / 80) && vs[3].height == AtLeastOne(img.height / 80)
  {
    var vs := Derive(img, Sizes);
    FirstVariantIsSourceSize(img);
    DeriveChain(img, Sizes, 1);
    DeriveChain(img, Sizes, 2);
    DeriveChain(img, Sizes, 3);
    HalfThenQuarter(img.width);
    HalfThenQuarter(img.height);
    EighthThenTenth(img.width);
    EighthThenTenth(img.height);
  }

  /** A 100 by 100 source yields 100, 50, 12 and 1 pixels a side. */
  lemma HundredPixelSource(mime: string)
    ensures var vs := Derive(Image(100, 100, mime), Sizes);
      && vs[0].width == 100 && vs[0].height == 100
      && vs[1].width == 50 && vs[1].height == 50
      && vs[2].width == 12 && vs[2].height == 12
      && vs[3].width == 1 && vs[3].height == 1
  {
    SizesClosedForm(Image(100, 100, mime));
  }

  /** Scaling every row from the source instead, which the fold does not do. */
  function IndependentWidths(x: nat, sizes: seq<Size>): (ws: seq<PosNat>)
    ensures |ws| == |sizes|
  {
    seq(|sizes|, i requires 0 <= i < |sizes| => Resized(x, sizes[i].ratio))
  }

  /** The fold's `25%_resize` variant is strictly narrower than a quarter of
      the source exactly when the source is at least 8 pixels wide; below
      that both are 1 pixel wide. */
  lemma FoldNarrowerThanIndependent(img: Image)
    ensures Derive(img, Sizes)[2].width < IndependentWidths(img.width, Sizes)[2]
            <==> img.width >= 8
  {
    SizesClosedForm(img);
    assert IndependentWidths(img.width, Sizes)[2] == AtLeastOne(img.width / 4);
  }
}
