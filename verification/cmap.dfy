/**
 * The connection-matrix painter: for one square matrix of integer codes it
 * makes a 150 x 150 three-channel image, white everywhere, and then paints
 * cell (i, j) of the matrix onto pixel (i, j) in the colour the palette
 * gives its code. Cells whose code is not in the palette are left alone.
 */
module ConnectionMap {
  import opened Wrappers

  /** An 8-bit channel value, as stored by cmap.py's `uint8` buffer. */
  newtype byte = x: int | 0 <= x < 256

  /** Height and width of every image. */
  const H := 150
  const W := 150

  /**
   * One pixel: the three channels in the order the buffer stores them
   * (OpenCV reads them as blue, green, red).
   */
  datatype Colour = Colour(blue: byte, green: byte, red: byte)

  const White := Colour(255, 255, 255)

  /** The colour each code is painted in; `None` for codes the palette does not list. */
  function Palette(code: int): (colour: Option<Colour>)
    ensures colour.Some? <==> code in PaletteCodes
  {
    if code == 0 then Some(Colour(255, 255, 255))
    else if code == 1 then Some(Colour(0, 0, 0))
    else if code == 2 then Some(Colour(26, 0, 0))
    else if code == 3 then Some(Colour(51, 0, 0))
    else if code == 6 then Some(Colour(128, 128, 128))
    else if code == 7 then Some(Colour(0, 0, 255))
    else if code == 8 then Some(Colour(255, 0, 0))
    else if code == 9 then Some(Colour(51, 204, 51))
    else if code == 14 then Some(Colour(255, 102, 0))
    else if code == 16 then Some(Colour(255, 255, 0))
    else if code == 17 then Some(Colour(0, 102, 0))
    else if code == 26 then Some(Colour(102, 102, 153))
    else if code == 33 then Some(Colour(255, 153, 255))
    else if code == 34 then Some(Colour(255, 153, 102))
    else if code == 35 then Some(Colour(102, 0, 102))
    else None
  }

  /** The codes the palette lists. */
  const PaletteCodes: set<int> := {0, 1, 2, 3, 6, 7, 8, 9, 14, 16, 17, 26, 33, 34, 35}

  /**
   * Listed codes other than 0 get pairwise different colours, none of them
   * white, so every painted non-white pixel tells which code it came from.
   */
  lemma PaletteDistinguishes(a: int, b: int)
    requires Palette(a).Some? && Palette(b).Some?
    ensures Palette(a) == Palette(b) ==> a == b
    ensures Palette(a) == Some(White) <==> a == 0
  {
  }

  /**
   * The matrices the painter can handle: each row at least as long as the
   * number of rows, since both loops run to `len(mt)`, and no listed code in
   * a cell of that square that lies outside the 150 x 150 image, since only
   * a listed code writes to the buffer. A larger matrix whose extra cells
   * hold unlisted codes is painted where it overlaps the image.
   */
  predicate WellFormed(mt: seq<seq<int>>) {
    (forall i :: 0 <= i < |mt| ==> |mt[i]| >= |mt|) &&
    forall i, j :: 0 <= i < |mt| && 0 <= j < |mt| && (i >= H || j >= W) ==> Palette(mt[i][j]).None?
  }

  /**
   * Pixel (y, x) after painting `mt` over a pixel that was `before`: the
   * palette colour of cell (y, x) when the cell lies in the painted square
   * and its code is listed, and `before` otherwise.
   */
  function PaintedOver(mt: seq<seq<int>>, y: nat, x: nat, before: Colour): (after: Colour)
    requires WellFormed(mt)
    ensures y >= |mt| || x >= |mt| ==> after == before
    ensures after != before ==> y < |mt| && x < |mt| && Palette(mt[y][x]) == Some(after)
    ensures y < |mt| && x < |mt| && mt[y][x] in PaletteCodes ==> Some(after) == Palette(mt[y][x])
  {
    if y < |mt| && x < |mt| && Palette(mt[y][x]).Some? then Palette(mt[y][x]).value else before
  }

  /** Pixel (y, x) of the finished image: painted over white. */
  function Rendered(mt: seq<seq<int>>, y: nat, x: nat): (colour: Colour)
    requires WellFormed(mt)
    ensures y >= |mt| || x >= |mt| ==> colour == White
    ensures y < |mt| && x < |mt| && mt[y][x] in PaletteCodes ==> Some(colour) == Palette(mt[y][x])
    ensures y < |mt| && x < |mt| && mt[y][x] !in PaletteCodes ==> colour == White
  {
    PaintedOver(mt, y, x, White)
  }

  /** A pixel of the finished image is white exactly when nothing coloured was painted on it. */
  lemma RenderedWhite(mt: seq<seq<int>>, y: nat, x: nat)
    requires WellFormed(mt)
    ensures Rendered(mt, y, x) == White <==>
      y >= |mt| || x >= |mt| || mt[y][x] !in PaletteCodes || mt[y][x] == 0
  {
    if y < |mt| && x < |mt| && Palette(mt[y][x]).Some? {
      PaletteDistinguishes(mt[y][x], 0);
    }
  }

  /** A non-white pixel gives back the code of its cell. */
  lemma RenderedRecoversCode(mt: seq<seq<int>>, y: nat, x: nat, code: int)
    requires WellFormed(mt)
    requires Rendered(mt, y, x) != White && Palette(code) == Some(Rendered(mt, y, x))
    ensures y < |mt| && x < |mt| && mt[y][x] == code
  {
    if y < |mt| && x < |mt| && Palette(mt[y][x]).Some? {
      PaletteDistinguishes(mt[y][x], code);
    }
  }

  // ---------------------------------------------------------------------
  // The image buffer
  // ---------------------------------------------------------------------

  predicate IsImage(img: array3<byte>) {
    img.Length0 == H && img.Length1 == W && img.Length2 == 3
  }

  /** The three channels of pixel (y, x). */
  function PixelAt(img: array3<byte>, y: nat, x: nat): (colour: Colour)
    requires IsImage(img) && y < H && x < W
    reads img
  {
    Colour(img[y, x, 0], img[y, x, 1], img[y, x, 2])
  }

  /** The three channel stores of one pixel: pixel (y, x) becomes `c`, every other pixel stays. */
  method SetPixel(img: array3<byte>, y: nat, x: nat, c: Colour)
    requires IsImage(img) && y < H && x < W
    modifies img
    ensures PixelAt(img, y, x) == c
    ensures forall y', x' :: 0 <= y' < H && 0 <= x' < W && (y', x') != (y, x) ==>
      PixelAt(img, y', x') == old(PixelAt(img, y', x'))
  {
    img[y, x, 0] := c.blue;
    img[y, x, 1] := c.green;
    img[y, x, 2] := c.red;
  }

  /** `np.zeros((h, w, 3), np.uint8)` followed by the loops that set every channel to 255. */
  method NewWhiteImage() returns (img: array3<byte>)
    ensures fresh(img) && IsImage(img)
    ensures forall y, x :: 0 <= y < H && 0 <= x < W ==> PixelAt(img, y, x) == White
  {
    img := new byte[H, W, 3]((_, _, _) => 0);
    for py := 0 to H
      invariant forall y, x :: 0 <= y < py && 0 <= x < W ==> PixelAt(img, y, x) == White
    {
      for px := 0 to W
        invariant forall y, x :: 0 <= y < py && 0 <= x < W ==> PixelAt(img, y, x) == White
        invariant forall x :: 0 <= x < px ==> PixelAt(img, py, x) == White
      {
        SetPixel(img, py, px, White);
      }
    }
  }

  /**
   * The nested loops over the `len(mt)` x `len(mt)` square: a cell with a
   * listed code has all three channels of its pixel set to the code's
   * colour; any other pixel keeps what it had.
   */
  method Paint(img: array3<byte>, mt: seq<seq<int>>)
    requires IsImage(img) && WellFormed(mt)
    modifies img
    ensures forall y, x :: 0 <= y < H && 0 <= x < W ==>
      PixelAt(img, y, x) == PaintedOver(mt, y, x, old(PixelAt(img, y, x)))
  {
    var n := |mt|;
    for i := 0 to n
      invariant forall y, x :: 0 <= y < H && 0 <= x < W ==>
        PixelAt(img, y, x) == if y < i then PaintedOver(mt, y, x, old(PixelAt(img, y, x))) else old(PixelAt(img, y, x))
    {
      for j := 0 to n
        invariant forall y, x :: 0 <= y < H && 0 <= x < W ==>
          PixelAt(img, y, x) ==
            if y < i || (y == i && x < j) then PaintedOver(mt, y, x, old(PixelAt(img, y, x))) else old(PixelAt(img, y, x))
      {
        match Palette(mt[i][j])
        case Some(c) => SetPixel(img, i, j, c);
        case None =>
      }
    }
  }

  /** One pass of the script's loop body, from the parsed matrix to the image it writes. */
  method Render(mt: seq<seq<int>>) returns (img: array3<byte>)
    requires WellFormed(mt)
    ensures fresh(img) && IsImage(img)
    ensures forall y, x :: 0 <= y < H && 0 <= x < W ==> PixelAt(img, y, x) == Rendered(mt, y, x)
  {
    img := NewWhiteImage();
    Paint(img, mt);
  }
}
