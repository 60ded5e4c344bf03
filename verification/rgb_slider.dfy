/** The two computations inside the Tk callbacks of trinkets/rgb_slider.py:
    the "#rrggbb" fill colour built from the three slider values, and the
    centred square tile laid out for a canvas of a given size. */
module RgbSlider {
  import opened Results
  import opened IntMath

  /** MARGIN: the gap kept between the tile and each canvas edge. */
  const Margin: int := 10

  /** The smallest side the tile is ever given. */
  const MinSide: int := 10

  /** The upper bound of each slider (the lower bound is 0). */
  const ChannelMax: int := 255

  /** A value a slider can hold. */
  predicate IsChannel(v: int) {
    0 <= v <= ChannelMax
  }

  // ----------------------------------------------------------------------
  // Lower-case hexadecimal digits

  predicate IsHexDigit(c: char) {
    '0' <= c <= '9' || 'a' <= c <= 'f'
  }

  /** The value of a lower-case hexadecimal digit, None for any other char. */
  function DigitValue(c: char): (r: Option<int>)
    ensures r.Some? <==> IsHexDigit(c)
    ensures r.Some? ==> 0 <= r.value < 16
  {
    if '0' <= c <= '9' then Some(c as int - '0' as int)
    else if 'a' <= c <= 'f' then Some(c as int - 'a' as int + 10)
    else None
  }

  /** The lower-case hexadecimal digit for d. */
  function HexDigit(d: int): (c: char)
    requires 0 <= d < 16
    ensures IsHexDigit(c) && DigitValue(c) == Some(d)
  {
    if d < 10 then (d + '0' as int) as char else (d - 10 + 'a' as int) as char
  }

  /** A digit is determined by its value. */
  lemma DigitValueInjective(c: char, d: char)
    requires DigitValue(c).Some? && DigitValue(c) == DigitValue(d)
    ensures c == d
  {
  }

  /** The value of a two-digit lower-case hexadecimal string. */
  function PairValue(s: string): (r: Option<int>)
    requires |s| == 2
    ensures r.Some? <==> IsHexDigit(s[0]) && IsHexDigit(s[1])
    ensures r.Some? ==> IsChannel(r.value)
  {
    match (DigitValue(s[0]), DigitValue(s[1]))
    case (Some(hi), Some(lo)) => Some(16 * hi + lo)
    case _ => None
  }

  /** Format spec "02x": v as exactly two lower-case hexadecimal digits,
      zero-padded; for a slider value the digits never exceed two. */
  function Hex2(v: int): (s: string)
    requires IsChannel(v)
    ensures |s| == 2 && IsHexDigit(s[0]) && IsHexDigit(s[1])
    ensures PairValue(s) == Some(v)
  {
    [HexDigit(v / 16), HexDigit(v % 16)]
  }

  /** A two-digit string with value v is the formatting of v. */
  lemma Hex2OfPairValue(s: string, v: int)
    requires |s| == 2 && PairValue(s) == Some(v)
    ensures IsChannel(v) && Hex2(v) == s
  {
    var hi, lo := DigitValue(s[0]).value, DigitValue(s[1]).value;
    assert v / 16 == hi && v % 16 == lo;
    DigitValueInjective(s[0], HexDigit(hi));
    DigitValueInjective(s[1], HexDigit(lo));
  }

  // ----------------------------------------------------------------------
  // The fill colour (line 14)

  /** f"#{r:02x}{g:02x}{b:02x}": a '#' then each channel as two lower-case
      hexadecimal digits, red first, blue last. Each pair of digits reads
      back as the channel it came from. */
  function ColorString(r: int, g: int, b: int): (s: string)
    requires IsChannel(r) && IsChannel(g) && IsChannel(b)
    ensures |s| == 7 && s[0] == '#'
    ensures forall i :: 1 <= i < 7 ==> IsHexDigit(s[i])
    ensures PairValue(s[1..3]) == Some(r)
    ensures PairValue(s[3..5]) == Some(g)
    ensures PairValue(s[5..7]) == Some(b)
  {
    var s := "#" + Hex2(r) + Hex2(g) + Hex2(b);
    assert s[1..3] == Hex2(r) && s[3..5] == Hex2(g) && s[5..7] == Hex2(b);
    s
  }

  /** Reads a "#rrggbb" string back into its three channels; None when it is
      not a '#' followed by six lower-case hexadecimal digits. */
  function ParseColor(s: string): (c: Option<(int, int, int)>)
    ensures c.Some? ==> |s| == 7 && s[0] == '#'
    ensures c.Some? ==> IsChannel(c.value.0) && IsChannel(c.value.1) && IsChannel(c.value.2)
  {
    if |s| != 7 || s[0] != '#' then None
    else
      match (PairValue(s[1..3]), PairValue(s[3..5]), PairValue(s[5..7]))
      case (Some(r), Some(g), Some(b)) => Some((r, g, b))
      case _ => None
  }

  /** Decoding the colour string gives back the slider values. */
  lemma ParseColorString(r: int, g: int, b: int)
    requires IsChannel(r) && IsChannel(g) && IsChannel(b)
    ensures ParseColor(ColorString(r, g, b)) == Some((r, g, b))
  {
  }

  /** Every string that decodes is the colour string of what it decodes to,
      so the encoding is onto the well-formed "#rrggbb" strings and no two
      slider settings share a colour string. */
  lemma ColorStringOfParse(s: string)
    requires ParseColor(s).Some?
    ensures var (r, g, b) := ParseColor(s).value; ColorString(r, g, b) == s
  {
    var (r, g, b) := ParseColor(s).value;
    Hex2OfPairValue(s[1..3], r);
    Hex2OfPairValue(s[3..5], g);
    Hex2OfPairValue(s[5..7], b);
    assert s == [s[0]] + s[1..3] + s[3..5] + s[5..7];
  }

  /** Distinct slider settings give distinct colour strings. */
  lemma ColorStringInjective(r: int, g: int, b: int, r': int, g': int, b': int)
    requires IsChannel(r) && IsChannel(g) && IsChannel(b)
    requires IsChannel(r') && IsChannel(g') && IsChannel(b')
    requires ColorString(r, g, b) == ColorString(r', g', b')
    ensures r == r' && g == g' && b == b'
  {
    ParseColorString(r, g, b);
    ParseColorString(r', g', b');
  }

  /** The sliders start at 255 each (lines 70, 81, 92), which is the
      initial white "#ffffff" of the tile (line 53); all zero is black. */
  lemma ColorStringExamples()
    ensures ColorString(ChannelMax, ChannelMax, ChannelMax) == "#ffffff"
    ensures ColorString(0, 0, 0) == "#000000"
    ensures ColorString(1, 171, 16) == "#01ab10"
  {
    assert Hex2(255) == "ff" && Hex2(0) == "00";
    assert Hex2(1) == "01" && Hex2(171) == "ab" && Hex2(16) == "10";
  }

  // ----------------------------------------------------------------------
  // The tile (lines 20-28)

  /** A rectangle by its top-left corner (x0, y0) and bottom-right corner
      (x1, y1), as given to the canvas. */
  datatype Rect = Rect(x0: int, y0: int, x1: int, y1: int)

  /** Lines 22-23: the side leaves Margin on both sides of the shorter
      canvas dimension, but is never below MinSide. */
  function TileSide(w: int, h: int): (side: int)
    ensures MinSide <= side
    ensures Min(w, h) - 2 * Margin <= side
    ensures side == MinSide || side == Min(w, h) - 2 * Margin
  {
    Max(Min(w, h) - 2 * Margin, MinSide)
  }

  /** Lines 25-28: a square of side TileSide(w, h) whose corner is placed at
      half the leftover space, rounded down (floor division, also when the
      leftover is negative because the canvas is smaller than the tile). */
  function Tile(w: int, h: int): (t: Rect)
    ensures t.x1 - t.x0 == TileSide(w, h) && t.y1 - t.y0 == TileSide(w, h)
    ensures 2 * t.x0 <= w - TileSide(w, h) < 2 * t.x0 + 2
    ensures 2 * t.y0 <= h - TileSide(w, h) < 2 * t.y0 + 2
  {
    var side := TileSide(w, h);
    var x0 := (w - side) / 2;
    var y0 := (h - side) / 2;
    Rect(x0, y0, x0 + side, y0 + side)
  }

  /** The tile is centred: the gap on the right (bottom) equals the gap on
      the left (top), or exceeds it by one pixel when the leftover is odd. */
  lemma TileCentred(w: int, h: int)
    ensures var t := Tile(w, h);
      t.x0 <= w - t.x1 <= t.x0 + 1 && t.y0 <= h - t.y1 <= t.y0 + 1
  {
  }

  /** On a canvas at least 2 * Margin + MinSide on its shorter side, the tile
      keeps at least Margin from every edge and touches the margin band on
      the shorter dimension. */
  lemma TileKeepsMargin(w: int, h: int)
    requires Min(w, h) >= 2 * Margin + MinSide
    ensures var t := Tile(w, h);
      Margin <= t.x0 && t.x1 <= w - Margin && Margin <= t.y0 && t.y1 <= h - Margin
    ensures var t := Tile(w, h);
      (w <= h ==> t.x0 == Margin && t.x1 == w - Margin) && (h <= w ==> t.y0 == Margin && t.y1 == h - Margin)
  {
  }

  /** A 1000 x 700 canvas gets a 680-pixel tile touching the top and bottom
      margins; a canvas smaller than MinSide gets a MinSide tile that
      overhangs every edge. */
  lemma TileExample()
    ensures Tile(1000, 700) == Rect(160, 10, 840, 690)
    ensures Tile(5, 5) == Rect(-3, -3, 7, 7)
  {
  }
}
