/**
 * Buttons of the button window: colour packing for the graphics library,
 * the size check, and the contrasting text colour of a labelled button.
 */
module Buttons {
  import opened Wrappers

  /** One channel as the program normalises it: abs(v) % 256. */
  function Channel(v: int): (c: int)
    ensures 0 <= c < 256
  {
    (if v < 0 then -v else v) % 256
  }

  /**
   * rgb_to_argb: 0xFF << 24 | c(r) << 16 | c(g) << 8 | c(b). The four fields
   * occupy disjoint bytes, so the bitwise or is the sum written here
   * (OrIsSum proves the two agree on every triple of channel bytes).
   */
  function RgbToArgb(r: int, g: int, b: int): (c: int)
    ensures 0xFF00_0000 <= c <= 0xFFFF_FFFF
  {
    0xFF * 0x100_0000 + Channel(r) * 0x1_0000 + Channel(g) * 0x100 + Channel(b)
  }

  /** rgb_to_rgb24: the blue-green-red word c(b) << 16 | c(g) << 8 | c(r). */
  function RgbToRgb24(r: int, g: int, b: int): (c: int)
    ensures 0 <= c < 0x100_0000
  {
    Channel(b) * 0x1_0000 + Channel(g) * 0x100 + Channel(r)
  }

  /** Byte k (0 = least significant) of a non-negative word. */
  function ByteAt(c: int, k: nat): (v: int)
    requires c >= 0
    ensures 0 <= v < 256
  {
    if k == 0 then c % 256 else ByteAt(c / 256, k - 1)
  }

  /** A byte is its own channel. */
  lemma ByteChannel(v: bv8)
    ensures Channel(v as int) == v as int
  {
  }

  /**
   * The source's bitwise packings of three channel bytes, computed on 32-bit
   * words, are the words RgbToArgb and RgbToRgb24 give. Every channel that
   * reaches the or is a byte, since both functions first apply abs(v) % 256.
   */
  lemma OrIsSum(red: bv8, green: bv8, blue: bv8)
    ensures (((0xFF as bv32) << 24) | ((red as bv32) << 16) | ((green as bv32) << 8) | (blue as bv32)) as int
      == RgbToArgb(red as int, green as int, blue as int)
    ensures (((blue as bv32) << 16) | ((green as bv32) << 8) | (red as bv32)) as int
      == RgbToRgb24(red as int, green as int, blue as int)
  {
    ByteChannel(red);
    ByteChannel(green);
    ByteChannel(blue);
  }

  /** Splitting off the low byte of hi * 256 + lo. */
  lemma LowByte(hi: int, lo: int)
    requires hi >= 0 && 0 <= lo < 256
    ensures (hi * 256 + lo) / 256 == hi && (hi * 256 + lo) % 256 == lo
  {
  }

  /** The bytes of the word whose bytes, from the top, are b3, b2, b1, b0. */
  lemma WordBytes(b3: int, b2: int, b1: int, b0: int)
    requires 0 <= b3 < 256 && 0 <= b2 < 256 && 0 <= b1 < 256 && 0 <= b0 < 256
    ensures ByteAt(((b3 * 256 + b2) * 256 + b1) * 256 + b0, 0) == b0
    ensures ByteAt(((b3 * 256 + b2) * 256 + b1) * 256 + b0, 1) == b1
    ensures ByteAt(((b3 * 256 + b2) * 256 + b1) * 256 + b0, 2) == b2
    ensures ByteAt(((b3 * 256 + b2) * 256 + b1) * 256 + b0, 3) == b3
  {
    var w2 := b3 * 256 + b2;
    var w1 := w2 * 256 + b1;
    var w0 := w1 * 256 + b0;
    LowByte(w1, b0);
    LowByte(w2, b1);
    LowByte(b3, b2);
    assert ByteAt(w0, 1) == ByteAt(w1, 0);
    assert ByteAt(w0, 2) == ByteAt(w1, 1) == ByteAt(w2, 0);
    assert ByteAt(w0, 3) == ByteAt(w1, 2) == ByteAt(w2, 1) == ByteAt(b3, 0);
  }

  /** Unpacking an ARGB word gives full opacity and the three normalised channels back. */
  lemma ArgbBytes(r: int, g: int, b: int)
    ensures 0xFF00_0000 <= RgbToArgb(r, g, b) <= 0xFFFF_FFFF
    ensures ByteAt(RgbToArgb(r, g, b), 3) == 0xFF
    ensures ByteAt(RgbToArgb(r, g, b), 2) == Channel(r)
    ensures ByteAt(RgbToArgb(r, g, b), 1) == Channel(g)
    ensures ByteAt(RgbToArgb(r, g, b), 0) == Channel(b)
  {
    assert RgbToArgb(r, g, b) == ((0xFF * 256 + Channel(r)) * 256 + Channel(g)) * 256 + Channel(b);
    WordBytes(0xFF, Channel(r), Channel(g), Channel(b));
  }

  /** Two colours pack to the same ARGB word exactly when their normalised channels agree. */
  lemma ArgbSameColour(r: int, g: int, b: int, r2: int, g2: int, b2: int)
    ensures RgbToArgb(r, g, b) == RgbToArgb(r2, g2, b2) <==>
      Channel(r) == Channel(r2) && Channel(g) == Channel(g2) && Channel(b) == Channel(b2)
  {
    ArgbBytes(r, g, b);
    ArgbBytes(r2, g2, b2);
  }

  /** A channel and its negation, and a non-negative channel and the same plus 256, are one colour. */
  lemma ChannelEquivalences(v: int)
    ensures Channel(-v) == Channel(v)
    ensures v >= 0 ==> Channel(v + 256) == Channel(v)
    ensures 0 <= v < 256 ==> Channel(v) == v
  {
  }

  /** The 24-bit word is below 2^24 and unpacks to red, green and blue from the low byte up. */
  lemma Rgb24Bytes(r: int, g: int, b: int)
    ensures 0 <= RgbToRgb24(r, g, b) < 0x100_0000
    ensures ByteAt(RgbToRgb24(r, g, b), 0) == Channel(r)
    ensures ByteAt(RgbToRgb24(r, g, b), 1) == Channel(g)
    ensures ByteAt(RgbToRgb24(r, g, b), 2) == Channel(b)
  {
    assert RgbToRgb24(r, g, b) == ((0 * 256 + Channel(b)) * 256 + Channel(g)) * 256 + Channel(r);
    WordBytes(0, Channel(b), Channel(g), Channel(r));
  }

  /** Black is 0 and white is 0xFFFFFF in either byte order. */
  lemma Rgb24Extremes()
    ensures RgbToRgb24(0, 0, 0) == 0 && RgbToRgb24(255, 255, 255) == 0xFF_FFFF
  {
    assert Channel(0) == 0;
    assert Channel(255) == 255;
  }

  /**
   * text_color_contrast: black on a bright background, white otherwise. The
   * brightness 0.299 r + 0.587 g + 0.114 b > 128 is compared here in exact
   * integer arithmetic (both sides times 1000).
   */
  function TextColorContrast(r: int, g: int, b: int): (c: int)
    ensures c == 0 || c == 0xFF_FFFF
    ensures c == 0 <==> 299 * r + 587 * g + 114 * b > 128_000
  {
    if 299 * r + 587 * g + 114 * b > 128_000 then RgbToRgb24(0, 0, 0) else RgbToRgb24(255, 255, 255)
  }

  datatype ButtonError = NegativeSize

  /** set_size rejects a negative width or height; zero is accepted. */
  predicate ValidSize(width: int, height: int)
  {
    width >= 0 && height >= 0
  }

  /** A clickable rectangle of the button window (the callback and its argument are not modelled). */
  class Button {
    var width: int
    var height: int
    var backgroundColor: int
    var startX: int
    var startY: int

    /** __init__: the size as set_size stores it, the packed background colour, and the origin as start. */
    constructor(size: (int, int), background: (int, int, int))
      requires ValidSize(size.0, size.1)
      ensures width == size.0 && height == size.1
      ensures backgroundColor == RgbToArgb(background.0, background.1, background.2)
      ensures startX == 0 && startY == 0
    {
      width, height := size.0, size.1;
      backgroundColor := RgbToArgb(background.0, background.1, background.2);
      startX, startY := 0, 0;
    }

    /**
     * __init__ including its failure: set_size raises for a negative side,
     * and then no button is made.
     */
    static method Create(size: (int, int), background: (int, int, int)) returns (r: Result<Button, ButtonError>)
      ensures r.Err? <==> !ValidSize(size.0, size.1)
      ensures r.Ok? ==> (fresh(r.value)
        && r.value.width == size.0 && r.value.height == size.1
        && r.value.backgroundColor == RgbToArgb(background.0, background.1, background.2)
        && r.value.startX == 0 && r.value.startY == 0)
    {
      if !ValidSize(size.0, size.1) {
        return Err(NegativeSize);
      }
      var b := new Button(size, background);
      return Ok(b);
    }

    /** set_size: an error for a negative side, leaving the button as it was; otherwise both sides stored. */
    method SetSize(size: (int, int)) returns (err: Option<ButtonError>)
      modifies this
      ensures err.Some? <==> !ValidSize(size.0, size.1)
      ensures err.Some? ==> width == old(width) && height == old(height)
      ensures err.None? ==> width == size.0 && height == size.1
      ensures backgroundColor == old(backgroundColor) && startX == old(startX) && startY == old(startY)
    {
      var (w, h) := size;
      if w < 0 || h < 0 {
        return Some(NegativeSize);
      }
      height := h;
      width := w;
      return None;
    }
  }

  /** A button with a label whose colour contrasts with the background. */
  class ButtonText {
    const button: Button
    var text: string
    var textColor: int

    constructor(size: (int, int), background: (int, int, int), text: string)
      requires ValidSize(size.0, size.1)
      ensures this.text == text
      ensures textColor == TextColorContrast(background.0, background.1, background.2)
      ensures fresh(button)
      ensures button.width == size.0 && button.height == size.1
      ensures button.backgroundColor == RgbToArgb(background.0, background.1, background.2)
      ensures button.startX == 0 && button.startY == 0
    {
      textColor := TextColorContrast(background.0, background.1, background.2);
      this.text := text;
      button := new Button(size, background);
    }

    /** ButtonText.__init__ including the failure raised by the inherited set_size. */
    static method Create(size: (int, int), background: (int, int, int), text: string) returns (r: Result<ButtonText, ButtonError>)
      ensures r.Err? <==> !ValidSize(size.0, size.1)
      ensures r.Ok? ==> (fresh(r.value) && fresh(r.value.button)
        && r.value.text == text
        && r.value.textColor == TextColorContrast(background.0, background.1, background.2)
        && r.value.button.width == size.0 && r.value.button.height == size.1
        && r.value.button.backgroundColor == RgbToArgb(background.0, background.1, background.2)
        && r.value.button.startX == 0 && r.value.button.startY == 0)
    {
      if !ValidSize(size.0, size.1) {
        return Err(NegativeSize);
      }
      var t := new ButtonText(size, background, text);
      return Ok(t);
    }
  }
}
