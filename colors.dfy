/**
 * Colours of the LED strip and the brightness scaling of `alter_brightness`.
 *
 * A colour is held as its three 8-bit channels. The strip driver's
 * `Color(r, g, b)` packs them into one 24-bit integer, `(r << 16) | (g << 8) | b`,
 * and `alter_brightness` unpacks them with shifts and masks; `Pack` and
 * `Unpack` model that encoding and are proved inverse to each other, so a
 * buffer of channel triples carries exactly what a buffer of packed integers does.
 * A brightness is an exact ratio `num / den`.
 */
module Colors {

  /** One 8-bit colour channel. */
  type Byte = x: int | 0 <= x < 0x100

  /** A colour as its red, green and blue channels. */
  datatype Rgb = Rgb(red: Byte, green: Byte, blue: Byte)

  /** A packed 24-bit colour: red in bits 16-23, green in 8-15, blue in 0-7. */
  type Color24 = x: int | 0 <= x < 0x100_0000

  /** The driver's `Color(r, g, b)`: `(r << 16) | (g << 8) | b`. */
  function Pack(c: Rgb): Color24
  {
    c.red * 0x1_0000 + c.green * 0x100 + c.blue
  }

  /** The channels `alter_brightness` reads: `(v >> 16) & 0xFF`, `(v >> 8) & 0xFF` and `v & 0xFF`. */
  function Unpack(v: Color24): Rgb
  {
    Rgb((v / 0x1_0000) % 0x100, (v / 0x100) % 0x100, v % 0x100)
  }

  /** Unpacking a packed colour gives back its three channels. */
  lemma UnpackPack(c: Rgb)
    ensures Unpack(Pack(c)) == c
  {
    var v := Pack(c);
    assert v / 0x1_0000 == c.red;
    assert v / 0x100 == c.red * 0x100 + c.green;
    assert (c.red * 0x100 + c.green) % 0x100 == c.green;
  }

  /** Packing the channels of a 24-bit value gives back the value, so `Pack` is a bijection. */
  lemma PackUnpack(v: Color24)
    ensures Pack(Unpack(v)) == v
  {
    var hi, mid := v / 0x1_0000, v / 0x100;
    assert v == mid * 0x100 + v % 0x100;
    assert mid == hi * 0x100 + mid % 0x100;
    assert hi < 0x100;
  }

  /** The named colours of the `Colors` enumeration. */
  datatype Colors = None | WarmWhite | CrystalBlue | CrystalRed | CrystalGreen | PureWhite
  {
    /** The channels the enumeration gives each member. */
    function Value(): Rgb
    {
      match this
      case None => Rgb(0, 0, 0)
      case WarmWhite => Rgb(255, 147, 41)
      case CrystalBlue => Rgb(0, 67, 255)
      case CrystalRed => Rgb(255, 0, 0)
      case CrystalGreen => Rgb(0, 255, 0)
      case PureWhite => Rgb(255, 255, 255)
    }
  }

  /** A brightness factor, the exact ratio `num / den`. */
  datatype Brightness = Brightness(num: nat, den: nat)
  {
    /** A factor in [0, 1], which is what every caller in the controller passes. */
    predicate InUnit()
    {
      0 < den && num <= den
    }
  }

  /** The default brightness 1.0. */
  const Full := Brightness(1, 1)

  /** `int(x * brightness)`: the channel scaled and truncated (the product is never negative). */
  function Scale(x: Byte, b: Brightness): (y: Byte)
    requires b.InUnit()
    ensures y <= x
    ensures b.num == b.den ==> y == x
  {
    ScaleBound(x, b);
    if b.num == b.den then ScaleFull(x, b); x * b.num / b.den else x * b.num / b.den
  }

  lemma ScaleBound(x: Byte, b: Brightness)
    requires b.InUnit()
    ensures 0 <= x * b.num / b.den <= x
    ensures (x * b.num / b.den) * b.den <= x * b.num < (x * b.num / b.den + 1) * b.den
  {
    var p := x * b.num;
    var q := p / b.den;
    MulLe(b.num, b.den, x);
    DivFloor(p, b.den);
    if q >= x + 1 {
      MulLe(x + 1, q, b.den);
      assert false;
    }
    assert (q + 1) * b.den == q * b.den + b.den;
  }

  lemma ScaleFull(x: Byte, b: Brightness)
    requires b.InUnit() && b.num == b.den
    ensures x * b.num / b.den == x
  {
    var q := x * b.num / b.den;
    DivFloor(x * b.num, b.den);
    if q < x {
      MulLe(q + 1, x, b.den);
      assert false;
    }
    if q > x {
      MulLe(x + 1, q, b.den);
      assert false;
    }
  }

  lemma DivFloor(p: nat, d: nat)
    requires 0 < d
    ensures p / d * d <= p < p / d * d + d
  {
  }

  lemma MulLe(a: int, b: int, k: nat)
    requires a <= b
    ensures a * k <= b * k
  {
  }

  /**
   * `alter_brightness(color, brightness)`: every channel of the colour
   * multiplied by the brightness and truncated. No channel gets brighter, and
   * brightness 1 gives the colour back.
   */
  function AlterBrightness(color: Colors, b: Brightness): (r: Rgb)
    requires b.InUnit()
    ensures r.red <= color.Value().red && r.green <= color.Value().green && r.blue <= color.Value().blue
    ensures b.num == b.den ==> r == color.Value()
  {
    var c := color.Value();
    Rgb(Scale(c.red, b), Scale(c.green, b), Scale(c.blue, b))
  }

  /**
   * Each channel `alter_brightness` packs is the floor of the matching channel
   * of the colour's packed value times the brightness: the largest `y` with
   * `y * den <= channel * num`.
   */
  lemma AlterBrightnessIsFloor(color: Colors, b: Brightness)
    requires b.InUnit()
    ensures var r, c := Unpack(Pack(AlterBrightness(color, b))), Unpack(Pack(color.Value()));
            && r.red * b.den <= c.red * b.num < (r.red + 1) * b.den
            && r.green * b.den <= c.green * b.num < (r.green + 1) * b.den
            && r.blue * b.den <= c.blue * b.num < (r.blue + 1) * b.den
  {
    var c := color.Value();
    UnpackPack(c);
    UnpackPack(AlterBrightness(color, b));
    ScaleBound(c.red, b);
    ScaleBound(c.green, b);
    ScaleBound(c.blue, b);
  }

  /** A brighter factor never gives a dimmer channel: scaling is monotone in the brightness. */
  lemma AlterBrightnessMonotone(color: Colors, b1: Brightness, b2: Brightness)
    requires b1.InUnit() && b2.InUnit()
    requires b1.num * b2.den <= b2.num * b1.den
    ensures AlterBrightness(color, b1).red <= AlterBrightness(color, b2).red
    ensures AlterBrightness(color, b1).green <= AlterBrightness(color, b2).green
    ensures AlterBrightness(color, b1).blue <= AlterBrightness(color, b2).blue
  {
    var c := color.Value();
    ScaleMonotone(c.red, b1, b2);
    ScaleMonotone(c.green, b1, b2);
    ScaleMonotone(c.blue, b1, b2);
  }

  lemma ScaleMonotone(x: Byte, b1: Brightness, b2: Brightness)
    requires b1.InUnit() && b2.InUnit()
    requires b1.num * b2.den <= b2.num * b1.den
    ensures Scale(x, b1) <= Scale(x, b2)
  {
    ScaleBound(x, b1);
    ScaleBound(x, b2);
    FloorMonotone(x, Scale(x, b1), Scale(x, b2), b1.num, b1.den, b2.num, b2.den);
  }

  /** If `y1 <= x * n1 / d1` and `x * n2 / d2 < y2 + 1` with `n1 / d1 <= n2 / d2`, then `y1 <= y2`. */
  lemma FloorMonotone(x: nat, y1: nat, y2: nat, n1: nat, d1: nat, n2: nat, d2: nat)
    requires 0 < d1 && 0 < d2
    requires y1 * d1 <= x * n1 && x * n2 < (y2 + 1) * d2
    requires n1 * d2 <= n2 * d1
    ensures y1 <= y2
  {
    var a := y1 * d1 * d2;
    var b := x * n1 * d2;
    var c := x * n2 * d1;
    var e := (y2 + 1) * d2 * d1;
    MulLe(y1 * d1, x * n1, d2);
    assert a <= b;
    MulLe(n1 * d2, n2 * d1, x);
    assert b <= c;
    MulLt(x * n2, (y2 + 1) * d2, d1);
    assert c < e;
    if y1 > y2 {
      MulLe(y2 + 1, y1, d1 * d2);
      assert false;
    }
  }

  lemma MulLt(a: int, b: int, k: nat)
    requires a < b && 0 < k
    ensures a * k < b * k
  {
  }
}
