/**
 * darkenColor: reads a '#RRGGBB' colour as a hexadecimal number, subtracts an
 * amount from each of its red, green and blue channels, clamps each channel
 * into [0, 255] and prints the result back as '#' and six lower-case
 * hexadecimal digits.
 */
module Darken {
  import opened Wrappers
  import opened JsBuiltins

  /** The amount the box lid is darkened by: Math.round(2.55 * 20). */
  const LidDarkenAmount := 51

  datatype Rgb = Rgb(red: int, green: int, blue: int)

  predicate InByteRange(c: Rgb) {
    0 <= c.red <= 255 && 0 <= c.green <= 255 && 0 <= c.blue <= 255
  }

  /** The number darkenColor reads: parseInt(color.replace('#', ''), 16), None for NaN. */
  function ColorNumber(color: string): Option<int> {
    ParseInt(RemoveFirst(color, '#'), Hexadecimal)
  }

  /** The channels darkenColor extracts from the number with `num >> 16`,
      `num >> 8 & 0x00FF` and `num & 0x0000FF`. The operators work on the
      ToInt32 of the number; an arithmetic right shift is a division rounding
      down, and masking with 0xFF on a two's-complement word is the
      non-negative remainder modulo 256 (Dafny's `/` and `%` with a positive
      divisor). */
  function Channels(color: string): (c: Rgb)
    ensures -0x8000 <= c.red < 0x8000
    ensures 0 <= c.green <= 255 && 0 <= c.blue <= 255
  {
    var w := ToInt32(ColorNumber(color));
    Rgb(w / 0x1_0000, (w / 0x100) % 0x100, w % 0x100)
  }

  /** The nested conditional `v < 255 ? v < 1 ? 0 : v : 255`. */
  function Clamp(v: int): (c: int)
    ensures 0 <= c <= 255
    ensures 0 <= v <= 255 ==> c == v
    ensures v < 0 ==> c == 0
    ensures v > 255 ==> c == 255
  {
    if v < 255 then (if v < 1 then 0 else v) else 255
  }

  /** Each channel less `amt`, clamped. */
  function Darkened(c: Rgb, amt: int): (d: Rgb)
    ensures InByteRange(d)
  {
    Rgb(Clamp(c.red - amt), Clamp(c.green - amt), Clamp(c.blue - amt))
  }

  /** The 24-bit number of three byte-sized channels. */
  function Pack(c: Rgb): int {
    c.red * 0x1_0000 + c.green * 0x100 + c.blue
  }

  lemma SixHexPlaces()
    ensures Pow(16, 6) == 0x100_0000
  {
    assert Pow(16, 2) == 0x100;
    assert Pow(16, 4) == 0x1_0000;
  }

  lemma PackBounds(c: Rgb)
    requires InByteRange(c)
    ensures 0 <= Pack(c) < 0x100_0000 && Pack(c) < Pow(16, 6)
  {
    SixHexPlaces();
  }

  /** Splitting a packed number with the shifts and masks of darkenColor gives
      back its channels. */
  lemma UnpackPack(c: Rgb)
    requires InByteRange(c)
    ensures Pack(c) / 0x1_0000 == c.red
    ensures (Pack(c) / 0x100) % 0x100 == c.green
    ensures Pack(c) % 0x100 == c.blue
  {
    var w := Pack(c);
    assert w / 0x100 == c.red * 0x100 + c.green;
  }

  /** When the colour reads as the packed number of some byte channels,
      those are the channels darkenColor extracts. */
  lemma ChannelsOfPacked(color: string, c: Rgb)
    requires InByteRange(c)
    requires ColorNumber(color) == Some(Pack(c))
    ensures Channels(color) == c
  {
    assert ToInt32(ColorNumber(color)) == Pack(c) by {
      PackBounds(c);
    }
    UnpackPack(c);
  }

  /** The tail of darkenColor: '#' + (0x1000000 + packed).toString(16).slice(1). */
  function Serialize(c: Rgb): (r: string)
    requires InByteRange(c)
    ensures |r| == 7 && r[0] == '#'
    ensures forall i :: 1 <= i < 7 ==> IsLowerHexDigit(r[i])
  {
    PackBounds(c);
    ToHexStringLeadingOne(Pack(c), 6);
    "#" + ToHexString(0x100_0000 + Pack(c))[1..]
  }

  /** Adding 0x1000000 before printing and slicing off the leading '1' is
      exactly zero-padding the number to six digits. */
  lemma SerializeDigits(c: Rgb)
    requires InByteRange(c)
    ensures Serialize(c) == "#" + PadHex(Pack(c), 6)
  {
    PackBounds(c);
    SixHexPlaces();
    ToHexStringLeadingOne(Pack(c), 6);
    var t := ToHexString(0x100_0000 + Pack(c));
    assert t == ['1'] + PadHex(Pack(c), 6);
    assert t[1..] == PadHex(Pack(c), 6);
  }

  /** Reading a serialized colour the way darkenColor reads its input gives
      back the channels that were serialized. */
  lemma SerializeRoundTrip(c: Rgb)
    requires InByteRange(c)
    ensures ColorNumber(Serialize(c)) == Some(Pack(c))
    ensures Channels(Serialize(c)) == c
  {
    var digits := PadHex(Pack(c), 6);
    assert ColorNumber(Serialize(c)) == Some(Pack(c)) by {
      SerializeDigits(c);
      PackBounds(c);
      PadHexValue(Pack(c), 6);
      assert RemoveFirst("#" + digits, '#') == digits;
      ParseIntOfDigits(digits, Hexadecimal);
    }
    ChannelsOfPacked(Serialize(c), c);
  }

  /** darkenColor itself, with `amt` given as an integer. */
  function DarkenColor(color: string, amt: int): (r: string)
    ensures |r| == 7 && r[0] == '#'
    ensures forall i :: 1 <= i < 7 ==> IsLowerHexDigit(r[i])
  {
    Serialize(Darkened(Channels(color), amt))
  }

  /** Reading a darkened colour back the way darkenColor reads its input gives
      the darkened, clamped channels: the printed string decodes to what was
      computed, whatever the input string was. */
  lemma DarkenRoundTrip(color: string, amt: int)
    ensures Channels(DarkenColor(color, amt)) == Darkened(Channels(color), amt)
  {
    SerializeRoundTrip(Darkened(Channels(color), amt));
  }

  /** Every channel of the result lies in [0, 255], for any input string and amount. */
  lemma DarkenInByteRange(color: string, amt: int)
    ensures InByteRange(Channels(DarkenColor(color, amt)))
  {
    DarkenRoundTrip(color, amt);
  }

  function Max(a: int, b: int): int {
    if a < b then b else a
  }

  /** With a non-negative amount darkenColor never brightens: green and blue
      become max(0, channel - amt), and so does red whenever it is a byte
      (it always is for a '#RRGGBB' input, see WellFormedChannels). */
  lemma {:induction false} DarkenNeverBrightens(color: string, amt: int)
    requires amt >= 0
    ensures var before, after := Channels(color), Channels(DarkenColor(color, amt));
      after.green == Max(0, before.green - amt) <= before.green &&
      after.blue == Max(0, before.blue - amt) <= before.blue &&
      (0 <= before.red <= 255 ==> after.red == Max(0, before.red - amt) <= before.red) &&
      (0 <= before.red ==> after.red <= before.red)
  {
    DarkenRoundTrip(color, amt);
    DarkenedNeverBrightens(Channels(color), amt);
  }

  lemma DarkenedNeverBrightens(c: Rgb, amt: int)
    requires amt >= 0
    ensures var d := Darkened(c, amt);
      (0 <= c.green <= 255 ==> d.green == Max(0, c.green - amt) <= c.green) &&
      (0 <= c.blue <= 255 ==> d.blue == Max(0, c.blue - amt) <= c.blue) &&
      (0 <= c.red <= 255 ==> d.red == Max(0, c.red - amt) <= c.red) &&
      (0 <= c.red ==> d.red <= c.red)
  {
  }

  /** On byte channels and a non-negative amount, clamping is only the floor at 0. */
  lemma DarkenedBytes(c: Rgb, amt: int)
    requires InByteRange(c) && amt >= 0
    ensures Darkened(c, amt) == Rgb(Max(0, c.red - amt), Max(0, c.green - amt), Max(0, c.blue - amt))
  {
  }

  lemma DarkenedByZero(c: Rgb)
    requires InByteRange(c)
    ensures Darkened(c, 0) == c
  {
  }

  /** A six-digit hexadecimal string, upper or lower case. */
  predicate IsHex6(digits: string) {
    |digits| == 6 && AllDigitsIn(digits, 16)
  }

  /** For '#RRGGBB' the channels darkenColor extracts are the values of the
      digit pairs RR, GG and BB. */
  lemma WellFormedChannels(digits: string)
    requires IsHex6(digits)
    ensures ColorNumber("#" + digits) == Some(Value(digits, 16))
    ensures Channels("#" + digits) ==
      Rgb(Value(digits[..2], 16), Value(digits[2..4], 16), Value(digits[4..], 16))
  {
    var c := Rgb(Value(digits[..2], 16), Value(digits[2..4], 16), Value(digits[4..], 16));
    HexPairs(digits);
    assert ColorNumber("#" + digits) == Some(Value(digits, 16)) by {
      assert RemoveFirst("#" + digits, '#') == digits;
      ParseIntOfDigits(digits, Hexadecimal);
    }
    ChannelsOfPacked("#" + digits, c);
  }

  /** Six hexadecimal digits are the packed number of their three digit pairs. */
  lemma HexPairs(digits: string)
    requires IsHex6(digits)
    ensures var c := Rgb(Value(digits[..2], 16), Value(digits[2..4], 16), Value(digits[4..], 16));
      InByteRange(c) && Value(digits, 16) == Pack(c)
  {
    var rr, gg, bb := digits[..2], digits[2..4], digits[4..];
    assert AllDigitsIn(rr, 16) && AllDigitsIn(gg, 16) && AllDigitsIn(bb, 16) by {
      forall i | 0 <= i < 2 ensures IsDigitIn(rr[i], 16) && IsDigitIn(gg[i], 16) && IsDigitIn(bb[i], 16) {
        assert rr[i] == digits[i] && gg[i] == digits[2 + i] && bb[i] == digits[4 + i];
      }
    }
    assert Value(rr, 16) < 0x100 && Value(gg, 16) < 0x100 && Value(bb, 16) < 0x100 by {
      assert Pow(16, 2) == 0x100;
    }
    assert Value(rr + gg, 16) == Value(rr, 16) * 0x100 + Value(gg, 16) by {
      ValueAppend(rr, gg, 16);
      assert Pow(16, 2) == 0x100;
    }
    assert Value(digits, 16) == Value(rr + gg, 16) * 0x100 + Value(bb, 16) by {
      ValueAppend(rr + gg, bb, 16);
      assert rr + gg + bb == digits;
      assert Pow(16, 2) == 0x100;
    }
  }

  /** For '#RRGGBB' and a non-negative amount, the result is '#' and the six
      digits of max(0, RR - amt), max(0, GG - amt), max(0, BB - amt). */
  lemma DarkenWellFormed(digits: string, amt: int)
    requires IsHex6(digits) && amt >= 0
    ensures DarkenColor("#" + digits, amt) == "#" + PadHex(Pack(Rgb(
      Max(0, Value(digits[..2], 16) - amt),
      Max(0, Value(digits[2..4], 16) - amt),
      Max(0, Value(digits[4..], 16) - amt))), 6)
  {
    var c := Rgb(Value(digits[..2], 16), Value(digits[2..4], 16), Value(digits[4..], 16));
    HexPairs(digits);
    DarkenedBytes(c, amt);
    SerializeDigits(Darkened(c, amt));
    WellFormedChannels(digits);
  }

  /** Darkening by zero leaves a '#RRGGBB' colour as it was, up to the case of
      its letters: the same number comes back, printed in lower case. */
  lemma DarkenByZero(digits: string)
    requires IsHex6(digits)
    ensures DarkenColor("#" + digits, 0) == "#" + LowerHex(digits)
    ensures ColorNumber(DarkenColor("#" + digits, 0)) == ColorNumber("#" + digits)
  {
    var c := Rgb(Value(digits[..2], 16), Value(digits[2..4], 16), Value(digits[4..], 16));
    HexPairs(digits);
    DarkenedByZero(c);
    WellFormedChannels(digits);
    SerializeDigits(c);
    PadHexOfValue(digits);
    SerializeRoundTrip(c);
  }
}
