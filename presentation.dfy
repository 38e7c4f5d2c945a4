/**
 * The page's presentation state: whether the present is open and which box
 * and ribbon colours it shows, with the transitions the page's controls fire.
 */
module Presentation {
  import opened JsBuiltins
  import opened Darken

  const DefaultBoxColor: string := "#FF6B8B"
  const DefaultRibbonColor: string := "#4ECDC4"

  /** The three state variables of the page. */
  class Present {
    var isOpen: bool
    var boxColor: string
    var ribbonColor: string

    /** The page starts closed, in the default pink box with a teal ribbon. */
    constructor()
      ensures !isOpen
      ensures boxColor == DefaultBoxColor && ribbonColor == DefaultRibbonColor
    {
      isOpen := false;
      boxColor := DefaultBoxColor;
      ribbonColor := DefaultRibbonColor;
    }

    /** The colour the lid is painted whenever the colours are refreshed: the
        box colour darkened by 20 percent, so each channel loses 51. */
    function LidColor(): (lid: string)
      reads this
      ensures |lid| == 7 && lid[0] == '#'
      ensures forall i :: 1 <= i < 7 ==> IsLowerHexDigit(lid[i])
      ensures Channels(lid) == Darkened(Channels(boxColor), LidDarkenAmount)
    {
      DarkenRoundTrip(boxColor, LidDarkenAmount);
      DarkenColor(boxColor, LidDarkenAmount)
    }

    /** openPresent: a no-op on an open present; otherwise it opens it. The
        result says whether this call opened it, so a second call changes
        nothing. */
    method Open() returns (started: bool)
      modifies this
      ensures started == !old(isOpen)
      ensures isOpen
      ensures boxColor == old(boxColor) && ribbonColor == old(ribbonColor)
    {
      if isOpen {
        return false;
      }
      isOpen := true;
      started := true;
    }

    /** closeMessage: the present is closed afterwards, whatever it was. */
    method Close()
      modifies this
      ensures !isOpen
      ensures boxColor == old(boxColor) && ribbonColor == old(ribbonColor)
    {
      isOpen := false;
    }

    /** A colour option click: the option's box and ribbon colours become the
        present's, and the present stays open or closed as it was. */
    method SelectTheme(box: string, ribbon: string)
      modifies this
      ensures boxColor == box && ribbonColor == ribbon
      ensures isOpen == old(isOpen)
    {
      boxColor := box;
      ribbonColor := ribbon;
    }

    /** resetPresent: back to the default colours, and closed, calling
        closeMessage only when the present was open; the result says whether
        it did. */
    method Reset() returns (closed: bool)
      modifies this
      ensures closed == old(isOpen)
      ensures !isOpen
      ensures boxColor == DefaultBoxColor && ribbonColor == DefaultRibbonColor
    {
      boxColor := DefaultBoxColor;
      ribbonColor := DefaultRibbonColor;
      closed := isOpen;
      if isOpen {
        Close();
      }
    }
  }

  /** The lid colour of the default box. */
  const DefaultLidColor: string := "#cc3858"

  /** Darkening #FF6B8B by 51 per channel gives #cc3858: 255, 107 and 139
      become 204, 56 and 88. */
  lemma DefaultLid()
    ensures DarkenColor(DefaultBoxColor, LidDarkenAmount) == DefaultLidColor
  {
    DefaultBoxChannels();
    DarkenedBytes(Rgb(255, 107, 139), LidDarkenAmount);
    SerializeLid(Rgb(204, 56, 88));
  }

  /** The default box colour's channels. */
  lemma DefaultBoxChannels()
    ensures Channels(DefaultBoxColor) == Rgb(255, 107, 139)
  {
    var digits := "FF6B8B";
    assert DefaultBoxColor == "#" + digits;
    assert IsHex6(digits);
    assert digits[..2] == "FF" && digits[2..4] == "6B" && digits[4..] == "8B";
    assert Value("FF", 16) == 255 && Value("6B", 16) == 107 && Value("8B", 16) == 139 by {
      assert "FF"[..1] == "F" && "6B"[..1] == "6" && "8B"[..1] == "8";
      assert "F"[..0] == "" && "6"[..0] == "" && "8"[..0] == "";
    }
    WellFormedChannels(digits);
  }

  lemma SerializeLid(c: Rgb)
    requires InByteRange(c) && Pack(c) == 0xcc3858
    ensures Serialize(c) == DefaultLidColor
  {
    SerializeDigits(c);
    assert PadHex(0xcc3858, 6) == "cc3858";
  }
}
