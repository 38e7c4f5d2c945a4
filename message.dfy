/**
 * The text the card shows: the greeting updateMessage builds from the two
 * input fields, and the predefined wish a wish prompt selects by its
 * 1-based `data-wish` number.
 */
module Message {
  import opened Wrappers
  import opened JsBuiltins

  const FallbackRecipient: string := "Friend"
  const FallbackMessage: string := "Happy Birthday!"

  /** `text || fallback` on strings: the empty string is the only falsy one. */
  function OrElse(text: string, fallback: string): string {
    if text == "" then fallback else text
  }

  /** The greeting updateMessage writes: 'Dear {recipient}, {message}' from the
      trimmed fields, the empty ones replaced by the fallbacks. */
  function Greeting(recipientField: string, messageField: string): string {
    "Dear " + OrElse(Trim(recipientField), FallbackRecipient) + ", " +
    OrElse(Trim(messageField), FallbackMessage)
  }

  /** Fields that are empty or only white space give the fallback greeting. */
  lemma GreetingOfBlankFields(recipientField: string, messageField: string)
    requires forall k :: 0 <= k < |recipientField| ==> IsWhitespace(recipientField[k])
    requires forall k :: 0 <= k < |messageField| ==> IsWhitespace(messageField[k])
    ensures Greeting(recipientField, messageField) == "Dear Friend, Happy Birthday!"
  {
    assert Trim(recipientField) == [] && Trim(messageField) == [] by {
      assert AllWhitespace(recipientField) && AllWhitespace(messageField);
    }
  }

  /** Fields with text keep exactly their trimmed text. */
  lemma GreetingOfFilledFields(recipientField: string, messageField: string)
    requires Trim(recipientField) != [] && Trim(messageField) != []
    ensures Greeting(recipientField, messageField) ==
      "Dear " + Trim(recipientField) + ", " + Trim(messageField)
  {
  }

  /** White space around the fields never shows: pre-trimming them changes nothing. */
  lemma GreetingIgnoresPadding(recipientField: string, messageField: string)
    ensures Greeting(Trim(recipientField), Trim(messageField)) == Greeting(recipientField, messageField)
  {
    TrimIdempotent(recipientField);
    TrimIdempotent(messageField);
  }

  /** The field values resetPresent writes before it refreshes the greeting. */
  const ResetRecipient: string := "Friend"
  const ResetMessage: string :=
    "Wishing you a day filled with " + "happiness, joy, and all the things " +
    "you love the most! May this special " + "day bring you endless smiles and " +
    "wonderful memories."

  /** After resetPresent the card greets the default friend with the reset wish. */
  lemma ResetGreeting()
    ensures Greeting(ResetRecipient, ResetMessage) == "Dear Friend, " + ResetMessage
  {
    ResetFieldsUnpadded();
    GreetingOfUnpadded(ResetRecipient, ResetMessage);
  }

  lemma ResetFieldsUnpadded()
    ensures Unpadded(ResetRecipient) && ResetRecipient != ""
    ensures Unpadded(ResetMessage) && ResetMessage != ""
  {
  }

  /** Text without surrounding white space shows verbatim in the greeting. */
  lemma GreetingOfUnpadded(recipient: string, message: string)
    requires Unpadded(recipient) && recipient != ""
    requires Unpadded(message) && message != ""
    ensures Greeting(recipient, message) == "Dear " + recipient + ", " + message
  {
    TrimUnpadded(recipient);
    TrimUnpadded(message);
  }

  // ---------------------------------------------------------------------
  // Wish prompts
  // ---------------------------------------------------------------------

  const Wish1: string := "Hope your birthday is as amazing as you are!"
  const Wish2: string := "Cheers to another year of wonderful you!"
  const Wish3: string := "May all your birthday wishes come true!"
  const Wish4: string := "Sending you smiles for " + "every moment of your special day!"
  const Wish5: string := "Wishing you health, " + "happiness, and prosperity!"
  const Wish6: string := "May your birthday be " + "filled with laughter and joy!"
  const Wish7: string := "Here's to celebrating you today and always!"
  const Wish8: string := "Hope your special day brings " + "you all that your heart desires!"

  /** The eight predefined wishes, in the prompts' 1-based order. */
  const WishMessages: seq<string> := [Wish1, Wish2, Wish3, Wish4, Wish5, Wish6, Wish7, Wish8]

  /** `wishMessages[index] || wishMessages[0]` for index = number - 1: an
      index outside the table reads undefined and NaN stays NaN, both falsy,
      so they fall back to the first wish. */
  function WishAt(number: Option<int>): (wish: string)
    ensures wish in WishMessages
  {
    if number.Some? && 0 <= number.value - 1 < |WishMessages| && |WishMessages[number.value - 1]| > 0
    then WishMessages[number.value - 1]
    else WishMessages[0]
  }

  /** The wish a prompt selects: parseInt of its `data-wish` attribute (a
      missing attribute is null, which parseInt reads as the text "null"),
      looked up with WishAt. */
  function SelectWish(dataWish: Option<string>): (wish: string)
    ensures wish in WishMessages
  {
    WishAt(ParseInt(dataWish.GetOr("null"), Unspecified))
  }

  /** A number k in 1..8 selects wish k - 1. */
  lemma WishAtIndex(k: int)
    requires 1 <= k <= 8
    ensures WishAt(Some(k)) == WishMessages[k - 1]
  {
    WishesUnpadded();
  }

  /** NaN and every number outside 1..8 select wish 0. */
  lemma WishAtFallback(number: Option<int>)
    requires number.None? || !(1 <= number.value <= 8)
    ensures WishAt(number) == WishMessages[0]
  {
  }

  /** An attribute that parses to k in 1..8, whatever else its text holds,
      selects wish k - 1. */
  lemma SelectWishByNumber(text: string, k: int)
    requires ParseInt(text, Unspecified) == Some(k) && 1 <= k <= 8
    ensures SelectWish(Some(text)) == WishMessages[k - 1]
  {
    WishAtIndex(k);
  }

  /** An attribute that parses to a number outside 1..8 selects the first wish. */
  lemma SelectWishOutsideTable(text: string, k: int)
    requires ParseInt(text, Unspecified) == Some(k) && !(1 <= k <= 8)
    ensures SelectWish(Some(text)) == WishMessages[0]
  {
    WishAtFallback(Some(k));
  }

  /** The single digits: "1" to "8" select the wishes in order, "0" and "9"
      lie just outside the table and select the first. */
  lemma SelectWishOfDigit(k: int)
    requires 0 <= k <= 9
    ensures SelectWish(Some([('0' as int + k) as char])) ==
      if 1 <= k <= 8 then WishMessages[k - 1] else WishMessages[0]
  {
    var text := [('0' as int + k) as char];
    ParseIntOfOneDigit(text);
    if 1 <= k <= 8 {
      SelectWishByNumber(text, k);
    } else {
      SelectWishOutsideTable(text, k);
    }
  }

  /** An attribute without a decimal digit, or none at all, selects the first wish. */
  lemma SelectWishWithoutNumber(text: string)
    requires forall i :: 0 <= i < |text| ==> !('0' <= text[i] <= '9')
    ensures SelectWish(Some(text)) == WishMessages[0]
  {
    assert ParseInt(text, Unspecified) == None by {
      ParseIntNeedsDecimalDigit(text);
    }
  }

  /** A prompt without a `data-wish` attribute selects the first wish. */
  lemma SelectWishOfMissing(dataWish: Option<string>)
    requires dataWish.None?
    ensures SelectWish(dataWish) == WishMessages[0]
  {
    var text := dataWish.GetOr("null");
    assert forall i :: 0 <= i < |text| ==> !('0' <= text[i] <= '9');
    SelectWishWithoutNumber(text);
  }

  lemma ParseIntOfOneDigit(text: string)
    requires |text| == 1 && '0' <= text[0] <= '9'
    ensures ParseInt(text, Unspecified) == Some(text[0] as int - '0' as int)
  {
    assert Value(text, 10) == text[0] as int - '0' as int by {
      assert text[..0] == [];
    }
    assert AllDigitsIn(text, 10);
    ParseIntOfDigits(text, Unspecified);
  }

  /** The wishes carry no surrounding white space, so a selected wish put in
      the message field shows verbatim in the greeting. */
  lemma WishGreeting(recipientField: string, dataWish: Option<string>)
    ensures Greeting(recipientField, SelectWish(dataWish)) ==
      "Dear " + OrElse(Trim(recipientField), FallbackRecipient) + ", " + SelectWish(dataWish)
  {
    var wish := SelectWish(dataWish);
    assert Trim(wish) == wish by {
      WishesUnpadded();
      TrimUnpadded(wish);
    }
  }

  lemma WishesUnpadded()
    ensures forall w :: w in WishMessages ==> Unpadded(w) && |w| > 0
  {
    assert Unpadded(Wish1) && |Wish1| > 0;
    assert Unpadded(Wish2) && |Wish2| > 0;
    assert Unpadded(Wish3) && |Wish3| > 0;
    assert Unpadded(Wish4) && |Wish4| > 0;
    assert Unpadded(Wish5) && |Wish5| > 0;
    assert Unpadded(Wish6) && |Wish6| > 0;
    assert Unpadded(Wish7) && |Wish7| > 0;
    assert Unpadded(Wish8) && |Wish8| > 0;
  }
}
