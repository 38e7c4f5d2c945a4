# Birthday greeting card: a Dafny model

BIRTHDAY2.js drives a one-page birthday card. A gift box opens when clicked and
shows a greeting. The visitor can edit the recipient and the message, pick one
of eight predefined wishes, choose a colour theme for the box and its ribbon,
and reset everything. Nearly all of the script is DOM, timer and audio
plumbing. Three pieces of it are logic, and this project models those:

- `darkenColor` (module `Darken`). It reads a `#RRGGBB` colour as a
  hexadecimal number with `parseInt(…, 16)`, splits it into red, green and
  blue with shifts and masks, subtracts an amount from each channel, clamps
  each one into [0, 255] with a nested conditional, and prints the result with
  the `(0x1000000 + …).toString(16).slice(1)` idiom. The lid of the box is
  painted `darkenColor(currentBoxColor, 20)`, so the amount there is
  `Math.round(2.55 * 20)` = 51.
- The card text (module `Message`). The greeting is `Dear {recipient},
  {message}`, built from the trimmed input fields, with `Friend` and
  `Happy Birthday!` for fields left blank. A wish prompt turns its
  `data-wish` attribute into a number with `parseInt`, subtracts one and looks
  the result up in the eight-entry wish table. A missing entry falls back to
  the first wish.
- The presentation state (module `Presentation`). It is the three
  module-level variables `isPresentOpen`, `currentBoxColor` and
  `currentRibbonColor`, modelled as a class `Present`. Its methods are the
  transitions: `openPresent`, `closeMessage`, the colour-option handler and
  `resetPresent`.

The JavaScript built-ins these pieces rely on are modelled exactly on
ECMAScript's definitions, in module `JsBuiltins`:

- `String.prototype.trim`, with the full WhiteSpace and LineTerminator sets.
- `parseInt`: leading white space, an optional sign, the `0x` prefix, the
  longest run of digits, and NaN (`None`) when there is no digit.
- `replace` with a one-character pattern, which removes the first occurrence
  only.
- `ToInt32`, the conversion the bitwise operators apply to their operands.
- `Number.prototype.toString(16)`.

`Wrappers` holds the `Option` type. `None` stands for NaN and for a missing
attribute.

What is proved, in short:

- `darkenColor` always returns `#` and six lower-case hexadecimal digits.
- Reading that output back gives exactly the clamped channels. Every channel
  lies in [0, 255].
- With a non-negative amount, each channel of a `#RRGGBB` colour becomes
  max(0, channel − amount), so no channel ever gets brighter.
- With amount 0, a colour comes back as the same number, printed in lower case.
- The default box `#FF6B8B` gets the lid `#cc3858`.
- Blank fields give "Dear Friend, Happy Birthday!". White space around the
  fields never shows in the greeting.
- Data-wish numbers 1 to 8 select the wishes in order. Any other number, any
  text with no number, and a missing attribute all select the first wish.
- Opening an open present changes nothing. Closing always leaves the present
  closed. Choosing a theme sets both colours and leaves the present open or
  closed as it was. Reset restores the default colours and closes the present.

## Model

| member | source | states |
|---|---|---|
| JsBuiltins.IsWhitespace | BIRTHDAY2.js:137-138 | definition: the ECMAScript WhiteSpace and LineTerminator code points, the set `trim()` strips and `parseInt` skips; its uses are stated by the trim rows below |
| JsBuiltins.TrimStart | BIRTHDAY2.js:137-138 | the result is a suffix of the input; everything dropped is white space; it does not start with white space |
| JsBuiltins.TrimEnd | BIRTHDAY2.js:137-138 | the result is a prefix of the input; everything dropped is white space; it does not end with white space |
| JsBuiltins.Trim | BIRTHDAY2.js:137-138 | `trim()`: neither end of the result is white space, and the result is empty exactly when the whole input is white space |
| JsBuiltins.TrimInfix | BIRTHDAY2.js:137-138 | `trim()` returns a contiguous slice of the input, and everything before and after that slice is white space |
| JsBuiltins.TrimUnpadded | BIRTHDAY2.js:137-138 | `trim()` leaves a string with no white space at either end unchanged |
| JsBuiltins.TrimIdempotent | BIRTHDAY2.js:137-138 | trimming twice is trimming once |
| JsBuiltins.RemoveFirst | BIRTHDAY2.js:270 | `replace('#', '')`: the string is unchanged when it has no `#`; otherwise exactly one `#` goes, the leading one when the string starts with `#`, and the multiset of the other characters is kept; which `#` goes and the order of the rest is RemoveFirstSplit |
| JsBuiltins.RemoveFirstSplit | BIRTHDAY2.js:270 | `replace('#', '')` removes the FIRST `#` and keeps the order of everything else: for a text `a` with no `#`, `a + '#' + b` becomes `a + b` |
| JsBuiltins.DropSign | BIRTHDAY2.js:270 | the sign step of `parseInt`: at most one leading character goes, and the rest of the text is kept as it is |
| JsBuiltins.ParseInt | BIRTHDAY2.js:270 | definition: the global `parseInt` (also used without a radix at line 74): leading white space skipped, an optional sign, an optional `0x`, then the longest run of digits, NaN (None) when there is none; its properties are ParseIntOfDigits, ParseIntNeedsDecimalDigit and, through ReadMagnitude, the Darken and Message lemmas that read numbers |
| JsBuiltins.ReadMagnitude | BIRTHDAY2.js:270 | definition: the digits `parseInt` reads after the sign, in radix 16 when asked or after a `0x` prefix, else 10; stated through ParseInt's lemmas |
| JsBuiltins.ParseIntOfDigits | BIRTHDAY2.js:270 | `parseInt` of a non-empty string made only of digits of the radix is the positional value of those digits |
| JsBuiltins.ParseIntNeedsDecimalDigit | BIRTHDAY2.js:74 | `parseInt` without a radix is NaN for any text that contains no decimal digit |
| JsBuiltins.ToInt32 | BIRTHDAY2.js:272-274 | the operand the shifts and masks see lies in [-2^31, 2^31), equals the number modulo 2^32, equals the number itself when it is already in that range, and is 0 for NaN |
| JsBuiltins.ValueAppend | BIRTHDAY2.js:270 | splitting a digit string in two: the value of the front counts as many places higher as the back has digits |
| JsBuiltins.ToHexString | BIRTHDAY2.js:276-281 | `toString(16)` prints a non-empty string of lower-case hexadecimal digits |
| JsBuiltins.ToHexStringValue | BIRTHDAY2.js:276-281 | the digits `toString(16)` prints read back as the number, with no leading zero for a positive number |
| JsBuiltins.PadHex | BIRTHDAY2.js:276-281 | the zero-padded hexadecimal digits have exactly the requested width and are lower case |
| JsBuiltins.PadHexValue | BIRTHDAY2.js:276-281 | a number below 16^width reads back from its padded digits |
| JsBuiltins.ToHexStringLeadingOne | BIRTHDAY2.js:276-281 | for n below 16^width, `(16^width + n).toString(16)` is `1` followed by the padded digits of n, so `slice(1)` leaves exactly those digits |
| JsBuiltins.PadHexOfValue | BIRTHDAY2.js:276-281 | re-printing the value of a hexadecimal digit string at its own width gives the same digits, lower-cased |
| Darken.ColorNumber | BIRTHDAY2.js:270 | definition: `parseInt(color.replace('#', ''), 16)`, None for NaN; its properties are WellFormedChannels, ChannelsOfPacked and SerializeRoundTrip |
| Darken.Pack | BIRTHDAY2.js:277-280 | definition: `R * 0x10000 + G * 0x100 + B`, the number the clamped channels make; its properties are PackBounds, UnpackPack and SerializeDigits |
| Darken.Channels | BIRTHDAY2.js:270-274 | `num >> 16` lies in [-2^15, 2^15) and the two masked channels lie in [0, 255], whatever the input string |
| Darken.PackBounds | BIRTHDAY2.js:276-281 | three byte channels pack into a number below 0x1000000 = 16^6, so it fits the six digits after the leading 1 |
| Darken.UnpackPack | BIRTHDAY2.js:272-274 | the shifts and masks recover each of three byte channels packed into one number |
| Darken.ChannelsOfPacked | BIRTHDAY2.js:270-274 | a colour string whose number is the packing of three byte channels is split back into those channels |
| Darken.Clamp | BIRTHDAY2.js:278-280 | `v < 255 ? v < 1 ? 0 : v : 255` lies in [0, 255]; it is v on [0, 255], 0 below and 255 above |
| Darken.Darkened | BIRTHDAY2.js:271-280 | every channel after the subtraction and the clamp lies in [0, 255] |
| Darken.DarkenedBytes | BIRTHDAY2.js:271-280 | on byte channels and a non-negative amount, each channel becomes max(0, channel − amount) |
| Darken.DarkenedByZero | BIRTHDAY2.js:271-280 | subtracting 0 and clamping leaves byte channels as they were |
| Darken.Serialize | BIRTHDAY2.js:276-281 | `'#' + (0x1000000 + packed).toString(16).slice(1)` has length 7: a `#` and six lower-case hexadecimal digits |
| Darken.SerializeDigits | BIRTHDAY2.js:276-281 | the six digits are the packed number zero-padded to six places |
| Darken.SerializeRoundTrip | BIRTHDAY2.js:270-281 | reading a printed colour the way darkenColor reads its input gives back the packed number and the channels |
| Darken.DarkenColor | BIRTHDAY2.js:269-282 | for any input string and amount the result is `#` and six lower-case hexadecimal digits |
| Darken.DarkenRoundTrip | BIRTHDAY2.js:269-282 | the channels of the result are the input's channels, each less the amount and clamped |
| Darken.DarkenInByteRange | BIRTHDAY2.js:278-280 | every channel of the result lies in [0, 255] |
| Darken.DarkenNeverBrightens | BIRTHDAY2.js:271-280 | with a non-negative amount, green and blue become max(0, channel − amount), and so does red when it is a byte; no non-negative channel grows |
| Darken.WellFormedChannels | BIRTHDAY2.js:270-274 | for `#RRGGBB` the number read is the value of the six digits, and the channels are the values of the pairs RR, GG and BB |
| Darken.HexPairs | BIRTHDAY2.js:270-274 | six hexadecimal digits are the packing of their three digit pairs, each a byte |
| Darken.DarkenWellFormed | BIRTHDAY2.js:269-282 | for `#RRGGBB` and a non-negative amount, the result is `#` followed by the padded digits of max(0, RR − amount), max(0, GG − amount), max(0, BB − amount) |
| Darken.DarkenByZero | BIRTHDAY2.js:269-282 | darkening `#RRGGBB` by 0 gives the same digits in lower case, and the same number when read back |
| Message.OrElse | BIRTHDAY2.js:137-138 | definition: the logical-or fallback on strings, where only the empty string is falsy, so an empty trimmed field gives the fallback and any other text is kept; stated through the Greeting lemmas |
| Message.Greeting | BIRTHDAY2.js:137-141 | definition: the `Dear ${recipient}, ${message}` template over the trimmed fields with their fallbacks; its properties are the six Greeting lemmas below and WishGreeting |
| Message.GreetingOfBlankFields | BIRTHDAY2.js:137-141 | fields that are empty or only white space give "Dear Friend, Happy Birthday!" |
| Message.GreetingOfFilledFields | BIRTHDAY2.js:137-141 | fields with text give exactly "Dear " + trimmed recipient + ", " + trimmed message |
| Message.GreetingIgnoresPadding | BIRTHDAY2.js:137-141 | trimming the fields beforehand changes nothing in the greeting |
| Message.GreetingOfUnpadded | BIRTHDAY2.js:137-141 | non-empty fields with no white space at either end show verbatim in the greeting |
| Message.ResetFieldsUnpadded | BIRTHDAY2.js:208-209 | the texts resetPresent writes into the fields are non-empty and have no white space at either end |
| Message.ResetGreeting | BIRTHDAY2.js:208-212 | after resetPresent the greeting is "Dear Friend, " followed by the reset wish text |
| Message.WishesUnpadded | BIRTHDAY2.js:22-31 | the table `WishMessages` holds the eight wishes of `wishMessages` in order, and every one is non-empty and has no white space at either end |
| Message.WishAt | BIRTHDAY2.js:75 | the wish looked up is always one of the eight predefined wishes |
| Message.WishAtIndex | BIRTHDAY2.js:75 | a number k in 1..8 selects entry k − 1 of the table |
| Message.WishAtFallback | BIRTHDAY2.js:75 | NaN and every number outside 1..8 select the first wish |
| Message.SelectWish | BIRTHDAY2.js:74-75 | a wish prompt always selects one of the eight predefined wishes |
| Message.SelectWishByNumber | BIRTHDAY2.js:74-75 | an attribute that parses to k in 1..8 selects wish k − 1, whatever else its text holds |
| Message.SelectWishOutsideTable | BIRTHDAY2.js:74-75 | an attribute that parses to a number outside 1..8 selects the first wish |
| Message.SelectWishOfDigit | BIRTHDAY2.js:74-75 | the single digits "1" to "8" select the wishes in order; "0" and "9" select the first |
| Message.ParseIntOfOneDigit | BIRTHDAY2.js:74 | `parseInt` of a single decimal digit is that digit's value |
| Message.SelectWishWithoutNumber | BIRTHDAY2.js:74-75 | an attribute with no decimal digit selects the first wish |
| Message.SelectWishOfMissing | BIRTHDAY2.js:74-75 | a prompt without a `data-wish` attribute (read as null, then "null") selects the first wish |
| Message.WishGreeting | BIRTHDAY2.js:74-77 | a selected wish put into the message field shows verbatim after "Dear {recipient}, " |
| Presentation.Present.constructor | BIRTHDAY2.js:17-19 | the page starts closed, with box `#FF6B8B` and ribbon `#4ECDC4` |
| Presentation.Present.LidColor | BIRTHDAY2.js:165 | the lid is a `#` and six lower-case hexadecimal digits, and its channels are the box's channels, each less 51 and clamped |
| Presentation.Present.Open | BIRTHDAY2.js:97-100 | `openPresent` reports whether it opened the present; a second call changes nothing; afterwards the present is open and neither colour has changed |
| Presentation.Present.Close | BIRTHDAY2.js:122-125 | `closeMessage` always leaves the present closed, with the colours unchanged |
| Presentation.Present.SelectTheme | BIRTHDAY2.js:62-63 | a colour option sets the box and ribbon colours to its own and leaves the present open or closed as it was |
| Presentation.Present.Reset | BIRTHDAY2.js:183-202 | `resetPresent` closes the present through closeMessage only if it was open, and restores the default colours |
| Presentation.DefaultLid | BIRTHDAY2.js:165 | the default box `#FF6B8B` gets the lid `#cc3858` |
| Presentation.DefaultBoxChannels | BIRTHDAY2.js:185 | `#FF6B8B` splits into red 255, green 107 and blue 139 |

## Left out

- DOM and style writes are not modelled. This covers element lookups, text and `innerHTML` writes, styles, classes, and the active mark on the colour options. They are writes into an external document.
- Event wiring and the Space-key shortcut are not modelled. The shortcut only guards `openPresent`, which `Present.Open` covers.
- Timers are not modelled: the 800 ms reveal, the button-label resets and the confetti clean-up. Audio playback is not modelled either. Both are asynchronous or foreign calls.
- `createConfetti` is not modelled. It is driven by `Math.random`, its values are floating point, and its output is DOM nodes.
- `Math.round(2.55 * percent)` is not modelled. The amount is an integer parameter. The one call site uses percent 20, which gives `LidDarkenAmount` = 51.
- `parseInt` works with exact integers here. JavaScript rounds numbers beyond 2^53 to a double, and turns a number of 2^1024 or more into Infinity, which ToInt32 maps to 0. That is more than about 308 decimal digits for a wish number, and more than about 256 hexadecimal digits for a colour. Neither happens for the colours and wish numbers the page holds.
- Strings are sequences of Unicode scalar values, not UTF-16 code units. The recipient and message fields are free text and may hold characters outside the Basic Multilingual Plane, such as emoji, which JavaScript stores as surrogate pairs. Every WhiteSpace and LineTerminator code point lies inside that plane, so `trim()` and the template treat a surrogate pair exactly as the one character it encodes, and the greeting is the same either way.
- Presentation.Present.SelectTheme takes the option's colours as strings. A colour option without a `data-box` or `data-ribbon` attribute would store null. A null box colour reaches `darkenColor(null, 20)` at line 165, which throws a TypeError at `color.replace` on line 270. A null ribbon colour is only written into styles at lines 173-178 and does not throw. The null path is not modelled.
- Presentation.Present.Reset does not state the lid colour in its own contract. That fact is `DefaultLid`, which applies because Reset sets the box to `DefaultBoxColor`.
- The greeting text the page shows is not a state variable of the model. `Message.ResetGreeting` states what resetPresent's call to updateMessage writes.
