# HelpersLibrary colour service and helpers, modelled in Dafny

This project models two parts of HelpersLibrary and proves properties of them.

- **`ColorService` (C#), its 8-bit ARGB part.** This covers:
  - validating hex colours (`HexColorValidate`);
  - parsing and formatting them (`HexToColor`, `ColorToHex`, `RgbToHex`, `HexToRgb`, `ColorToRgb`, `RgbToColor`);
  - replacing channels (`SetRgba` and the four `Set…Component` wrappers);
  - `Lighten` and `Darken`;
  - both `Blend` overloads and `Interpolate`;
  - the parsing half of `GetSolidColorBrush`.
- **The pure helpers of `helpers.ts` (TypeScript):** `escapeRegExp`, `toArray`, `getDefinedValue`, `fallback`, `fallbackEmpty` and `selectMany`.

The files are:

| file | module | contents |
|---|---|---|
| `wrappers.dfy` | `Wrappers` | `Option` (a C# `null`, a TypeScript `null`/`undefined`) and `Result` (a thrown exception, with its message) |
| `dotnet_text.dfy` | `DotNetText` | the .NET string operations the service calls: `char.IsWhiteSpace`, `string.IsNullOrWhiteSpace`, `Trim()`, `TrimStart(char)`, `ToLower()`/`ToUpper()` |
| `hex_format.dfy` | `HexFormat` | hex digits, a byte written with format `"X2"`, and a run of digit pairs read as bytes |
| `color_service.dfy` | `ColorService` | the colour service itself |
| `helpers.dfy` | `Helpers` | the TypeScript helpers |

Modelling choices:

- **Colours.** A `Color` is a value of four bytes, alpha first, like `System.Windows.Media.Color`.
- **`SetRgba` and `GetSolidColorBrush`.** The source builds their results step by step in local variables, so they are methods that do the same.
- **Doubles.** A `double` is a `real`. The `(byte)` cast of an in-range double is the floor, because the cast truncates toward zero.
- **`GetHex`.** The colour-name lookup `HexToColor` consults is a parameter of type `string -> Option<string>`. The round-trip properties assume it hands hex text back unchanged (`PassesThrough`).

The model follows the code in three places where a plain reading of the behaviour would differ:

- **`SetRgba` wraps out-of-range values.** It casts an `int` argument with an unchecked `(byte)`, which keeps the low eight bits. So 999 becomes 231, not 255. A negative argument leaves the channel as it is; it is not set to 0.
- **`Blend` truncates.** Each interpolated channel goes through `(byte)`. Blending `#000000` into `#FFFFFF` at 50 gives `#7F7F7F`, not `#808080`.
- **`ColorToHex` drops an opaque alpha.** It writes alpha only when it is not 255. So an eight-digit body whose alpha pair is `FF` comes back as six digits.

Some further points about the model:

- `Lighten` and `Darken` do not clamp their percent; only `Blend` does.
- `HexToColor` strips every leading `#`, so it accepts `##FF0000`. `HexColorValidate` and `GetSolidColorBrush` want exactly one `#`.
- The two regular expressions the service uses accept the same strings: `^#([0-9a-fA-F]{6}$|[0-9a-fA-F]{8})$` and `^#([A-F0-9]{2}){3,4}$` with IgnoreCase. `BrushPatternIsValidate` proves this.

## Model

Source paths are relative to the repository root. `ColorService.cs` is `CSharp/HelpersLibrary/HelpersLibrary/Services/ColorService.cs` and `helpers.ts` is `TypeScript/HelpersLibrary/src/helpers.ts`.

| member | source | states |
|---|---|---|
| ColorService.HexColorValidate | CSharp/HelpersLibrary/HelpersLibrary/Services/ColorService.cs:655-663 | `null` is never valid; an accepted string is, once trimmed, 7 or 9 characters long (`#` and 6 or 8 hex digits) |
| ColorService.HexColorValidateTrimmed | CSharp/HelpersLibrary/HelpersLibrary/Services/ColorService.cs:662 | surrounding white space never changes the verdict: a string and its trimmed form are accepted alike |
| ColorService.HexPairsIsDigits | CSharp/HelpersLibrary/HelpersLibrary/Services/ColorService.cs:534 | `([A-F0-9]{2}){k}` (IgnoreCase) matches exactly the strings of 2k hex digits |
| ColorService.BrushPatternIsValidate | CSharp/HelpersLibrary/HelpersLibrary/Services/ColorService.cs:534 | the brush pattern `^#([A-F0-9]{2}){3,4}$` accepts a trimmed string exactly when `HexColorValidate` accepts it |
| ColorService.TrimHashStripped | CSharp/HelpersLibrary/HelpersLibrary/Services/ColorService.cs:109-116 | after trimming and stripping every leading `#`, putting one `#` back yields text that `Trim` inside the validator leaves unchanged |
| ColorService.StripHashes | CSharp/HelpersLibrary/HelpersLibrary/Services/ColorService.cs:109 | `Trim()` then `TrimStart('#')`: a suffix of the trimmed text, all it drops is `#`, and what is left neither starts with `#` nor ends in white space |
| ColorService.HexToColor | CSharp/HelpersLibrary/HelpersLibrary/Services/ColorService.cs:102-133 | a `null` or blank input gives `null` |
| ColorService.HexToColorPassThrough | CSharp/HelpersLibrary/HelpersLibrary/Services/ColorService.cs:102-133 | for a non-blank input the lookup passes through, the result is the colour of the lowered, trimmed, hash-stripped text when it is 6 or 8 hex digits, and `null` otherwise |
| ColorService.HexToColorLanguage | CSharp/HelpersLibrary/HelpersLibrary/Services/ColorService.cs:102-133 | `HexToColor` gives a colour if and only if the trimmed input without its leading `#`s is 6 or 8 hex digits; that colour has alpha 255 and R, G, B from the pairs for 6 digits, and A, R, G, B in order for 8 |
| ColorService.DecodeBody | CSharp/HelpersLibrary/HelpersLibrary/Services/ColorService.cs:121-132 | six digits give alpha 255 and R, G, B from the three pairs; eight digits give A, R, G, B from the four pairs, in order |
| ColorService.HexToColorOfValidText | CSharp/HelpersLibrary/HelpersLibrary/Services/ColorService.cs:102-133 | every string `HexColorValidate` accepts is parsed by `HexToColor` to the colour its digits denote |
| ColorService.DoubleHashExample | CSharp/HelpersLibrary/HelpersLibrary/Services/ColorService.cs:109-119 | `##FF0000` parses to opaque red, yet `HexColorValidate` rejects it |
| ColorService.NotHexDigitsExample | CSharp/HelpersLibrary/HelpersLibrary/Services/ColorService.cs:102-133 | `#GG0000` is neither parsed nor validated |
| ColorService.OpaqueRedExample | CSharp/HelpersLibrary/HelpersLibrary/Services/ColorService.cs:121-126 | `#FF0000` parses to alpha 255, red 255, green and blue 0 |
| ColorService.TranslucentRedExample | CSharp/HelpersLibrary/HelpersLibrary/Services/ColorService.cs:129-132 | `#80FF0000` parses to alpha 128 and red 255, alpha pair first |
| ColorService.ColorToHex | CSharp/HelpersLibrary/HelpersLibrary/Services/ColorService.cs:80-95 | `null` gives `""`; an opaque colour gives 7 characters, any other gives 9; a `#` followed by upper-case hex digits only |
| ColorService.TranslucentRedFormatExample | CSharp/HelpersLibrary/HelpersLibrary/Services/ColorService.cs:94 | red at alpha 128 is written `#80FF0000` |
| ColorService.ColorToHexIsValid | CSharp/HelpersLibrary/HelpersLibrary/Services/ColorService.cs:80-95 | what `ColorToHex` writes is always accepted by `HexColorValidate` |
| ColorService.DecodeColorToHex | CSharp/HelpersLibrary/HelpersLibrary/Services/ColorService.cs:80-95 | the digits `ColorToHex` writes denote exactly the colour it was given |
| ColorService.HexToColorOfColorToHex | CSharp/HelpersLibrary/HelpersLibrary/Services/ColorService.cs:80-133 | round trip: `HexToColor(ColorToHex(c)) == c` for every colour `c` |
| ColorService.ColorToHexInjective | CSharp/HelpersLibrary/HelpersLibrary/Services/ColorService.cs:80-95 | different colours are never written as the same text |
| ColorService.ColorToHexOfDecodeOpaque | CSharp/HelpersLibrary/HelpersLibrary/Services/ColorService.cs:89-92 | a six-digit body formats back to itself in upper case |
| ColorService.ColorToHexOfDecodeAlpha | CSharp/HelpersLibrary/HelpersLibrary/Services/ColorService.cs:94 | an eight-digit body whose alpha is not 255 formats back to itself in upper case |
| ColorService.ColorToHexOfDecodeDropsFF | CSharp/HelpersLibrary/HelpersLibrary/Services/ColorService.cs:89-92 | an eight-digit body whose alpha is 255 formats back without its alpha pair |
| ColorService.ColorToHexOfDecode | CSharp/HelpersLibrary/HelpersLibrary/Services/ColorService.cs:80-133 | formatting a decoded body gives `#` and the body in upper case, except that an `FF` alpha pair is dropped |
| ColorService.ColorToHexOfHexToColor | CSharp/HelpersLibrary/HelpersLibrary/Services/ColorService.cs:80-133 | round trip from text: `ColorToHex(HexToColor("#" + h))` is `"#" + upper(h)`, except that an eight-digit `h` starting with `FF` collapses to six digits |
| ColorService.RgbToHex | CSharp/HelpersLibrary/HelpersLibrary/Services/ColorService.cs:143-146 | the text is 7 characters exactly when alpha is 255 (the default) |
| ColorService.RgbToColor | CSharp/HelpersLibrary/HelpersLibrary/Services/ColorService.cs:197-200 | `ColorToRgb` of the result gives back the four channels passed in |
| ColorService.RgbToColorOfColorToRgb | CSharp/HelpersLibrary/HelpersLibrary/Services/ColorService.cs:181-187 | `RgbToColor` of the channels `ColorToRgb` hands out is the original colour |
| ColorService.ColorToRgb | CSharp/HelpersLibrary/HelpersLibrary/Services/ColorService.cs:181-187 | the channels handed out are the colour's, so rebuilding a colour from them gives the original |
| ColorService.HexToRgb | CSharp/HelpersLibrary/HelpersLibrary/Services/ColorService.cs:156-171 | throws exactly when `HexToColor` gives `null`; otherwise the channels are that colour's |
| ColorService.HexToRgbOfRgbToHex | CSharp/HelpersLibrary/HelpersLibrary/Services/ColorService.cs:143-171 | round trip: `HexToRgb(RgbToHex(r, g, b, a))` gives back `r, g, b, a` |
| ColorService.LowByte | CSharp/HelpersLibrary/HelpersLibrary/Services/ColorService.cs:504 | the unchecked `(byte)` cast: identity on 0..255, and always congruent to its argument modulo 256 |
| ColorService.SetRgba | CSharp/HelpersLibrary/HelpersLibrary/Services/ColorService.cs:498-523 | each channel whose argument is above -1 becomes that argument's low byte; every other channel keeps its value |
| ColorService.SetAlphaComponent | CSharp/HelpersLibrary/HelpersLibrary/Services/ColorService.cs:468-471 | only alpha may change |
| ColorService.SetRedComponent | CSharp/HelpersLibrary/HelpersLibrary/Services/ColorService.cs:473-476 | only red may change |
| ColorService.SetGreenComponent | CSharp/HelpersLibrary/HelpersLibrary/Services/ColorService.cs:478-481 | only green may change |
| ColorService.SetBlueComponent | CSharp/HelpersLibrary/HelpersLibrary/Services/ColorService.cs:483-486 | only blue may change |
| ColorService.GetSolidColorBrush | CSharp/HelpersLibrary/HelpersLibrary/Services/ColorService.cs:525-565 | `null` or empty input gives `null` even when `throws` holds; otherwise an invalid input throws the 6-to-8-characters message exactly when `throws` holds, and gives `null` when it does not; a valid input gives the colour of its digits, opaque when there are six |
| ColorService.TruncateToByte | CSharp/HelpersLibrary/HelpersLibrary/Services/ColorService.cs:583-585 | the `(byte)` cast of an in-range double is the largest byte not above it |
| ColorService.LightenChannel | CSharp/HelpersLibrary/HelpersLibrary/Services/ColorService.cs:583-585 | never darker for a non-negative amount and never lighter for a non-positive one; unchanged for 0; 255 when the sum reaches 255; 0 when it is below 1 |
| ColorService.Lighten | CSharp/HelpersLibrary/HelpersLibrary/Services/ColorService.cs:578-586 | alpha is kept; R, G and B do not fall for a non-negative percent and do not rise for a non-positive one; 0 percent changes nothing; 100 percent or more gives white at the same alpha |
| ColorService.LightenMonotonic | CSharp/HelpersLibrary/HelpersLibrary/Services/ColorService.cs:578-586 | a larger percent never gives a darker channel |
| ColorService.Darken | CSharp/HelpersLibrary/HelpersLibrary/Services/ColorService.cs:591-594 | alpha is kept; a non-negative percent never brightens a channel; 100 percent or more gives black at the same alpha |
| ColorService.Interpolate | CSharp/HelpersLibrary/HelpersLibrary/Services/ColorService.cs:665-668 | 0 percent gives `from` and 100 percent gives `to` |
| ColorService.InterpolateBetween | CSharp/HelpersLibrary/HelpersLibrary/Services/ColorService.cs:665-668 | for a percent in [0, 100] the value lies between `from` and `to` |
| ColorService.BlendChannel | CSharp/HelpersLibrary/HelpersLibrary/Services/ColorService.cs:642-646 | a blended channel lies between the two input channels |
| ColorService.Blend | CSharp/HelpersLibrary/HelpersLibrary/Services/ColorService.cs:638-648 | every channel of the result, alpha included, lies between the inputs' channels |
| ColorService.BlendAtZero | CSharp/HelpersLibrary/HelpersLibrary/Services/ColorService.cs:638-648 | blending by 0 percent gives the first colour |
| ColorService.BlendAtFull | CSharp/HelpersLibrary/HelpersLibrary/Services/ColorService.cs:638-648 | blending by 100 percent or more, in either sign, gives the second colour |
| ColorService.BlendNegatedPercent | CSharp/HelpersLibrary/HelpersLibrary/Services/ColorService.cs:640 | the sign of the percent does not matter |
| ColorService.BlendSelf | CSharp/HelpersLibrary/HelpersLibrary/Services/ColorService.cs:638-648 | a colour blended with itself is that colour |
| ColorService.BlendBlackWhiteExample | CSharp/HelpersLibrary/HelpersLibrary/Services/ColorService.cs:638-668 | black blended into white by 50 percent is `#7F7F7F`: 127.5 is truncated |
| ColorService.BlendHex | CSharp/HelpersLibrary/HelpersLibrary/Services/ColorService.cs:603-629 | `""` when neither text parses; the hex of the one that parses when only one does; otherwise the hex of the blend |
| HexFormat.DigitValue | CSharp/HelpersLibrary/HelpersLibrary/Services/ColorService.cs:124-132 | a hex digit is worth less than 16, and less than 10 exactly when it is a decimal digit |
| HexFormat.UpperDigit | CSharp/HelpersLibrary/HelpersLibrary/Services/ColorService.cs:91 | the digit written for a value below 16 is upper case and reads back as that value |
| HexFormat.ByteHex | CSharp/HelpersLibrary/HelpersLibrary/Services/ColorService.cs:91 | format `"X2"`: two upper-case digits that read back as the byte |
| HexFormat.ByteHexOfPair | CSharp/HelpersLibrary/HelpersLibrary/Services/ColorService.cs:80-133 | formatting the value of a digit pair gives that pair in upper case |
| HexFormat.PairsText | CSharp/HelpersLibrary/HelpersLibrary/Services/ColorService.cs:91-94 | two characters per byte written |
| HexFormat.PairsTextSpec | CSharp/HelpersLibrary/HelpersLibrary/Services/ColorService.cs:91-94 | only upper-case digits are written, and the `k`-th pair reads back as the `k`-th byte |
| HexFormat.PairValuesSpec | CSharp/HelpersLibrary/HelpersLibrary/Services/ColorService.cs:121-132 | one byte per digit pair, in order, each the value of its pair |
| HexFormat.PairValuesOfPairsText | CSharp/HelpersLibrary/HelpersLibrary/Services/ColorService.cs:80-133 | reading written bytes gives the bytes back |
| HexFormat.PairsTextOfPairValues | CSharp/HelpersLibrary/HelpersLibrary/Services/ColorService.cs:80-133 | writing read bytes gives the digits back in upper case |
| DotNetText.TrimSpec | CSharp/HelpersLibrary/HelpersLibrary/Services/ColorService.cs:662 | `Trim()` keeps a substring with no white space at either end |
| DotNetText.TrimEmptyIffWhiteSpace | CSharp/HelpersLibrary/HelpersLibrary/Services/ColorService.cs:104 | `Trim()` gives `""` exactly when the string is `IsNullOrWhiteSpace` |
| DotNetText.TrimIdempotent | CSharp/HelpersLibrary/HelpersLibrary/Services/ColorService.cs:662 | trimming twice is trimming once |
| DotNetText.TrimLower | CSharp/HelpersLibrary/HelpersLibrary/Services/ColorService.cs:109 | `Trim()` and `ToLower()` commute |
| DotNetText.TrimStartCharSpec | CSharp/HelpersLibrary/HelpersLibrary/Services/ColorService.cs:109 | `TrimStart('#')` removes exactly the leading `#`s |
| DotNetText.TrimStartCharLower | CSharp/HelpersLibrary/HelpersLibrary/Services/ColorService.cs:109 | `TrimStart(c)` and `ToLower()` commute for a non-letter `c` |
| Helpers.EscapeRegExp | TypeScript/HelpersLibrary/src/helpers.ts:20-22 | the output is as long as the input plus one for each special character |
| Helpers.LiteralTextOfEscape | TypeScript/HelpersLibrary/src/helpers.ts:20-22 | the output, read as a pattern, contains only literal characters and identity escapes, and matches exactly the input; dropping each inserted backslash gives the input back |
| Helpers.SyntaxCharactersEscaped | TypeScript/HelpersLibrary/src/helpers.ts:21 | every pattern SyntaxCharacter is among the escaped characters |
| Helpers.EscapeInjective | TypeScript/HelpersLibrary/src/helpers.ts:20-22 | different texts never escape to the same pattern |
| Helpers.EscapeAppend | TypeScript/HelpersLibrary/src/helpers.ts:20-22 | escaping distributes over concatenation |
| Helpers.EscapePlain | TypeScript/HelpersLibrary/src/helpers.ts:20-22 | text without special characters is left unchanged |
| Helpers.ToArray | TypeScript/HelpersLibrary/src/helpers.ts:216-225 | `[]` exactly for a missing element or an empty array; an array itself; one element wrapped |
| Helpers.ToArrayMembership | TypeScript/HelpersLibrary/src/helpers.ts:216-225 | the result holds the single element, or what the array holds, and nothing else |
| Helpers.ToArrayIdempotent | TypeScript/HelpersLibrary/src/helpers.ts:220-221 | `toArray` of a `toArray` result is that result |
| Helpers.GetDefinedValue | TypeScript/HelpersLibrary/src/helpers.ts:234-243 | the other value when one is missing; `check` of both when both are set; missing exactly when both are missing, or both are set and there is no `check` |
| Helpers.GetDefinedValueSwap | TypeScript/HelpersLibrary/src/helpers.ts:234-243 | swapping the values and `check`'s arguments gives the same result |
| Helpers.GetDefinedValueSelects | TypeScript/HelpersLibrary/src/helpers.ts:234-243 | with a `check` that returns one of its arguments, a defined result is one of the inputs |
| Helpers.Fallback | TypeScript/HelpersLibrary/src/helpers.ts:245-247 | a defined value is returned; a missing one gives `fallbackValue` |
| Helpers.FallbackChain | TypeScript/HelpersLibrary/src/helpers.ts:234-247 | falling back twice is falling back once to the first defined value, as `getDefinedValue` with a first-argument `check` picks it |
| Helpers.FallbackEmpty | TypeScript/HelpersLibrary/src/helpers.ts:249-260 | a non-empty value is kept; a missing or empty one gives the fallback when there is one; the result is `""` exactly when value and fallback are both missing or empty |
| Helpers.FallbackEmptyIdempotent | TypeScript/HelpersLibrary/src/helpers.ts:249-260 | applying it again with the same fallback changes nothing |
| Helpers.FallbackEmptyIsFallback | TypeScript/HelpersLibrary/src/helpers.ts:245-260 | it agrees with `fallback` on every value but `""` |
| Helpers.FallbackEmptyOneArgument | TypeScript/HelpersLibrary/src/helpers.ts:249 | the one-argument overload is `fallback` to `""` |
| Helpers.Map | TypeScript/HelpersLibrary/src/helpers.ts:271 | `array.map(selector)`: same length, the selector's result at each index |
| Helpers.ConcatFromFlatten | TypeScript/HelpersLibrary/src/helpers.ts:275 | the `concat` reduction from an accumulator is the accumulator followed by the in-order concatenation |
| Helpers.SelectMany | TypeScript/HelpersLibrary/src/helpers.ts:270-276 | `selectMany` is the in-order concatenation of the selector's results, `[]` for an empty array |
| Helpers.SelectManyAppend | TypeScript/HelpersLibrary/src/helpers.ts:270-276 | `selectMany` over joined arrays is the joined results |
| Helpers.SelectManySingle | TypeScript/HelpersLibrary/src/helpers.ts:270-276 | over a one-element array it is the selector's result for that element |
| Helpers.SelectManyMembership | TypeScript/HelpersLibrary/src/helpers.ts:270-276 | an element is in the result exactly when the selector produces it for some element of the array |
| Helpers.SelectManyLength | TypeScript/HelpersLibrary/src/helpers.ts:270-276 | the result's length is the sum of the selector results' lengths |

## Left out

- HSL and HSV conversions, and what is built on them (`GrayScale`, `Invert`, `Saturate`, `DeSaturate`, `GetHue`, `GetSaturation`, `GetLuminance`, `GetValueHsv`). They are floating-point numerics and call `System.Drawing` code whose bodies are not available.
- WPF brush glue: `BrushToHex`, `BrushToColor`, `ColorToBrush`, and the construction and freezing of the `SolidColorBrush` in `GetSolidColorBrush`. These are UI-framework calls.
- HexToColor: `GetHex` is not part of this model. It is a parameter, and the round-trip properties hold only for a lookup that hands hex text back unchanged.
- ToLower, ToUpper: case mapping covers the ASCII letters only. .NET's culture-aware mapping of other characters is not modelled. Hex digits are ASCII, so no colour result depends on it.
- Lighten, Darken, Blend, Interpolate: `double` is modelled as exact `real` arithmetic. NaN, infinities and binary rounding of `percent * 255 / 100` and `percent / 100` are not modelled. The rounding can make a blended channel one lower than the model's: blending 0 into 200 at 29 percent computes `0 + 200 * (29 / 100.0)`, which is 57.99999999999999 as a `double`, so the program writes 57 where `BlendChannel` gives 58. The proved properties (between the inputs, the 0 and 100 percent endpoints, the sign of the percent, `#7F7F7F`) do not depend on this.
- GetSolidColorBrush: returns the parsed colour in place of a frozen brush.
- ToArray: the result for an array is the same sequence; that JavaScript returns the very same array object, so that later mutation is shared, is not modelled.
- FallbackEmpty: only the string form is modelled. The generic overload for a non-string `T` compares the value with `''` and returns `''` when `fallbackValue` is missing, which does not fit its declared type.
- GetDefinedValue: it is modelled over any type `T`, while the source types its values as `number`. Numeric special values such as NaN play no role, because the function only tests for `null`/`undefined`.
- Helpers.LiteralText: it reads the escape form that non-unicode ECMAScript patterns allow: a backslash before any of the escaped characters. In unicode mode (`u` flag), `\=`, `\!` and `\:` are syntax errors; the library builds its patterns without that flag.
- The rest of `helpers.ts` is not modelled: `replaceAll`, `isInLowerCase`, `isInUpperCase`, `getMatches`, `delay`, `isPromise`, `isNumber`, `isEqual`, `getEnumFromString`, `sortObjectKeys` and `isObject`. These are regex-engine, timer, promise and dynamic-coercion code.
