# Hash-based colour selection (bstats-web `src/helpers/colors.ts`)

This project models the integer and string logic of the colour helper of
bstats-web. The helper maps an arbitrary string, such as a user or tag name,
to one colour of a fixed 20-entry palette, and formats colours as CSS
`rgb(...)` strings. Its four pieces are modelled in Dafny and proved:

- **The hex colour parser `t`** (`Colors.ParseHex` for one string,
  `Colors.ParseAll` for the list it maps over). A string is accepted when it
  is `#` followed by hex digits, and the digit count is 3 or 4 (short form,
  each digit doubled) or 6 or 7 (long form, digit pairs). A fourth or seventh
  digit is ignored. Every other string raises `Bad Color`. When the pattern
  fails, the message carries the original string. When the count is wrong,
  it carries the string with its `#` removed.
- **The palette `palette_in`** (`Colors.PaletteSource`, `Colors.PaletteHex`,
  `Colors.Palette`). One space-separated literal is cut by `split(" ")`
  (`Strings.Split`) into 20 codes, which are parsed at load time. The model
  proves that the split yields exactly the 20 codes, and that parsing them
  never throws and yields the listed table of colours.
- **The string hash `hashCode`** (`Colors.HashCode`). This is the loop
  `h = h * 31 + charCode`. It is proved equal to the left fold `Colors.HashOf`.
  The fold is proved non-negative and equal to the polynomial
  `sum code(s[i]) * 31^(n-1-i)`.
- **`getColorByStringHash`** (`Colors.GetColorByStringHash`). The empty
  string selects entry 0. Any other string selects entry `hash % 20`, where
  `%` is JavaScript's truncating remainder (`Colors.JsRemainder`). Because
  the hash is never negative, the index always lies in `[0, 20)`.
- **`getColorString`** (`Colors.ColorString`). It writes
  `"rgb(" + a + "," + b + "," + c + ")"` with decimal numerals
  (`Decimal.Show`). Distinct colours get distinct strings.

Two details of the code are worth stating on their own:

- The hash has no 32-bit wrap-around. It is a plain JavaScript number.
- The palette index is `hash % palette_in.length`, not
  `((hash % 20) + 20) % 20`. No normalisation is needed, because the hash
  cannot be negative (`Colors.PaletteIndex`).

Files: `colors.dfy` (module `Colors`), `strings.dfy` (module `Strings`,
`Array.prototype.join` and `String.prototype.split` for a one-character
separator) and `decimal.dfy` (module `Decimal`, decimal numerals of
non-negative integers; below 10^21 these are what `Number.prototype.toString`
writes).

## Model

| member | source | states |
|---|---|---|
| `Colors.HexValue` | src/helpers/colors.ts:47-55 | the value parseInt gives one hex digit of `[A-Fa-f0-9]` is below 16 |
| `Colors.HexPatternAsRegex` | src/helpers/colors.ts:42 | the pattern test `/^#[A-Fa-f0-9]+$/.test(str)` (`MatchesHexPattern`) holds exactly when the string is `#` followed by a run the regular expression derives for `[A-Fa-f0-9]+`: one hex digit, then either the end or another run |
| `Colors.ParseHexPair` | src/helpers/colors.ts:47-55 | `parseInt(hi + lo, 16)` of two hex digits is a byte, below 256 |
| `Colors.ParseHex` | src/helpers/colors.ts:41-58 | success exactly when the string matches `^#[A-Fa-f0-9]+$` and has 3, 4, 6 or 7 digits; a pattern failure throws `Bad Color` with the original string, a wrong digit count throws it with the `#` stripped; every channel is in [0,255]; short form: channel i is `17 * digit[i]`; long form: channel i is `16 * digit[2i] + digit[2i+1]` |
| `Colors.ParseAll` | src/helpers/colors.ts:40-59 | `t` succeeds exactly when every element parses, and then returns the element-wise parses in order with the same length; otherwise it throws the error of the first element that fails |
| `Colors.ParseAllSucceeds` | src/helpers/colors.ts:40-59 | a list whose elements parse to given colours is mapped to exactly that list of colours |
| `Colors.ParseLongForm` | src/helpers/colors.ts:51-56 | every colour with channels in [0,255] is the parse of its six-digit `#rrggbb` spelling |
| `Colors.ShortFormIsDoubledLongForm` | src/helpers/colors.ts:45-56 | a three-digit form parses, and parses to the same colour as the six-digit form with each digit doubled (`#abc` as `#aabbcc`) |
| `Colors.AlphaDigitIgnored` | src/helpers/colors.ts:45-56 | a four-digit or seven-digit form parses to the same colour as the string without its last digit |
| `Colors.ParseHexAcceptedExamples` | src/helpers/colors.ts:42-56 | `#fff` and `#ffffff` are white, `#000` is black, `#abcd` and `#abc` are both (0xAA, 0xBB, 0xCC) |
| `Colors.ParseHexRejectedExamples` | src/helpers/colors.ts:42-57 | a bare `#` and `#zzz` fail the pattern and carry the whole string; `#12`, `#12345` and `#aabbccdd` fail the digit count and carry the stripped string |
| `Colors.PaletteSourceIsJoin` | src/helpers/colors.ts:5 | the palette literal is the 20 codes of `PaletteHex`, in order, separated by single spaces |
| `Colors.PaletteSourceSplits` | src/helpers/colors.ts:5-7 | `split(" ")` of the palette literal gives exactly the 20 codes of `PaletteHex`, in order |
| `Colors.PaletteHexParses` | src/helpers/colors.ts:40-59 | `t` of the 20 codes does not throw and yields exactly the listed 20 colours |
| `Colors.PaletteParses` | src/helpers/colors.ts:4-8 | building the palette at load time, `t` of the literal split at spaces, does not throw and yields exactly the listed 20 colours |
| `Colors.Palette` | src/helpers/colors.ts:4-8 | `palette_in` has 20 entries; entry i is the parse of literal i and has channels in [0,255] |
| `Colors.CharCode` | src/helpers/colors.ts:35 | the code `charCodeAt` reads for a character is a Unicode scalar value: below 0xD800, or from 0xE000 up to 0x10FFFF |
| `Colors.HashOf` | src/helpers/colors.ts:32-38 | the fold `h = h * 31 + code`, from `h = 0`, is never negative |
| `Colors.HashCode` | src/helpers/colors.ts:32-38 | the loop over the characters returns exactly the left fold `HashOf` of the whole string |
| `Colors.HashConcat` | src/helpers/colors.ts:32-38 | the hash of `s + t` is the hash of `s` times `31^|t|` plus the hash of `t` |
| `Colors.HashIsPolynomial` | src/helpers/colors.ts:32-38 | the hash equals the sum of `code(s[i]) * 31^(|s|-1-i)` over the positions of `s` |
| `Colors.JsRemainder` | src/helpers/colors.ts:13 | JavaScript `%`: `a` is the truncated quotient times `n` plus the remainder, which is strictly between `-n` and `n` and has the sign of `a` |
| `Colors.PaletteIndex` | src/helpers/colors.ts:11-13 | the index read is in [0, 20): 0 for the empty string, and otherwise the hash modulo 20 with no negative case |
| `Colors.GetColorByStringHash` | src/helpers/colors.ts:10-14 | returns the palette entry at `PaletteIndex(str)`: entry 0 for the empty string; the result is always a palette member with channels in [0,255] |
| `Colors.EveryEntryReachable` | src/helpers/colors.ts:10-14 | every one of the 20 palette entries is the colour of some non-empty string |
| `Colors.ColorString` | src/helpers/colors.ts:28-30 | the string is `rgb(`, then the three channel numerals with a comma between each two, then `)` |
| `Strings.Join` | src/helpers/colors.ts:29 | `join(sep)` of a non-empty list has the parts' total length plus one separator between each two neighbours, starts with the first part, and has the separator right after it |
| `Strings.JoinThree` | src/helpers/colors.ts:29 | `[a, b, c].join(sep)` is `a`, the separator, `b`, the separator, `c` |
| `Strings.JoinInjective` | src/helpers/colors.ts:29 | two non-empty lists whose parts hold no separator and whose joins are equal are equal |
| `Strings.Split` | src/helpers/colors.ts:5-7 | `split(sep)` gives at least one piece, no piece holds the separator, and joining the pieces with the separator gives back the string |
| `Strings.SplitJoin` | src/helpers/colors.ts:5-7 | splitting the join of a non-empty list of separator-free parts gives the list back |
| `Colors.ColorStringInjective` | src/helpers/colors.ts:28-30 | distinct colours are formatted as distinct strings |
| `Colors.ColorStringExample` | src/helpers/colors.ts:28-30 | `(255, 0, 128)` is formatted as `rgb(255,0,128)` |
| `Decimal.Show` | src/helpers/colors.ts:29 | the numeral of a channel is a non-empty string of decimal digits with no leading zero, other than `0` itself |
| `Decimal.ValueOfShow` | src/helpers/colors.ts:29 | reading the numeral back in base ten gives the number it was written from |

## Left out

- `colorRGB2HSL` and `colorHSL2RGB` (src/helpers/colors.ts:61-111) are not modelled. They are floating-point division, `Math.min`/`Math.max` and piecewise float arithmetic, and their round trip holds only approximately.
- `toHighSaturation` and `toLowSaturation` (src/helpers/colors.ts:16-26) are not modelled. They only compose the two float converters, with in-place edits of the HSL triple.
- HashOf: the hash is an unbounded integer. JavaScript numbers lose precision past 2^53, and very long strings reach `Infinity`, which gives a `NaN` index at line 13. Neither effect is modelled.
- CharCode: a Dafny `char` is a Unicode scalar value, while `charCodeAt` reads UTF-16 code units. The two agree on the Basic Multilingual Plane outside the surrogate range U+D800 to U+DFFF. A character above the Basic Multilingual Plane is one step of the fold here but two steps (a surrogate pair) in JavaScript. JavaScript strings may also hold lone surrogates, which are not Dafny characters and are not modelled.
- GetColorByStringHash: only the empty string is falsy. `null` and `undefined` are not strings in the TypeScript signature, so they are not modelled.
- ColorString: channels are natural numbers, which is what the palette holds. Formatting of fractional or negative channels by `Number.prototype.toString` is not modelled. For channels of 10^21 and above the model writes all decimal digits, while JavaScript writes exponent form (`1e+21`); channels above 2^53 are not exactly representable as JavaScript numbers. Palette channels are at most 255, so neither case arises from the palette.
- Split: only the one-character separator that the source passes is modelled; `split` with a longer separator, a regular expression or a limit is not.
- `RegExp.test` and `parseInt` are replaced by the hex-digit predicate `IsHexDigit` and the digit value `HexValue`.
