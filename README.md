# Day-and-night toggle: colour parsing and toggle state in Dafny

This project models the two pieces of logic inside the SwiftUI day/night toggle
switch and proves properties about them.

- **`HexColor`** (`hex_color.dfy`) models `Color.init(hex:)`. It trims non-alphanumeric
  characters from both ends of the colour string and scans the leading hex digits
  into an integer. The trimmed length then picks the format: `#RGB`, `#RRGGBB`,
  `#AARRGGBB`, or the fallback. Shifts and masks cut four channel bytes out of the
  integer, and each byte is divided by 255. Channels are Dafny `real`, so the
  division is exact.
- **`Toggle`** (`toggle_view.dfy`) models the state of `ToggleView` with a class
  `ToggleView`. Its fields are `isOn`, `transitionProgress`, the never-filled
  `starPositions` array, `minDistance` and whether a completion handler was
  given. A ghost log records every value passed to that handler, and a ghost
  counter the number of taps; the class invariant ties the state to `Taps` and
  the log to `Reports` of that many taps. `Tap` is the tap gesture. `IsValidPosition`, `GenerateStarPositions` and `CreateStars` are
  the star placement. Beside the class, the tap is also a pure function
  `Tapped` on `ToggleState` values. `Tap` is proved against it, and the
  lemmas about repeated taps are stated on it.

`CGFloat.random(in:)` is an oracle parameter `sample: nat -> Point`. `sample(n)`
is the `n`-th point drawn; draws are made only while the toggle is off, one per
trip through the body of the `repeat` loop. The
methods accept any oracle. Their facts about the star box (x in [-17, -7],
y in [-15, 15]) are stated for oracles whose every draw lies in the ranges the
source draws from.
Distances are compared squared: `sqrt(dx² + dy²) < 20` is stated as
`dx² + dy² < 400`, which is the same test for non-negative reals.

The model follows the code in four places where it departs from what the
component is documented or expected to do:

- The code trims only the two ends of the string, not every non-alphanumeric
  character. Inner characters are kept and counted in the length.
- Unsupported lengths give the bytes `(1, 1, 1, 1)`, not white (see Findings).
- A string of a supported length that is not hex, such as `ZZZ`, still gets a colour from its leading digits (or 0), not white (see Findings).
- The star generator enforces no spacing at all (see Findings).

## Model

| member | source | states |
|---|---|---|
| HexColor.LeadingTrimmed | DayAndNightToggle/Sources/DayAndNightToggle/Extensions/Color+Extension.swift:27-28 | the characters dropped at the front are all non-alphanumeric, and the first one kept is alphanumeric |
| HexColor.TrailingTrimmed | DayAndNightToggle/Sources/DayAndNightToggle/Extensions/Color+Extension.swift:27-28 | the characters dropped at the back are all non-alphanumeric, and the last one kept is alphanumeric |
| HexColor.Trim | DayAndNightToggle/Sources/DayAndNightToggle/Extensions/Color+Extension.swift:27-28 | the trimmed string is empty exactly when the input has no ASCII letter or digit; otherwise it starts and ends with one |
| HexColor.TrimCharacterised | DayAndNightToggle/Sources/DayAndNightToggle/Extensions/Color+Extension.swift:27-28 | any slice with only non-alphanumerics outside it and alphanumerics at both ends is the trimmed string, so inner characters of any kind are kept |
| HexColor.TrimIgnoresSurrounding | DayAndNightToggle/Sources/DayAndNightToggle/Extensions/Color+Extension.swift:25-28 | punctuation added before and after a string does not change its trimmed form |
| HexColor.SurroundingIgnored | DayAndNightToggle/Sources/DayAndNightToggle/Extensions/Color+Extension.swift:25-28 | a string with or without leading and trailing punctuation (such as `#`) gives the same bytes and the same colour |
| HexColor.TrimHexDigits | DayAndNightToggle/Sources/DayAndNightToggle/Extensions/Color+Extension.swift:27-28 | a string made only of hex digits is left unchanged by the trim |
| HexColor.HexDigitValue | DayAndNightToggle/Sources/DayAndNightToggle/Extensions/Color+Extension.swift:30-31 | a hex digit's value is below 16, and below 10 exactly for `0`-`9` |
| HexColor.HexValue | DayAndNightToggle/Sources/DayAndNightToggle/Extensions/Color+Extension.swift:30-31 | the value of `n` hex digits is below 16^n |
| HexColor.HexValueAppend | DayAndNightToggle/Sources/DayAndNightToggle/Extensions/Color+Extension.swift:30-31 | reading `s` then `t` gives value(s) · 16^len(t) + value(t) |
| HexColor.HexRunLength | DayAndNightToggle/Sources/DayAndNightToggle/Extensions/Color+Extension.swift:29-31 | the scan reads exactly the maximal leading run of hex digits |
| HexColor.ScanHex | DayAndNightToggle/Sources/DayAndNightToggle/Extensions/Color+Extension.swift:29-31 | the scanned integer is below 16^length, equals the digits' value for an all-hex string, and stays 0 when the first character is not a hex digit |
| HexColor.RunStopsAtNonDigit | DayAndNightToggle/Sources/DayAndNightToggle/Extensions/Color+Extension.swift:29-31 | for all hex digits `u` followed by nothing or by a non-digit, the scan reads exactly `len(u)` characters |
| HexColor.ScanLeadingRun | DayAndNightToggle/Sources/DayAndNightToggle/Extensions/Color+Extension.swift:29-31 | a string made of hex digits `u`, then anything that does not start with a hex digit, scans as the value of `u` (`12Z` scans 0x12) |
| HexColor.SwitchOnLength | DayAndNightToggle/Sources/DayAndNightToggle/Extensions/Color+Extension.swift:36-62 | every branch gives bytes in 0..255; lengths 3 and 6 give alpha 255; any other length than 3, 6, 8 gives (1,1,1,1) |
| HexColor.ParseBytes | DayAndNightToggle/Sources/DayAndNightToggle/Extensions/Color+Extension.swift:26-62 | for every input string, all four channel bytes lie in 0..255 |
| HexColor.Normalise | DayAndNightToggle/Sources/DayAndNightToggle/Extensions/Color+Extension.swift:67-70 | a byte divided by 255 lies in [0,1], and multiplying back by 255 returns the byte |
| HexColor.ColorFromHex | DayAndNightToggle/Sources/DayAndNightToggle/Extensions/Color+Extension.swift:26-71 | every channel of every parsed colour lies in [0,1], and 255 times each channel is the parsed byte |
| HexColor.ExtractThree | DayAndNightToggle/Sources/DayAndNightToggle/Extensions/Color+Extension.swift:40-42 | `>> 8`, `>> 4 & 0xF` and `& 0xF` recover the three digits of a 12-bit value |
| HexColor.ExtractSix | DayAndNightToggle/Sources/DayAndNightToggle/Extensions/Color+Extension.swift:47-49 | `>> 16`, `>> 8 & 0xFF` and `& 0xFF` recover the three bytes of a 24-bit value |
| HexColor.ExtractEight | DayAndNightToggle/Sources/DayAndNightToggle/Extensions/Color+Extension.swift:54-57 | the four shifts and masks recover the four bytes of a 32-bit value, the top byte being alpha |
| HexColor.ThreeDigits | DayAndNightToggle/Sources/DayAndNightToggle/Extensions/Color+Extension.swift:38-44 | a 3-digit string gives 17 times each digit for red, green and blue, and alpha 255 |
| HexColor.SixDigits | DayAndNightToggle/Sources/DayAndNightToggle/Extensions/Color+Extension.swift:45-51 | a 6-digit string gives its three digit pairs, in order, as red, green and blue, and alpha 255 |
| HexColor.EightDigits | DayAndNightToggle/Sources/DayAndNightToggle/Extensions/Color+Extension.swift:52-58 | an 8-digit string is ARGB: its first pair is alpha, then red, green and blue |
| HexColor.EightDigitValue | DayAndNightToggle/Sources/DayAndNightToggle/Extensions/Color+Extension.swift:29-31 | the scanned value of 8 digits is the big-endian number of its four digit pairs |
| HexColor.SixDigitValue | DayAndNightToggle/Sources/DayAndNightToggle/Extensions/Color+Extension.swift:29-31 | the scanned value of 6 digits is the big-endian number of its three digit pairs |
| HexColor.ShortFormDoubles | DayAndNightToggle/Sources/DayAndNightToggle/Extensions/Color+Extension.swift:38-51 | for all hex digits x, y, z, `xyz` gives the same bytes as `xxyyzz` |
| HexColor.NonHexScansAsZero | DayAndNightToggle/Sources/DayAndNightToggle/Extensions/Color+Extension.swift:29-58 | the length alone picks the branch: if the trimmed string starts with a non-hex character, red, green and blue are 0, and alpha is 255, or 0 in the 8-character branch |
| HexColor.ExampleShortForm | DayAndNightToggle/Sources/DayAndNightToggle/Extensions/Color+Extension.swift:19 | `#F0A` and `#FF00AA` both give bytes (0xFF, 0x00, 0xAA, 0xFF) |
| HexColor.LeadingHashIgnored | DayAndNightToggle/Sources/DayAndNightToggle/Extensions/Color+Extension.swift:25-28 | for every string whose first character is not a letter or digit, such as a leading `#`, dropping that character changes neither the bytes nor the colour |
| HexColor.ExampleArgb | DayAndNightToggle/Sources/DayAndNightToggle/Extensions/Color+Extension.swift:21 | `#80FF00AA` gives alpha 0x80, red 0xFF, green 0x00, blue 0xAA, so the colour (1, 0, 170/255) with opacity 128/255 |
| HexColor.ShortDigitsExample | DayAndNightToggle/Sources/DayAndNightToggle/Extensions/Color+Extension.swift:38-44 | `F0A` gives bytes (0xFF, 0x00, 0xAA, 0xFF) |
| HexColor.LongDigitsExample | DayAndNightToggle/Sources/DayAndNightToggle/Extensions/Color+Extension.swift:45-51 | `FF00AA` gives bytes (0xFF, 0x00, 0xAA, 0xFF) |
| HexColor.ArgbDigitsExample | DayAndNightToggle/Sources/DayAndNightToggle/Extensions/Color+Extension.swift:52-71 | `80FF00AA` gives bytes (0xFF, 0x00, 0xAA, 0x80), that is the colour (1, 0, 170/255) with opacity 128/255 |
| HexColor.ExampleWhite | DayAndNightToggle/Sources/DayAndNightToggle/Extensions/Color+Extension.swift:38-51 | `FFF` and `FFFFFF` both give opaque white (1,1,1,1) |
| HexColor.ExampleNotHex | DayAndNightToggle/Sources/DayAndNightToggle/Extensions/Color+Extension.swift:29-44 | `ZZZ` scans nothing and gives opaque black (0,0,0,255) |
| HexColor.ExampleInnerCharacterKept | DayAndNightToggle/Sources/DayAndNightToggle/Extensions/Color+Extension.swift:27-44 | `#F-A` trims to `F-A`, which has length 3 and scans only `F`, so the bytes are (0, 0, 0xFF, 255) |
| HexColor.FallbackIsNotWhite | DayAndNightToggle/Sources/DayAndNightToggle/Extensions/Color+Extension.swift:59-71 | a trimmed length other than 3, 6, 8 gives 1/255 in every channel, which is not white |
| HexColor.ExampleFallbacks | DayAndNightToggle/Sources/DayAndNightToggle/Extensions/Color+Extension.swift:59-71 | the empty string, `ZZ` and `12345` all give the same fallback colour, whose opacity is 1/255 |
| HexColor.ColorFromHexWhiteDefault | DayAndNightToggle/Sources/DayAndNightToggle/Extensions/Color+Extension.swift:23 | the documented default: a string whose trimmed form is not all hex digits, or has a length other than 3, 6, 8, gives opaque white; a valid string in a supported format gives the same colour as `ColorFromHex`; channels stay in [0,1] |
| HexColor.WhiteDefaultNotHex | DayAndNightToggle/Sources/DayAndNightToggle/Extensions/Color+Extension.swift:23 | with the documented default, `ZZZ` is white |
| HexColor.WhiteDefaultInnerCharacter | DayAndNightToggle/Sources/DayAndNightToggle/Extensions/Color+Extension.swift:23 | with the documented default, `#F-A` is white |
| Toggle.SquaredDistance | DayAndNightToggle/Sources/DayAndNightToggle/ToggleView.swift:98 | the squared distance is non-negative, and zero from a point to itself |
| Toggle.Initial | DayAndNightToggle/Sources/DayAndNightToggle/ToggleView.swift:6-9 | the view starts with `isOn` true and `transitionProgress` 0 |
| Toggle.Tapped | DayAndNightToggle/Sources/DayAndNightToggle/ToggleView.swift:80-81 | a tap negates `isOn` and leaves `transitionProgress` at the end point that matches the new flag, from any state |
| Toggle.TapTwiceRestores | DayAndNightToggle/Sources/DayAndNightToggle/ToggleView.swift:80-81 | two taps give back the (isOn, transitionProgress) pair they started from |
| Toggle.TapsAlternate | DayAndNightToggle/Sources/DayAndNightToggle/ToggleView.swift:80-81 | after n taps the state is still settled, and it is the starting state exactly when n is even |
| Toggle.OnAfterEvenTaps | DayAndNightToggle/Sources/DayAndNightToggle/ToggleView.swift:6-81 | from the initial state, `isOn` holds exactly after an even number of taps |
| Toggle.Reports | DayAndNightToggle/Sources/DayAndNightToggle/ToggleView.swift:82 | n taps report n values to the handler, one per tap |
| Toggle.ReportsAlternate | DayAndNightToggle/Sources/DayAndNightToggle/ToggleView.swift:80-82 | the k-th reported value is the negation of the starting flag for even k and the starting flag for odd k |
| Toggle.ViewAfterTaps | DayAndNightToggle/Sources/DayAndNightToggle/ToggleView.swift:6-82 | in every view reached by taps, `isOn` holds exactly when the number of taps is even, and a view with a handler has reported one value per tap: `false`, `true`, `false`, ... |
| Toggle.StarAt | DayAndNightToggle/Sources/DayAndNightToggle/ToggleView.swift:124-129 | a star is at (-100, -100) while `isOn`; otherwise it is a drawn point, and lies in x ∈ [-17,-7], y ∈ [-15,15] when the draws do |
| Toggle.AsWrittenAcceptsCoincidentStars | DayAndNightToggle/Sources/DayAndNightToggle/ToggleView.swift:124-132 | with a random source that draws the same point twice, two generated stars coincide: their distance is below `minDistance` |
| Toggle.AsWrittenStarsNeverSpaced | DayAndNightToggle/Sources/DayAndNightToggle/ToggleView.swift:124-132 | for every oracle that draws inside the star box, some two of the first three stars are closer than `minDistance` |
| Toggle.FarApartVertically | DayAndNightToggle/Sources/DayAndNightToggle/ToggleView.swift:98-128 | two points of the star box that are at least 20 apart differ by more than 17 in y |
| Toggle.NoThreeSpaced | DayAndNightToggle/Sources/DayAndNightToggle/ToggleView.swift:98-128 | no three points of the star box are pairwise at least 20 apart |
| Toggle.AtMostTwoSpaced | DayAndNightToggle/Sources/DayAndNightToggle/ToggleView.swift:98-128 | every list of points in the star box that are pairwise at least 20 apart has at most 2 points |
| Toggle.ToggleView.constructor | DayAndNightToggle/Sources/DayAndNightToggle/ToggleView.swift:6-29 | a new view has `isOn` true, `transitionProgress` 0, no star positions, no reports, no taps, and keeps the handler it was given |
| Toggle.ToggleView.Tap | DayAndNightToggle/Sources/DayAndNightToggle/ToggleView.swift:77-84 | the new state is `Tapped` of the old one; the handler receives the new `isOn` exactly once when present and nothing when absent; the tap count grows by one; the invariant (state = `Taps` and log = `Reports` of the tap count) is kept |
| Toggle.ToggleView.GradientColors | DayAndNightToggle/Sources/DayAndNightToggle/ToggleView.swift:18-20 | day gives [blue, white]; night gives the opaque colours (21, 21, 53)/255 and (42, 42, 114)/255 |
| Toggle.NightGradientOpaque | DayAndNightToggle/Sources/DayAndNightToggle/ToggleView.swift:19 | `151535` and `2A2A72` take the six-digit branch and are opaque |
| Toggle.NightTopColour | DayAndNightToggle/Sources/DayAndNightToggle/ToggleView.swift:19 | `151535` is the opaque colour (21, 21, 53)/255 |
| Toggle.NightBottomColour | DayAndNightToggle/Sources/DayAndNightToggle/ToggleView.swift:19 | `2A2A72` is the opaque colour (42, 42, 114)/255 |
| Toggle.NightGradientUnaffectedByFallback | DayAndNightToggle/Sources/DayAndNightToggle/ToggleView.swift:19 | parsing the night colours with the documented white fallback gives the same colours |
| Toggle.ToggleView.SunOpacity | DayAndNightToggle/Sources/DayAndNightToggle/ToggleView.swift:59 | sun opacity and moon opacity always sum to 1 |
| Toggle.ToggleView.MoonOpacity | DayAndNightToggle/Sources/DayAndNightToggle/ToggleView.swift:67 | when the state is settled, the moon opacity is 0 exactly when `isOn` and 1 exactly when not |
| Toggle.ToggleView.StarOpacity | DayAndNightToggle/Sources/DayAndNightToggle/ToggleView.swift:159 | star opacity is 0 or 1, and equals the moon opacity when the state is settled |
| Toggle.ToggleView.GlyphOffsets | DayAndNightToggle/Sources/DayAndNightToggle/ToggleView.swift:58-66 | the sun and the moon are both left of centre exactly when `isOn` |
| Toggle.ToggleView.IsValidPosition | DayAndNightToggle/Sources/DayAndNightToggle/ToggleView.swift:94-107 | the answer is true iff no stored star position is closer than `minDistance`; since the stored positions are always empty, the answer is always true |
| Toggle.ToggleView.GenerateStarPositions | DayAndNightToggle/Sources/DayAndNightToggle/ToggleView.swift:114-137 | returns exactly `count` positions; all at (-100,-100) while `isOn`; otherwise star i is the i-th draw, since every `repeat` loop accepts its first candidate; for an oracle inside the star box, the stars lie in the box and, with 3 or more of them, are not spaced |
| Toggle.ToggleView.CreateStars | DayAndNightToggle/Sources/DayAndNightToggle/ToggleView.swift:145-165 | four stars, the i-th at generated position i, each with the star opacity and a delay of i · 0.1 |
| Toggle.ToggleView.GenerateSpacedStarPositions | DayAndNightToggle/Sources/DayAndNightToggle/ToggleView.swift:110-137 | the documented placement: while `isOn`, `count` sentinels; otherwise exactly the first-fit scan `Greedy` of the candidates, so at most `count` candidates, each pair of them at least `minDistance` apart; if fewer than `count` come back, every candidate was either accepted or too close to an accepted one; for candidates inside the star box, at most 2 come back |
| Toggle.GreedyExtends | DayAndNightToggle/Sources/DayAndNightToggle/ToggleView.swift:116-132 | the first-fit scan only appends: the stars accepted before it starts stay at the front |
| Toggle.GreedyBounded | DayAndNightToggle/Sources/DayAndNightToggle/ToggleView.swift:119 | the scan accepts at most `count` stars |
| Toggle.GreedySpaced | DayAndNightToggle/Sources/DayAndNightToggle/ToggleView.swift:124-132 | every two stars the scan accepts are at least the minimum distance apart |
| Toggle.GreedyFromCandidates | DayAndNightToggle/Sources/DayAndNightToggle/ToggleView.swift:124-132 | every accepted star is one of the candidates |
| Toggle.GreedyMaximal | DayAndNightToggle/Sources/DayAndNightToggle/ToggleView.swift:124-132 | if the scan accepts fewer than `count` stars, every candidate was accepted or is too close to an accepted one |

## Left out

- SwiftUI view bodies are left out: gradients, shadows, masks, frames, padding and the `.animation` / `withAnimation` timing. The framework does the interpolation, so on screen `transitionProgress` moves continuously. The model keeps only the stored target values.
- CloudsView, both SunView copies, both `Star.path(in:)` copies, `FigmaOffsetModifier`, `ViewSizePreferenceKey`, `PreviewWrapper` and the preview providers are left out. They are constant styling, floating-point path geometry (which returns an empty path when `corners < 2`), or host-window glue.
- The cloud offset and cloud opacity expressions (ToggleView.swift:47-48) are left out. They are styling constants of the same shape as `GlyphOffsets`.
- `CGFloat.random` itself is left out. It is an oracle parameter, and while the toggle is off each trip through the `repeat` body draws one `Point` (two independent draws in the source).
- Floating point is left out: `CGFloat` and `Double` are exact reals, and `sqrt`/`pow` are replaced by comparing squared distances.
- Unicode is left out: `CharacterSet.alphanumerics` is restricted to ASCII letters and digits, and `hex.count` (grapheme clusters) is the number of `char`s. This differs even for ASCII: the pair CR LF is one Swift `Character`, so `#F\r\nA` has count 3 in Swift and takes the `#RGB` branch, while here its trimmed length is 4 and it takes the fallback.
- The `0x`/`0X` prefix and whitespace skipping of Foundation's `Scanner` are left out. After trimming no whitespace can lead, but a string such as `0x1234` scans here as `0`.
- 64-bit saturation of `scanHexInt64` on overflow is left out. The only branches that read the value have at most 8 digits, which cannot overflow.
- Toggle.ToggleView.GenerateStarPositions: `count` is a `nat`. A negative `count`, which makes `0..<count` trap in Swift, is not modelled; the view always passes 4.
- Toggle.ToggleView.GenerateStarPositions: the method requires the view invariant (empty `starPositions`). That invariant is exactly why each `repeat` loop ends after one trip. The unbounded retry of a loop whose check could fail is not modelled.
- Toggle.ToggleView.GenerateSpacedStarPositions: reads a finite list of candidates instead of an endless random stream, so it may return fewer than `count` stars. The unbounded retry of the documented algorithm is not modelled.
- Toggle.ToggleView.Tap: the handler is modelled only by the log of values it receives. Its effect on the host, such as switching the window's interface style, is not modelled.

## Findings

| source | as written | input that shows it | evidently intended | confidence | as-written member | corrected member |
|---|---|---|---|---|---|---|
| DayAndNightToggle/Sources/DayAndNightToggle/Extensions/Color+Extension.swift:59-62 | the fallback sets the bytes to (1,1,1,1), so after division by 255 every channel and the opacity are 1/255 | `Color(hex: "12345")` (also `""` and `"ZZ"`) | opaque white, as the doc comment at line 23 says: bytes (255,255,255,255) | high; not executed | HexColor.FallbackIsNotWhite | HexColor.ColorFromHexWhiteDefault |
| DayAndNightToggle/Sources/DayAndNightToggle/ToggleView.swift:96 | `isValidPosition` tests against the stored `starPositions`, which starts empty and is never appended to. Accepted points go into the local `positions` instead (lines 116, 132), so every candidate is accepted | a random source that returns (-12, 0) twice gives two coincident stars | each candidate is tested against the stars already accepted in this call, so stars are at least `minDistance` apart. That spacing cannot be met: at most 2 points of the box x in [-17, -7], y in [-15, 15] are pairwise 20 apart, so fixing the check alone would make the view retry forever on the third star at night (and on the second sentinel by day) | high; not executed | Toggle.AsWrittenStarsNeverSpaced | Toggle.ToggleView.GenerateSpacedStarPositions |
| DayAndNightToggle/Sources/DayAndNightToggle/Extensions/Color+Extension.swift:29-44 | whether the scan of line 31 found any digits is ignored, and the branch is chosen by length alone, so a string of a supported length that is not hex still gets a colour: the value of its leading digits, or 0 | `Color(hex: "ZZZ")` gives opaque black; `Color(hex: "#F-A")` gives opaque blue | an invalid string gives white, as the doc comment at line 23 and the comment at line 60 say | medium; not executed | HexColor.NonHexScansAsZero | HexColor.ColorFromHexWhiteDefault |

`CreateStars` and `GradientColors` follow the shipped code: they use
`GenerateStarPositions` and `ColorFromHex`. For the gradient this choice makes no
difference, as `NightGradientUnaffectedByFallback` proves. A fixed generator
must not check the hidden sentinel stars against each other: they all sit at
(-100, -100), so a naive fix would retry forever while the toggle is on.
`GenerateSpacedStarPositions` skips the check in that case. It would also
retry forever while the toggle is off: `AtMostTwoSpaced` proves that the box
has room for only two stars that are 20 apart, so the intended four cannot be
placed. `GenerateSpacedStarPositions` reads a finite list of candidates, so it
ends, and it returns at most two stars from the box.
