# RetroBot typing-GIF generator: decision logic in Dafny

RetroBot is a chat bot that answers `!retro [theme] [text]` with an animated GIF
of a CRT terminal typing the text out. This project models the parts of
`index.js` that decide *what* is drawn, leaving aside *how* pixels are drawn and
encoded:

- **Word wrap** (`wrapText`): a greedy wrapper over an abstract text-measuring
  function, proved against a recursive specification, with its promises proved
  as lemmas: no empty lines, every line fits or is a single word, an over-wide
  word stands alone, and rejoining the lines gives the text back.
- **Frame timeline** (the three loops of `createRetroGif`): the ordered
  `(visible text, cursor shown, delay)` triples handed to the GIF encoder,
  built by a method with the source's three loops. Lemmas fix its length
  (`3 + N + 6`), each phase's content, its total duration and the worked
  examples.
- **Command parsing and theme fallback**: the handler's prefix test, `trim`,
  first-word theme selection and default text, as pure functions. The theme
  registry has three keys. `createRetroGif` falls back to black, while the
  handler defaults to green and never reaches that fallback.
- **Raster arithmetic**: the phosphor canvas size, the source-row mapping of
  the upscale (in range, monotone, covering every phosphor row), the text
  constants, the scanline rows, and the bezel outline traced by
  `roundedRectPath` onto a command-recording context.

Strings are sequences of Unicode code points. `text.split(' ')`, `join`, `trim`,
`split(/\s+/)[0]` and `toLowerCase` are modelled in module `Strings`.
`\s` and `trim` share the ECMAScript WhiteSpace and LineTerminator character set.

Some behaviours of the code are easy to miss. The model keeps them as written:

- `wrapText` splits on the single space character only, not on all white
  space. Doubled, leading or trailing spaces give empty words, runs of spaces
  do not collapse, and a newline stays inside its word (the default greeting
  `"Hello from RetroBot! \nMade by cyber"` has the word `"\nMade"`). A line can
  therefore end in a space when an empty word is appended to it.
- Theme keys are lower-cased only by the message handler. `createRetroGif`
  looks its key up exactly, so `"GREEN"` passed to it directly gives the black
  theme.
- The prefix test has no word boundary: `!retroblue hi` selects the blue theme
  with text `hi`.

## Model

| member | source | states |
|---|---|---|
| `Strings.Split` | index.js:208 | `split(' ')` yields at least one piece and no piece contains the separator |
| `Strings.JoinSplit` | index.js:208 | joining the pieces of `split(' ')` with spaces gives the string back |
| `Strings.SplitJoin` | index.js:208 | splitting a space-join of space-free pieces gives the pieces back |
| `Strings.TrimStart` | index.js:310 | the result is a suffix of the input, everything removed is white space, and it does not start with white space |
| `Strings.TrimEnd` | index.js:310 | the result is a prefix of the input, everything removed is white space, and it does not end with white space |
| `Strings.Trim` | index.js:310 | `trim` gives the slice of the input that starts after its leading white space and leaves no white space at either end; everything removed is white space |
| `Strings.TrimSurrounded` | index.js:310 | a trimmed string between two runs of white space trims to itself |
| `Strings.FirstWord` | index.js:311 | `split(/\s+/)[0]` is the longest white-space-free prefix: a prefix of the input, free of white space, followed by white space or the end |
| `Strings.ToLower` | index.js:306 | `toLowerCase` keeps the length, maps `A`-`Z` to `a`-`z` and the Kelvin sign to `k`, and leaves every other character as it is |
| `Strings.StartsWith` | index.js:306 | `startsWith(p)` holds exactly when the string is `p` followed by something |
| `Strings.LowerChar` | index.js:306 | lower-casing yields an ASCII lower-case letter only from an ASCII letter or the Kelvin sign, and maps `A`-`Z` to `a`-`z` |
| `TextLayout.WrapText` | index.js:207-224 | the loop returns exactly the lines of the greedy wrapping specification |
| `TextLayout.WrapNoEmptyLine` | index.js:215-222 | no returned line is empty; the empty text gives no lines |
| `TextLayout.WrapLinesFit` | index.js:213-220 | every line measures at most `maxWidth` or is a single word |
| `TextLayout.WrapWideWordAlone` | index.js:213-220 | when joining never shrinks a measurement, a word wider than `maxWidth` is a line of its own, unsplit |
| `TextLayout.SingleSpacedWords` | index.js:208 | text without leading, trailing or doubled spaces splits into non-empty words |
| `TextLayout.WrapJoin` | index.js:208-222 | for such text, joining the lines with single spaces gives the text back: nothing dropped, reordered or duplicated |
| `Themes.ResolveTheme` | index.js:234 | the theme used is always a registered preset, and it is black exactly when the key is `black` or unregistered |
| `Themes.RegistryKeysAreLowerWords` | index.js:34-38 | the three keys are non-empty lower-case ASCII words |
| `CommandParsing.RawArgs` | index.js:310 | the argument string has no white space at either end |
| `CommandParsing.ThemeWord` | index.js:311-312 | a theme word, when found, is a registered key as long as the first word |
| `CommandParsing.FinalText` | index.js:313-314 | the text handed on is never empty and has no white space at either end |
| `CommandParsing.ParseCommand` | index.js:305-314 | a request exists exactly when the lower-cased content starts with `!retro`; its theme key is always registered; its text is non-empty and trimmed |
| `CommandParsing.RetroPrefixAnyCase` | index.js:306 | a message is a command exactly when its first six characters lower-case to `!retro`, whatever follows them |
| `CommandParsing.ParseUnthemedCommand` | index.js:305-314 | `!retro <msg>`, prefix in any case, where the first word of `msg` names no theme in any case, asks for `msg` in the green theme, or the greeting when `msg` is empty |
| `CommandParsing.DefaultTextIsTrimmed` | index.js:314 | the default greeting is non-empty and has no white space at either end |
| `CommandParsing.ThemedArgs` | index.js:310-313 | in the arguments `<word> <msg>`, a word naming a theme in any case is taken as the theme, and what follows it trims to `msg` |
| `CommandParsing.RegisteredKeyResolves` | index.js:234 | a registered key resolves to its own preset, and the handler's default (green) differs from the fallback (black) |
| `CommandParsing.ParseThemedCommand` | index.js:305-314 | `!retro <word> <msg>`, prefix and word in any case, selects the lower-cased word's theme and asks for `msg`, or the greeting when `msg` is empty |
| `CommandParsing.HandlerNeverUsesBlackFallback` | index.js:312 | the handler's key always resolves to its own preset, and its default (green) differs from `createRetroGif`'s fallback (black) |
| `FrameTimeline.BuildTimeline` | index.js:246-268 | the three loops emit exactly the timeline: idle blinks, one typing frame per code point, trailing blinks |
| `FrameTimeline.TimelineShape` | index.js:246-268 | `3 + N + 6` frames; idle frames show nothing, cursor on/off/on, 380 ms; typing frame `i` shows the first `i + 1` code points with the cursor, 60 ms; trailing frames show the whole text, cursor alternating from on, 380 ms |
| `FrameTimeline.TypingRevealsOneCodePoint` | index.js:254-261 | each typing frame adds exactly the next code point |
| `FrameTimeline.TypingEndsWithWholeText` | index.js:254-261 | for a non-empty text the first typing frame shows the first code point and the last one shows the whole text |
| `FrameTimeline.TimelineDuration` | index.js:246-268 | one loop of the animation lasts `9 * 380 + 60 * N` ms before the encoder's rounding |
| `FrameTimeline.TimelineOfHi` | index.js:246-268 | `"Hi"` gives 11 frames, the fourth showing `"H"` and the fifth `"Hi"`, both with the cursor |
| `FrameTimeline.TimelineOfEmptyText` | index.js:254-261 | the empty text gives nine 380 ms frames over an empty screen |
| `FrameText.EmptyTextScreens` | index.js:162 | for the empty text every frame lays out either nothing or the cursor alone |
| `FrameText.TypingFrameScreen` | index.js:162 | a typing frame lays out its prefix followed by `_`, and its lines rejoin to that when it is single-spaced |
| `Screen.RoundDiv` | index.js:161 | `Math.round(n / d)` is the integer `r` with `r - 1/2 <= n / d < r + 1/2`: the nearest integer, halves rounded up |
| `Screen.Dimensions` | index.js:147-161 | the phosphor canvas is 166 by 66, a third of 500 by 200 rounded down; the wrap width is 156, the font 11 px and the line height 15 px |
| `Screen.SourceRow` | index.js:175 | the source row of any output row is a row of the phosphor canvas |
| `Screen.SourceRowUnclamped` | index.js:175 | inside the canvas the clamp never applies: output row `y` takes `floor(y * 66 / 200)` |
| `Screen.SourceRowMonotone` | index.js:174-175 | lower output rows never take later phosphor rows |
| `Screen.SourceRowCoversPhosphor` | index.js:174-179 | consecutive output rows take the same or the next phosphor row, from the first to the last |
| `Screen.SourceRowOnto` | index.js:174-179 | every phosphor row is copied to some output row |
| `Screen.ScanlineRows` | index.js:83-85 | the loop paints rows `0, 4, 8, ...` below the height, each multiple of 4 once |
| `Screen.CanvasScanlines` | index.js:83-85 | on the 200-row canvas that is 50 scanlines, from row 0 to row 196 |
| `RoundedRect.RoundedRectPath` | index.js:192-202 | the context's command list is the old one followed by exactly the nine commands of the outline, in the code's order and with its points |
| `RoundedRect.RoundedOutlineShape` | index.js:192-202 | those commands start with a move to `(x + r, y)`, alternate straight edges (horizontal or vertical) with curves around the four corners clockwise, end at the start point, and stay inside the box when the radius fits |
| `RoundedRect.BezelPath` | index.js:127-143 | the bezel appends the outline of `(8, 8, 484, 184, 14)`, which is a rounded outline of that box and stays inside the 500 by 200 canvas |

## Left out

- Canvas drawing: fills, gradients, shadows, clipping, `drawImage` and `fillText` are library calls. The model keeps only what they are given: the wrapped lines, the source rows and the path commands.
- `measureText` is a foreign call. It is the function parameter `measure: string -> real`, which the wrap lemmas quantify over. `TextLayout.WrapWideWordAlone` also assumes that joining a line and a word never measures less than either part (`GrowsWhenJoined`), which canvas text measurement satisfies but the code does not check.
- Floating-point effects: the sine curvature offset of each upscaled row (index.js:177-179), gradient stops, alpha values and the fractional text origins `20/3` and `16/3` (index.js:164-165).
- `Screen.SourceRow`: the code computes `Math.floor((y / 200) * 66)` in floating point. The model uses exact integer division. The two agree for `0 <= y < 200` because the exact quotient is a multiple of 1/100, far from any rounding error.
- The random noise specks (index.js:105-115) use `Math.random`, which is not modelled.
- GIF encoding (`gif-encoder-2`: `start`, `setRepeat`, `setQuality`, `setDelay`, `addFrame`, `finish`) is library code. The delay rounding to hundredths of a second, the loop flag and colour quantization happen there. The model stops at the frame triples and their millisecond delays.
- The temp file, its random name, the write stream, awaiting `finish`/`error` and `fs.unlink` are I/O.
- The Discord client, its event wiring, the bot-author check, the mention list, sending the attachment, the error reply, login, the environment token and `process.exit` are network and process plumbing. Only the argument extraction of the message handler is modelled.
- The `message.__retroHandled` flag is left out. It stamps a borrowed event object and only matters for re-entrant delivery.
- Font registration and its fallback (index.js:13-17) are left out.
- JavaScript property lookup also finds inherited keys: `THEMES['constructor']` and `THEMES['__proto__']` are truthy. So `!retro constructor hi` would pass `constructor` as the theme key, and `createRetroGif` would draw with a theme object that has no colours. The registry here is a map with exactly its three own keys, so this quirk is not reproduced.
- `Strings.LowerChar`: `toLowerCase` is modelled only for `A`-`Z` and the Kelvin sign, the only characters whose lower case is a single ASCII letter. Other mappings cannot change whether the content starts with `!retro` or whether a word names a theme, and the text passed on is never lower-cased.
- `Strings.ToLower`: applies `Strings.LowerChar` to each character, so it has the same partial case mapping and the same reason.
- JavaScript strings are UTF-16. Here a string is a sequence of code points. Every slice the code takes follows an ASCII word (`!retro` or a theme key), so its length is the same in both counts. Unpaired surrogates have no counterpart.
- The theme's `label` field is named `displayLabel` because `label` is a Dafny keyword. `drawCrtOverlay`'s `theme.glow || theme.text` always picks `glow`, since every preset's glow colour is non-empty.
