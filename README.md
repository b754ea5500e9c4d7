# LucieStudio landing page: a Dafny model of its logic

The site is a single-page React application for a photography studio. Almost
all of it is markup; this project models the parts that compute something:

- **Colour parsing** (`hexToRgb` in App.tsx): a colour written as an optional
  `#` and exactly six hexadecimal digits, in either case, becomes the text
  `"r, g, b"` with decimal components; anything else gives `"0, 0, 0"`. This
  is the six-digit form of the hexadecimal notation in section 5.2 of CSS
  Color Module Level 4; the three-, four- and eight-digit forms are refused.
  Module `Colors`, with the decimal and hexadecimal helpers in `Text`.
- **The page component's state** (App.tsx): the shown view and the
  animation class of a view switch, whose second half runs when a timer
  fires; the image lightbox with wrap-around navigation; the theme and the
  selected package; the style values a theme produces; and the dispatch from
  the shown view to its panel. Module `App`: pure functions give each
  handler's meaning, and the class `App.AppComponent` keeps the state in
  fields that its handler methods update, each proved to agree with its
  function.
- **The image-proxy address** (`optimizeImageUrl` in utils.ts): an empty URL
  gives the empty string; otherwise one leading lower-case `http://` or
  `https://` is removed, the rest is percent-encoded as `encodeURIComponent`
  does (section 2.1 of RFC 3986, UTF-8 for characters outside ASCII), and
  the proxy address is built with width, quality (80 by default), WebP
  output and interlacing. Module `Utils`, with the percent-encoding and its
  decoder in `UrlEncoding`.
- **The vocabularies** (types.ts): the five views, the four themes and the
  theme table. Module `Types`.

Each operation is checked against a partner: the colour parser against a
reader of its output and a re-encoding to hexadecimal, the URL builder
against a parser of proxy addresses and `decodeURIComponent`, forward
navigation against backward navigation and a plain counting definition,
and a view switch against the state after all timers have fired.

The view-switch timer is modelled without time. Every switch schedules a
timer with the same 250 ms delay, so timers fire in the order they were
scheduled. The component keeps the targets of timers not yet fired as a
queue (`pendingTimers`), and `CompleteSwitch` is the firing of the oldest.
Overlapping switches therefore end on the view scheduled last
(`App.SettleShowsLastScheduled`). A request is compared with the view still
shown, not with the one about to be shown, so switching away and straight
back within the delay drops the second request
(`App.SwitchBackWithinDelayIsDropped`).

JavaScript's `%` truncates toward zero, and the lightbox stores whatever
index it is opened with. `App.JsRem` models that remainder, and the
navigation lemmas say what happens both within range and outside it.

On an empty image list the code divides by zero (App.tsx:81, 88) and stores
`NaN`. The two navigation handlers therefore require a non-empty list.

## Model

| member | source | states |
|---|---|---|
| `Colors.MatchIffHexColor` | App.tsx:20 | the pattern matches exactly an optional `#` followed by six hexadecimal digits in either case |
| `Colors.FallbackOutsideLanguage` | App.tsx:20-23 | every input outside that language gives `"0, 0, 0"` |
| `Colors.OtherLengthsFallBack` | App.tsx:20-23 | inputs of length 3, 4, 5, 8 or 9 (the short and long colour forms, with or without `#`) give the fallback |
| `Colors.ParseHexPair` | App.tsx:24-26 | a component read from two hexadecimal digits is below 256 |
| `Colors.HexToRgbRoundTrip` | App.tsx:24-27 | for an accepted colour the output reads back as `"r, g, b"` with three components below 256, and writing them as two lower-case hexadecimal digits each gives the input's digits lower-cased, without `#` |
| `Colors.CaseInsensitive` | App.tsx:20 | lower-casing the input never changes the output |
| `Colors.DefaultAccentExample` | App.tsx:19-27 | `#B8860B` converts to `"184, 134, 11"` |
| `Text.NatToString` | App.tsx:27 | a number in a template literal is written with at least one digit, only digits, and no leading zero unless it is zero |
| `Text.NatToStringRoundTrip` | App.tsx:27 | reading the decimal text back gives the number, so the components are written unambiguously |
| `Text.ParseNatOnlyCanonical` | App.tsx:27 | the reader accepts for a number only the text a template literal writes for it, with no leading zero, so the round trips through it fix the exact digits |
| `Colors.FormatRgbParses` | App.tsx:27 | the text `"r, g, b"` reads back as exactly the three components written |
| `Colors.HexToRgb` | App.tsx:19-28 | the conversion itself; its meaning is given by `Colors.MatchIffHexColor`, `Colors.FallbackOutsideLanguage` and `Colors.HexToRgbRoundTrip` |
| `Types.ExactlyFiveViews` | types.ts:2 | the view union has exactly five distinct members |
| `Types.ExactlyFourThemes` | types.ts:4 | the theme union has exactly four distinct members |
| `Types.ViewNameRoundTrip` | types.ts:2 | each view's string literal names that view and no other string does |
| `Types.ThemeNameRoundTrip` | types.ts:4 | each theme's string literal names that theme and no other string does |
| `Types.Themes` | types.ts:23-33 | the theme table; `App.ThemeColoursAreHex` states that every colour in it is a valid hexadecimal colour |
| `App.ThemeColoursAreHex` | types.ts:23-33 | every theme's accent and text colour is `#` plus six hexadecimal digits, so the colour parser never falls back for a theme |
| `App.ThemeStyle` | App.tsx:43-50 | the style values a theme sets; `App.DefaultThemeAccentRgb` and `App.ThemeColoursAreHex` give their meaning |
| `App.DefaultThemeAccentRgb` | App.tsx:43-50 | the style values of the default theme carry the accent components `"184, 134, 11"` |
| `App.DispatchBranch` | App.tsx:93-110 | the switch on the view's string literal; `App.DispatchCoversEveryView` gives its meaning |
| `App.RenderView` | App.tsx:92-111 | the panel shown for a view; `App.DispatchCoversEveryView` states that distinct views show distinct panels |
| `App.DispatchCoversEveryView` | App.tsx:92-111 | the default branch is taken exactly for strings that name no view, no view reaches it, and distinct views show distinct panels |
| `App.JsRem` | App.tsx:81 | JavaScript's remainder lies in `[0, n)` for a non-negative dividend and in `(-n, 0]` for a negative one |
| `App.JsRemDivides` | App.tsx:81 | the dividend is `n` times the quotient truncated toward zero, plus the remainder |
| `App.JsRemUnique` | App.tsx:81 | the truncated quotient and the remainder are the only pair with that sum and that range, so together these define the remainder's value |
| `App.NavigationFromAnyIndex` | App.tsx:78-90 | from any stored index, including negative and too large ones, next gives what is left of `i + 1` and previous what is left of `i - 1 + n` after whole rounds of `n` toward zero |
| `App.StepsWithinRange` | App.tsx:78-90 | within range, next is the following index with the last wrapping to 0, and previous is the preceding index with 0 wrapping to n - 1 |
| `App.NavigationKeepsRange` | App.tsx:79-89 | next and previous keep the open flag and the images, and keep an in-range index in range |
| `App.NavigationReentersRange` | App.tsx:81-88 | an out-of-range index comes back into range after one step forward from -1 on, or one step back from 1 - n on |
| `App.NextPrevInverse` | App.tsx:78-90 | next then previous, and previous then next, restore the lightbox |
| `App.NextTimesIndex` | App.tsx:81 | k forward steps, k at most n, count on from the index and wrap once past the end |
| `App.PrevTimesIndex` | App.tsx:88 | k backward steps, k at most n, count down from the index and wrap once past the start |
| `App.FullCycle` | App.tsx:78-90 | n steps forward, or n steps back, restore the lightbox |
| `App.CarouselExample` | App.tsx:68-90 | three images opened at index 2: next gives 0, then two steps back give 1 |
| `App.SwitchToShownViewIsNoOp` | App.tsx:53 | switching to the view already shown changes nothing |
| `App.SwitchToOtherView` | App.tsx:52-56 | switching to another view keeps the shown view, starts the exit animation and schedules that view last |
| `App.CompleteShowsTarget` | App.tsx:57-59 | a firing timer shows its view with the enter animation, after which switching to that view is a no-op |
| `App.SettleShowsLastScheduled` | App.tsx:52-66 | once all scheduled timers have fired, the view scheduled last is shown, entering, with nothing pending |
| `App.SwitchBackWithinDelayIsDropped` | App.tsx:52-66 | switching from the details to the gallery and straight back drops the second request, and the page ends on the gallery |
| `App.SwitchThenSettle` | App.tsx:52-66 | from a settled page, a switch to another view ends with that view shown, entering |
| `App.AppComponent.constructor` | App.tsx:32-41 | the page starts on `view-details`, `theme-default`, package `lucie4`, the enter animation, and a closed lightbox with no images at index 0 |
| `App.AppComponent.HandleSwitchView` | App.tsx:52-56 | the shown view, animation and timers change as a switch does, and nothing else changes |
| `App.AppComponent.CompleteSwitch` | App.tsx:57-65 | the oldest timer fires as a completion does, and nothing else changes |
| `App.AppComponent.HandleOpenModal` | App.tsx:68-71 | the lightbox is open with the images and index stored as given, and nothing else changes |
| `App.AppComponent.HandleCloseModal` | App.tsx:73-76 | the lightbox is closed with no images at index 0, and nothing else changes |
| `App.AppComponent.HandleNextImage` | App.tsx:78-83 | only the index changes, to the next one |
| `App.AppComponent.HandlePrevImage` | App.tsx:85-90 | only the index changes, to the previous one |
| `App.AppComponent.SetTheme` | App.tsx:33 | only the theme changes, and the style values the theme effect writes become those of the new theme |
| `App.AppComponent.SetSelectedPackageId` | App.tsx:34 | only the selected package changes |
| `Utils.OptimizeImageUrl` | utils.ts:3-16 | the address is empty exactly when the URL is |
| `Utils.EmptyUrl` | utils.ts:4 | an empty URL gives `""` whatever the width and quality |
| `Utils.QualityDefaultsTo80` | utils.ts:3 | leaving the quality out is the same as giving 80 |
| `Utils.StripScheme` | utils.ts:7 | the result is a suffix of the URL |
| `Utils.StripOneScheme` | utils.ts:7 | exactly one leading `http://` or `https://` is removed, whatever follows |
| `Utils.NoSchemeKept` | utils.ts:7 | a URL that does not start with lower-case `http://` or `https://` is kept intact |
| `Utils.UpperCaseSchemeKept` | utils.ts:7 | `HTTP://` and other schemes are not removed |
| `Utils.SchemeDoesNotMatter` | utils.ts:7 | a non-empty scheme-less URL gives the same address as its `http://` and `https://` forms |
| `Utils.ProxyUrlRoundTrip` | utils.ts:15 | the address of a non-empty URL parses back to the URL without its scheme, the width and the quality |
| `Utils.ExampleAddress` | utils.ts:3-16 | `http://example.com/a.jpg` at width 800 and quality 80 asks for `example.com%2Fa.jpg`, `w=800`, `q=80` |
| `UrlEncoding.Encode` | utils.ts:15 | `encodeURIComponent`; `UrlEncoding.DecodeEncode` and `UrlEncoding.EncodeAlphabet` give its meaning |
| `UrlEncoding.DecodeEncode` | utils.ts:15 | percent-decoding the encoded text gives the text back |
| `UrlEncoding.EncodeAlphabet` | utils.ts:15 | the encoded text holds only unreserved characters and `%`, so no `&`, `=`, `?`, `/`, `#` or space, and every `%` is followed by two upper-case hexadecimal digits |
| `UrlEncoding.EncodeUnreservedIdentity` | utils.ts:15 | text made of unreserved characters is its own encoding |
| `UrlEncoding.Utf8RoundTrip` | utils.ts:15 | the UTF-8 bytes of a character decode back to it, and the first byte announces the length |
| `UrlEncoding.EncodeAppend` | utils.ts:15 | encoding works character by character: it distributes over concatenation |

## Left out

- The writes to the document's style (`style.setProperty`, the body's text colour), the scroll lock on the body and `scrollIntoView` are browser effects. The model keeps the style values as a pure function of the theme, `App.ThemeStyle`.
- Time: the 250 ms delay is not modelled. Timers are a queue fired in scheduling order by an explicit step.
- `App.AppComponent.HandleNextImage` and `App.AppComponent.HandlePrevImage`: they require a non-empty image list. On an empty list the code computes a remainder by zero and stores `NaN`, which the model does not represent.
- Utils.OptimizeImageUrl: width and quality are naturals, and the address matches the source only for values below 2^53. Above that a JavaScript number no longer holds every integer exactly, and from 10^21 on it is written with an exponent (`1e+21`); negative widths and qualities, which the source would write with a minus sign, are excluded by the type.
- Non-integer numbers: indices, widths and qualities are integers, so `NaN`, fractions and JavaScript's number formatting of non-integers are not modelled.
- A JavaScript string can hold a lone surrogate, on which `encodeURIComponent` throws. Dafny strings hold only Unicode scalar values, so that error path is not modelled.
- Rendering and the imported components (`Header`, `Gallery`, `ImageModal`, `ParticleBackground` and the others), and the image list from `constants`, are presentation or files not part of this model. The dispatch on the view is kept as the choice of a panel.
- The `Package` interface in types.ts is catalogue data with no logic.
- The image proxy's own behaviour is outside the application.
- The theme table's display names and emblems are kept as data; nothing computes with them.
