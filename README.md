# Flood-risk explanation page: validation and memoisation

The web page asks for a ZIP code and a flood depth. The `index` handler
answers each request in four steps:

1. It reads both form fields and strips surrounding whitespace from each.
2. It rejects the form with "Please enter both ZIP code and flood depth." when
   either stripped field is empty. It rejects it with "Flood depth must be a
   number." when the depth does not parse as a number.
3. It answers with an explanation text, keyed by the stripped ZIP code and the
   parsed depth. The text is looked up in a process-wide dictionary `cache`.
   On a miss, the handler asks the text generator once and stores the result.
4. It renders the page from the two locals `explanation` and `error`.

This project models that handler and the dictionary, and proves what they
promise.

The model has four modules.

- `Text` models Python's `str.strip()`. Whitespace is the set of code points
  for which `str.isspace()` holds.
- `Decimal` is a parser for the plain decimal spellings in ASCII digits
  that `float()` accepts, with an optional sign and at most one point. A spelling is read as
  the exact rational number it denotes.
- `FloodApp` holds:
  - the request, key, response and validation types;
  - `ReadForm`, the validation;
  - the pure one-request semantics `Serve`;
  - the history of generator calls (`ReplayOnto`, `OnlyOnMiss`);
  - the class `ExplanationCache`. Its `entries` map is the dictionary
    `cache`. Its method `Index` is the handler, written step by step as in
    the source. Its contract ties the new `entries` and the response to
    `Serve`. A ghost log `Calls` of every generator call is kept, with the
    invariant that `entries` is exactly what those calls produced and that
    each call was made on a miss.
- `FloodHistory` covers many requests served one after another by one process
  (`Run`). It holds the cross-request properties: entries are never
  overwritten, the generator is called only for keys not yet cached, once a
  call has produced the text for a key no later call is made for that key, and
  a repeated request gets the same explanation. A call that raised stores
  nothing, so a later request with the same key calls the generator again. It also holds requests that differ only in
  padding or in the spelling of the number.

Two stand-ins replace code the model does not include:

- The depth is any type with equality. `float()` is a parameter
  `parse: string -> Option<D>`; `Decimal.Parse` is one such parser.
- The text generator is an oracle. Each request carries a `Completion`: the
  message content the backend would return, or the exception the call would
  raise.

Two behaviours of the source are modelled as written:

- The `try` block (app.py:39-50) also encloses the generator call. A
  `ValueError` raised inside the generator is therefore reported as "Flood
  depth must be a number.", and nothing is stored. Any other exception
  escapes the handler and becomes a server error (`InternalError`), and
  nothing is stored.
- The generator's own `.strip()` (app.py:25) is modelled, so every cached text
  is stripped.

## Model

| member | source | states |
|---|---|---|
| Text.IsSpace | app.py:32-33 | The characters `.strip()` removes: the code points for which `str.isspace()` holds (tab to carriage return, U+001C to space, U+0085, U+00A0, U+1680, U+2000 to U+200A, U+2028, U+2029, U+202F, U+205F, U+3000). Defined, no contract of its own. |
| Text.Strip | app.py:32-33 | Neither end of the stripped string is whitespace. |
| Text.StripLeftRemovesSpace | app.py:32-33 | `lstrip` keeps a suffix of its input and everything it drops is whitespace. |
| Text.StripRightRemovesSpace | app.py:32-33 | `rstrip` keeps a prefix of its input and everything it drops is whitespace. |
| Text.StripEmptyIff | app.py:36 | A field strips to the empty string exactly when it is all whitespace (or empty), which is when it counts as not filled in. |
| Text.StripIsFramedSlice | app.py:32-33 | `strip` returns a slice of its input with only whitespace before and after it. |
| Text.StrippedIsFixed | app.py:32-33 | A string with no whitespace at either end is left unchanged. |
| Text.StripIdempotent | app.py:32-33 | Stripping twice is stripping once. |
| Text.StripLeftSkipsSpace | app.py:32-33 | Leading whitespace makes no difference to `lstrip`. |
| Text.StripRightSkipsSpace | app.py:32-33 | Trailing whitespace makes no difference to `rstrip`. |
| Text.StripLeftAppend | app.py:32-33 | `lstrip` of a concatenation: an all-whitespace first part vanishes, otherwise only the first part's leading whitespace goes. |
| Text.StripIgnoresPadding | app.py:32-33 | Inputs that differ only in surrounding whitespace strip to the same string. |
| FloodApp.ReadForm | app.py:31-41 | Not a POST exactly when the method is not "POST". The "both" message exactly when a stripped field is empty. The "number" message exactly when both are non-empty and the stripped depth does not parse. Otherwise the key is the stripped, non-empty ZIP code with the parsed depth. |
| Decimal.Parse | app.py:40 | A spelling that parses holds a digit, starts with a sign, a digit or a point, has only digits and points after its first character, and has at most one point; without a leading '-' its value is non-negative. |
| Decimal.UnsignedSpelling | app.py:40 | A spelling without a leading sign parses exactly as the unsigned parser reads it. |
| Decimal.ParseUnsigned | app.py:40 | An unsigned spelling that parses is non-negative and made of digits with at most one point and at least one digit. |
| Decimal.PointIndex | app.py:40 | The position found is the first '.', or the end of the string when there is none. |
| Decimal.PointIndexAfterDigits | app.py:40 | In digits followed by a point, the first point sits right after the digits. |
| Decimal.ParsePointedSpelling | app.py:40 | `whole.fraction` parses to the whole part plus the fraction scaled down by one power of ten per fraction digit. |
| Decimal.NegatedSpelling | app.py:40 | A leading '-' negates the value of an unsigned spelling; a spelling refused without the sign is refused with it. |
| Decimal.PlusSignedSpelling | app.py:40 | A leading '+' parses exactly as the spelling without it. |
| Decimal.TrailingZeroValue | app.py:40 | Appending a zero digit to a fraction leaves its value unchanged. |
| Decimal.TrailingZeroIgnored | app.py:40 | A trailing zero after the point does not change the parsed number ("2.50" and "2.5"). |
| Decimal.BarePointIgnored | app.py:40 | A point with nothing after it does not change the parsed number ("2." and "2"). |
| Decimal.PointZeroIgnored | app.py:40 | A whole number parses to the same value with or without ".0". |
| Decimal.TwoAndTwoPointZero | app.py:40-41 | "2" and "2.0" parse to the same depth, 2. |
| FloodApp.GenerateFloodRiskText | app.py:25 | The generator yields text exactly when the backend call completes, and that text has no surrounding whitespace. |
| FloodApp.Apply | app.py:47 | Storing a produced text adds its key and leaves every other entry unchanged; a call that produced nothing changes nothing. |
| FloodApp.Serve | app.py:29-50 | One run of `index` against a given cache and generator outcome, by cases on `ReadForm` and on whether the key is cached. It has no contract of its own; ServeCallsOnMiss, ServeKeepsEntries, ServeHit and ServeResponds state what it does, and `ExplanationCache.Index` is proved equal to it. |
| FloodApp.ServeCallsOnMiss | app.py:43-47 | The generator is called exactly for an accepted request whose key is missing, with that key. The cache changes only by what that call produced. |
| FloodApp.ServeKeepsEntries | app.py:43-47 | No request removes or overwrites an entry. |
| FloodApp.ServeHit | app.py:43-44 | An accepted request whose key is cached gets the cached text. The generator is not called and the cache is unchanged, whatever the generator would have done. |
| FloodApp.ServeResponds | app.py:29-52 | The response for each case. Not a POST gives no explanation and no error. A rejection gives its message. A fresh text is returned stripped. Any explanation given is the one cached under the key. A non-`ValueError` exception gives a server error. A `ValueError` raised by the generator gives the "number" message. Explanation and error never both appear. |
| FloodApp.ServeStoresStrippedText | app.py:46-47 | A request only ever stores stripped text. |
| FloodApp.ReplayAppend | app.py:47 | Replaying one more call applies it to the cache replayed so far. |
| FloodApp.ReplayConcat | app.py:47 | Replaying two histories in turn is replaying their concatenation. |
| FloodApp.ReplayKeepsKeys | app.py:47 | Replaying calls never removes a key. |
| FloodApp.OnlyOnMissTail | app.py:43-47 | A history made only on misses stays one after its first call, and that first call was for a key not in the cache. |
| FloodApp.OnlyOnMissAppend | app.py:43-47 | A call for a missing key extends a history made only on misses. |
| FloodApp.ReplayNeverOverwrites | app.py:43-47 | When the generator runs only on misses, every entry present at the start keeps its value. |
| FloodApp.ComputedAtMostOnce | app.py:43-47 | Once a call has produced the text for a key, no later call is made for that key. |
| FloodApp.ExplanationCache.constructor | app.py:10 | The cache starts empty, with no generator calls made. |
| FloodApp.ExplanationCache.Index | app.py:28-52 | The response and the new cache are those of `Serve` on the old cache. The call log grows by exactly the one call `Serve` makes, if any. The invariant holds: the cache is the replay of all calls, and every call was made on a miss. |
| FloodHistory.Run | app.py:28-52 | One response per request, and no more generator calls than requests. |
| FloodHistory.OnlyOnMissCons | app.py:43-47 | A call made on a miss, followed by a history made only on misses, is a history made only on misses. |
| FloodHistory.RunIsReplay | app.py:45-47 | Over any series of requests, the final cache is exactly what the generator calls produced, and every call was made on a miss. |
| FloodHistory.RunKeepsEntries | app.py:43-47 | An entry, once present, keeps its value through every later request. |
| FloodHistory.RunStoresStrippedText | app.py:46-47 | Every cached text has no surrounding whitespace, however many requests were served. |
| FloodHistory.RunAsksOnlyNewKeys | app.py:43-46 | Every generator call in a series is for a key the cache did not hold when the series started, whether the call produced text or raised. |
| FloodHistory.RunComputesOncePerKey | app.py:43-47 | Once a call has produced the text for a key, that key was not held at the start and no later call is for that key. |
| FloodHistory.RunHit | app.py:43-44 | A request whose key is cached is answered with the cached text, however many requests came before it. |
| FloodHistory.RunSplit | app.py:10 | The responses of a series are the responses of its first `n` requests followed by those of the rest served from the cache they left. |
| FloodHistory.RunStep | app.py:10 | A later response of a series is a response of the rest of the series, served from the cache the first request left. |
| FloodHistory.FirstAnswerRepeats | app.py:43-47 | When the first request of a series gets an explanation, every later request with the same key gets the same page. |
| FloodHistory.RunShift | app.py:10 | When the rest of a series, served from the cache the first request left, repeats an explanation from one position to a later one, the whole series repeats it one position further on. |
| FloodHistory.RepeatsFrom | app.py:43-47 | Within any series, once the request at one position is answered with an explanation, a later request with the same key gets the same page. |
| FloodHistory.RunRepeatsExplanation | app.py:43-47 | Once a request has been answered with an explanation, every later request with the same key gets the same page. |
| FloodHistory.EquivalentRequestsShareEntry | app.py:32-44 | Two POSTs with the same stripped ZIP code and stripped depths that parse to the same value share one entry. After the first gets an explanation, the second gets the same page with no generator call. |
| FloodHistory.PaddedRespelledRequestHits | app.py:32-44 | A ZIP code padded with whitespace and a whole-number depth written with ".0" hit the entry stored for the plain spelling ("10001" at "2", then " 10001 " at "2.0"). |
| FloodHistory.RepeatVisit | app.py:28-52 | On a fresh process, the first visit gets the stripped generated text. A repeat with a padded ZIP code and a ".0" depth gets the same page, whatever the generator would do. |

## Left out

- Flask wiring (app.py:1, 5, 27, 52-55): the route, the `request` object and `app.run` are not modelled. Rendering the page is modelled only as the pair of values passed to `render_template`. The form is a map from field name to its first value.
- The backend chat-completion call and its prompt (app.py:13-24): model, temperature, token limit and the prompt text are not modelled. They are a network call to a foreign service. A `Completion` oracle stands in for its outcome.
- The API-key lookup in the environment (app.py:7): configuration and I/O, not modelled.
- Decimal.Parse: accepts only plain decimal spellings in the ASCII digits. Digits of other Unicode decimal-digit (Nd) scripts ("٢", "２.５") are rejected here although `float()` accepts them. Exponents ("2e1"), digit-group underscores ("1_0"), "inf" and "nan" are rejected here although `float()` accepts them. The fields are stripped before parsing, so `float()`'s own whitespace handling never matters and is not modelled.
- Decimal.Parse: values are exact rationals, not binary64 floats. Rounding (two long spellings that round to the same float share an entry in the source but not here) and NaN keys (which never compare equal, so never hit the cache) are not modelled. "-0" and "0" are one value in both.
- Concurrent requests sharing the dictionary under a multi-threaded server are not modelled; requests are served one at a time.
