# Wind alert: a Dafny model of the Model 2 check

`wind_alert.py` opens a wind forecast page and reads the embedded JavaScript
array `model2 = [...]`. It does this once before and once after stepping the
page to the next day. It then alerts by mail when the fresh next-day series
peaks strictly above 10 knots. This project models the part of that script
that works on text and numbers:

- **Extraction.** `get_model2_values` turns a page source into a series of
  numbers. The model follows its two regular expressions. The leftmost
  `model2\s*=\s*\[([^\]]+)\]` match is found case-insensitively (modules
  `Capture`, `Chars`). Then every `-?\d+(?:\.\d+)?` literal inside the brackets
  is collected (modules `Scanner`, `Literals`). Each number is read as an exact
  decimal (module `Extraction`).
- **Decision.** `main` compares the series read after advancing with the one
  read before. It takes the series maximum and compares it with `THRESHOLD`
  (module `Decision`).
- **Message.** `main` builds the alert text. `send_email` checks the two
  configuration values and builds the HTML content, one paragraph with `<br>`
  for each line break (modules `Notify`, `Flow`).

The browser, the clock, the environment and the mail service are not modelled
as behaviour. Their results enter the model as parameters:

- the two page sources;
- an `Env` holding the two environment variables;
- a function that renders the peak with two decimals.

Every extraction result is proved against an independent description:

- `Capture.IsMatch` declares what a match of the first pattern is, and the
  search is proved to find the leftmost one.
- The literal lexer is proved to take the longest literal.
- Extraction is proved to invert writing a page as `model2 = [a, b, ...]`.

Modules: `Chars` → `Literals` → `Scanner` → `Capture` → `Extraction` →
`Decision` → `Notify` → `Flow`. `Samples` holds worked inputs.

## Model

| member | source | states |
|---|---|---|
| Capture.MatchAtExact | wind_alert.py:49 | The anchored matcher succeeds at a position exactly when the declarative pattern matches there. It returns those bracket positions: `\s*` and `[^\]]+` are greedy, so a match at a position is unique. |
| Capture.MatchAt | wind_alert.py:49 | The pattern anchored at one position. Its partner Capture.MatchAtExact proves it returns a span exactly when the declarative match exists there, with those bracket positions. |
| Capture.Captured | wind_alert.py:49-51 | `m.group(1)`: nothing exactly when the page holds no match anywhere; otherwise a non-empty text without `]`. Capture.CapturedLeftmost states which text: the one between the brackets of the leftmost match. |
| Capture.CapturedLeftmost | wind_alert.py:49-51 | Wherever in the page the leftmost match starts, markup before it included, group 1 is exactly the text between its brackets. |
| Capture.Search | wind_alert.py:49 | `re.search` returns a real match at or after the start position. It is the leftmost one: every match starts no earlier than it. None is returned only when there is no match at all. |
| Capture.FirstMatchWins | wind_alert.py:49 | Once a page holds a match, appending more text never changes which match is found. |
| Capture.CapturedKeyedPage | wind_alert.py:49 | The key in any ASCII letter case, then any `\s` white space, `=`, white space and a non-empty `]`-free list in brackets, captures exactly that list, whatever follows. |
| Literals.LexPrefix | wind_alert.py:51 | What the lexer returns at the start of a text is a valid literal, and its text is a prefix of that text. |
| Literals.LexPrefixLongest | wind_alert.py:51 | At each position the lexer takes a literal of the pattern `-?\d+(?:\.\d+)?` when one starts there, and never one shorter than any literal that starts there. |
| Literals.LexPrefixOfText | wind_alert.py:51 | A literal followed by a character that cannot extend it is lexed back as exactly that literal. |
| Literals.TextInjective | wind_alert.py:51 | Two literals with the same text are the same literal, so a matched text has exactly one reading. |
| Scanner.FindAll | wind_alert.py:51 | `re.findall` of the number pattern: every literal found is valid. With its partner lemmas it is the left-to-right scan that takes the longest literal at each position (Literals.LexPrefixLongest) and inverts writing literals separated by `, ` (Scanner.FindAllJoin). |
| Scanner.FindAllTakesLiteral | wind_alert.py:51 | `re.findall` takes a complete literal and resumes right after it. |
| Scanner.FindAllSkipsGap | wind_alert.py:51 | A leading run of characters that are neither digits nor `-` is skipped: the literals found after it are exactly those found without it. |
| Scanner.FindAllEmptyIff | wind_alert.py:51 | `re.findall` finds nothing exactly when the captured text holds no digit. |
| Scanner.FindAllJoin | wind_alert.py:51 | Scanning literals written with `, ` between them gives back exactly those literals, in order. |
| Extraction.Values | wind_alert.py:52 | `float(x)` for each literal, in order: the series has one value per literal, and that value is the literal's exact decimal value. |
| Extraction.Model2Values | wind_alert.py:46-55 | The series is empty exactly when the page has no match, or its captured list holds no digit. The function never fails. |
| Extraction.Model2ValuesAtKey | wind_alert.py:49-52 | A page that starts with a key line and a non-empty list yields the values of that list's literals. |
| Extraction.Model2ValuesRoundTrip | wind_alert.py:46-55 | Round trip: writing any list of literals as `model2 = [a, b, ...]` and extracting gives back exactly their values. |
| Extraction.Model2ValuesIgnoresLaterText | wind_alert.py:49 | Text after the first match, such as a later `model2` array, does not change the series. |
| Extraction.EmptyListsYieldNothing | wind_alert.py:49 | `[^\]]+` needs one character: when every `[` in the page is immediately closed, the series is empty. |
| Extraction.EmptyBrackets | wind_alert.py:49-55 | `model2 = []` yields the empty series: the empty list is no match. |
| Samples.MixedList | wind_alert.py:51-52 | `1, -2.5, 3.0` yields the values 1, -2.5 and 3, in order. |
| Samples.TrailingDot | wind_alert.py:51 | `3.` yields only the integer 3: a dot needs a digit after it. |
| Samples.LeadingDot | wind_alert.py:51 | `.5` yields 5, because the pattern has no leading-dot form. |
| Samples.NoExponent | wind_alert.py:51 | `1e5` yields 1 and 5, because there is no exponent syntax. |
| Samples.MinusStartsLiteral | wind_alert.py:51 | `5-3` yields 5 and -3: a minus sign followed by a digit always starts a new literal. |
| Samples.MarkupBeforeKey | wind_alert.py:49-51 | `x;model2=[7]` captures `7`: markup before the key that holds no match of its own is skipped. |
| Decision.MaxFrom | wind_alert.py:124 | Python's left-to-right `max`: the result is the start value or a list element, and no element exceeds it. |
| Decision.SeriesMax | wind_alert.py:124 | `max(after_vals)` is an element of the series and bounds every element. |
| Decision.Decide | wind_alert.py:118-133 | No verdict when the fresh series is empty or equal to the previous one. Otherwise the peak is the series maximum. There is an alert exactly when some value is strictly above the threshold; a value equal to it does not alert. |
| Decision.HigherThresholdNeverAlerts | wind_alert.py:127 | Raising the threshold never turns a calm verdict into an alert. |
| Decision.FreshSeriesAboveThreshold | wind_alert.py:19 | With `THRESHOLD` at 10.0, a fresh series peaking at 12.5 alerts with peak 12.5. |
| Notify.BreakLines | wind_alert.py:85 | `replace(chr(10), '<br>')` leaves no line break. The result grows by three characters per line break. |
| Notify.BreakLinesKeepsPlainText | wind_alert.py:85 | Text with no line break is left unchanged. |
| Notify.BreakLinesAppend | wind_alert.py:85 | The replacement distributes over concatenation. |
| Notify.RestoreBreakLines | wind_alert.py:85 | For text without `<`, turning each `<br>` back into a line break restores the original. |
| Notify.HtmlBody | wind_alert.py:85 | The HTML content starts with `<p>` and ends with `</p>`. It holds no raw line break, and its length is the body's plus seven plus three per line break. |
| Notify.HtmlBodyRoundTrip | wind_alert.py:85 | Between the paragraph tags sits the rewritten body: for text without `<`, it restores the body exactly. |
| Notify.SendEmail | wind_alert.py:74-87 | A mail is attempted exactly when both `SENDGRID_API_KEY` and `ALERT_EMAIL` are set and non-empty. Such a mail uses that key, goes from the fixed sender to that recipient with the given subject, and carries the HTML form of the body. |
| Flow.Run | wind_alert.py:112-133 | The run returns early exactly when the fresh series is empty or unchanged. It alerts exactly when the fresh series has a value strictly above 10.0. The reported peak is the fresh series' maximum. An alert makes one mail step with the fixed subject and the alert text, addressed to the configured recipient. |
| Flow.UnchangedPageNeverAlerts | wind_alert.py:114-122 | When advancing leaves the page source as it was, for example after a failed click, the run stops without an alert. |
| Flow.AlertAttemptsMailIffConfigured | wind_alert.py:77-79 | An alert attempts a mail exactly when both configuration values are present and non-empty. |
| Flow.AlertBody | wind_alert.py:129-132 | The alert text: the threshold line, the rendered peak and the link. Flow.AlertMailCarriesBody proves the mailed HTML decodes back to exactly this text. |
| Flow.AlertBodyTagless | wind_alert.py:129-132 | The fixed parts of the alert text contain no `<`. |
| Flow.AlertMailCarriesBody | wind_alert.py:129-133 | The mailed HTML has no raw line break. When the rendered peak has no `<`, it decodes back to the exact alert text. |

## Left out

- Browser work is not modelled: starting Chrome, loading the page, waiting for the document and `click_next_day` (lines 36-44, 57-72, 96-111, 113-116). The two page sources it produces are parameters of `Flow.Run`. A failed click is represented by passing the same page twice.
- `save_artifacts` (lines 26-34), the debug directory and every `print` are not modelled: they only log and write files.
- The call to the SendGrid client (lines 89-93) is not modelled, because it is network I/O. `Notify.SendEmail` stops at the message it would send. Send failures are caught and only logged, so they do not change the flow.
- The `except Exception` around `page_source` (lines 47, 53-54) is not modelled. Reading a string parameter cannot fail, and a failure there only yields the empty series, which the model already covers.
- Extraction.Values: numbers are exact decimals, not IEEE doubles. Rounding by `float()` is not modelled, so two literals that differ only beyond double precision compare unequal here.
- Flow.Run: the two-decimal `:.2f` rendering of the peak is a parameter (`show`), not modelled. `{THRESHOLD}` is written out as its rendering `10.0`.
- Chars.IsDigit: `\d` in a Python `str` pattern also matches non-ASCII decimal digits (for example Arabic-Indic digits). The model accepts only `0`-`9`.
- Capture.KeyAt: IGNORECASE is modelled as ASCII case folding. This is exact for the letters of `model2`, because none of them has a non-ASCII case partner in Python's matcher.
- The script reads the series with one regular expression and sleeps a fixed 5 seconds after the click (line 116). There is no fallback strategy and no polling loop, and the model has none. `THRESHOLD = 10.0` (line 19); the mail variables are `SENDGRID_API_KEY` and `ALERT_EMAIL` (lines 75-76).
- What `main` does after line 135 (the rest of the `else:` branch and the handlers of the `try:` opened at line 104, where any release of the driver would sit) is not visible and not modelled.
