# Extraction core of the captcha resolver

This project models the string and record logic of `playwright_extract.py`, the
module that harvests anti-bot challenge artifacts from a page that a headless
browser has loaded. The browser itself is not modelled: each read it performs
(hidden inputs, the `#down-id` text, the `.cf-turnstile` site key, the page
markup, the cookies, and the stream of request/response events) is a field of
the input value `Extract.Page`. The three reads that the source wraps in
`try/except` (the hidden-input query, `#down-id` and `.cf-turnstile`) are each a
`Read<T>`, either `Ok(value)` or `Failed`.

What is modelled, module by module:

- `Scanner`: the fallback token scanner. It stands for `RE_SECRET`,
  `RE_SESSION` and `extract_from_html`. `IsMatch` states declaratively when the
  pattern `key \s* [:=] \s* ['"] ([A-Za-z0-9_\-]{6,300}) ['"]` matches at an
  index, under any resolution of its quantifiers. `MatchAt` is a hand-rolled
  greedy scanner, and `FindFrom` is the leftmost search (`finditer` stopped
  after its first match). Lemmas prove that the scanner and the pattern agree,
  that the search finds the leftmost match, and that every returned value is a
  6 to 300 character token.
- `Strings`: the parts of Python's `str` that the URL handling uses: `in`
  (`playwright_extract.py:38`, `:104`, `:106`) and `split`
  (`playwright_extract.py:104`, `:107`), both built on one leftmost search,
  `IndexOf`. `Split` cuts left to right without overlap, `Join` is its
  inverse, and `SplitUnique` shows that this left-to-right split is the only
  one of its kind.
- `Capture`: the `captured` dict, written as class `Capture`. Its
  `OnRequest`/`OnResponse` methods are the two observers. They are specified
  against the pure `Observe`/`Replay`, which fold the event sequence, and
  lemmas state what `Replay` promises.
- `HiddenInputs`: the `hidden_inputs` dict, written as class `HiddenInputs`.
  `AddPairs` is the loop over the hidden-input pairs and `MergeFallback` is the
  heuristic merge. They are specified against `Fold` and `Merge`.
- `Extract`: `get_id` resolution, the site-key pass-through, the `status`
  field, result assembly, and `Run`. `Run` drives the two classes over a page
  and is proved equal to the pure `Extraction`.

Two behaviours of the code are worth stating outright:

- Each matching request or response assigns its slot unconditionally
  (`playwright_extract.py:44`, `:63`), so the slot holds the last matching
  event, not the first.
- The merge tests the DOM value for truthiness (`not hidden_inputs.get(...)`,
  `playwright_extract.py:95`, `:97`), so the scanner's token replaces a DOM
  value that is missing, `None` or the empty string, not only an absent key.

## Model

| member | source | states |
|---|---|---|
| Scanner.MatchAtSound | playwright_extract.py:14-15 | a token the scanner finds at an index is a match of the pattern there, with that token as its group |
| Scanner.MatchAtComplete | playwright_extract.py:14-15 | any match of the pattern at an index, under any resolution of its quantifiers, is the one the greedy scanner finds, so backtracking cannot change the group |
| Scanner.MatchAtCorrect | playwright_extract.py:14-15 | the scanner finds `tok` at `i` if and only if the pattern matches at `i` with group `tok` |
| Scanner.SkipWhile | playwright_extract.py:14-15 | the scan over `\s*` and over the token class stops at the end of the maximal run of that class |
| Scanner.FindFromLeftmost | playwright_extract.py:17-25 | the search returns a real match at or after its start, and no match exists before the one it returns; it returns none only when no match exists at all |
| Scanner.FirstTokenLeftmost | playwright_extract.py:19-21 | the first token is None exactly when the pattern never matches; otherwise it is the group of a match with no match to its left |
| Scanner.ExtractFromHtmlLeftmost | playwright_extract.py:17-25 | each field of `extract_from_html` is the leftmost match's group of its own pattern, or None when that pattern never matches; the two scans are independent |
| Scanner.ExtractFromHtmlTokens | playwright_extract.py:14-15 | every value `extract_from_html` returns is None or 6 to 300 characters of ASCII letters, digits, `_` and `-` |
| Scanner.SecretKeyExample | playwright_extract.py:14 | markup `secret_key: "xyz789"` yields the secret key `xyz789` |
| Scanner.NoWordBoundaryExample | playwright_extract.py:14 | `my_secret_key='abcdef"` matches: there is no word boundary, and the closing quote need not equal the opening one |
| Strings.IndexOf | playwright_extract.py:104 | the leftmost search behind `in` and `split` returns an occurrence at or after its start with none before it, and None only when there is no occurrence |
| Strings.Contains | playwright_extract.py:38 | `pat in s` holds exactly when `pat` occurs at some index of `s` |
| Strings.Split | playwright_extract.py:104 | `split` always yields at least one piece |
| Strings.JoinSplit | playwright_extract.py:104 | joining the pieces of a split with the separator gives back the original string |
| Strings.SplitPiecesFree | playwright_extract.py:104 | no piece of a left-to-right, non-overlapping split contains the separator |
| Strings.SplitSingle | playwright_extract.py:104 | a split has exactly one piece exactly when the separator does not occur |
| Strings.LastPieceSuffix | playwright_extract.py:104 | when the separator occurs, the string ends with the separator followed by the last piece |
| Strings.SplitLeftmost | playwright_extract.py:104 | `split` is a leftmost split: its pieces join back to the string, no occurrence of the separator starts inside a piece before the separator that follows it, and the last piece holds none |
| Strings.SplitUnique | playwright_extract.py:104 | any leftmost split of a string is `Split`'s result, so `split` is determined as the left-to-right, non-overlapping cut |
| Capture.Observe | playwright_extract.py:36-66 | an event whose URL lacks `/cfnl` leaves the record unchanged; a matching request fills the request slot, raises the flag and leaves the response slot alone; a matching response does the mirror image |
| Capture.ReplayConsistent | playwright_extract.py:44-64 | after any sequence of events, `xhr_found` holds exactly when one of the two slots is filled |
| Capture.ReplayRequestLast | playwright_extract.py:36-50 | the request slot is empty exactly when no request matched, and otherwise holds the record of the last matching request |
| Capture.ReplayResponseLast | playwright_extract.py:55-64 | the response slot is empty exactly when no response matched, and otherwise holds the record of the last matching response |
| Capture.ReplayXhrFound | playwright_extract.py:33-66 | `xhr_found` holds exactly when some event carried `/cfnl` |
| Capture.ReadFailuresRecorded | playwright_extract.py:39-62 | a request whose body cannot be read is recorded with no body; a response whose text cannot be read is recorded with `<no text>` |
| Capture.Capture.constructor | playwright_extract.py:33 | the record starts with the flag down and both slots empty |
| Capture.Capture.OnRequest | playwright_extract.py:36-52 | `on_request` updates the record as `Observe` does for a request event, keeps the flag/slot invariant and never touches the response slot |
| Capture.Capture.OnResponse | playwright_extract.py:55-66 | `on_response` updates the record as `Observe` does for a response event, keeps the invariant and never touches the request slot |
| HiddenInputs.FoldUnnamed | playwright_extract.py:88-90 | a key that no pair names with a truthy name is neither added nor changed by the loop |
| HiddenInputs.FoldLastWins | playwright_extract.py:88-90 | a key named by several pairs holds the value of the last of them |
| HiddenInputs.FoldKeys | playwright_extract.py:88-90 | the keys after the loop are the keys before it plus the truthy names of the pairs, and no others |
| HiddenInputs.MergeSpec | playwright_extract.py:94-98 | a truthy DOM value is never replaced; a missing or falsy one is replaced by the scanner's truthy token; keys the scanner has nothing for, and all other keys, are unchanged |
| HiddenInputs.HiddenInputs.constructor | playwright_extract.py:82 | the dict starts empty |
| HiddenInputs.HiddenInputs.AddPairs | playwright_extract.py:88-90 | the loop leaves the dict equal to the fold of the pairs over its old contents |
| HiddenInputs.HiddenInputs.MergeFallback | playwright_extract.py:94-98 | the merge leaves the dict equal to `Merge` of its old contents and the scanner's result |
| Extract.Run | playwright_extract.py:33-129 | running the observers over the events, then the hidden-input loop, the merge and `get_id` gives exactly `Extraction(page)`, and its status is `xhr_seen` exactly when a slot is filled |
| Extract.GetIdResolution | playwright_extract.py:100-107 | a truthy `#down-id` text wins; otherwise, when the URL contains `/file/`, the id is the last piece of the unique left-to-right, non-overlapping split of the URL at `/file/` (so the URL ends with `/file/` and the id, and the id holds no `/file/`); otherwise the id is None; a query that raised takes the same fallback |
| Extract.GetIdExample | playwright_extract.py:104-107 | `https://example.com/file/42` gives `42` both when the query raised and when it returned null |
| Extract.GetIdOverlapExample | playwright_extract.py:104-107 | `https://x.com/file/file/abc` gives `file/abc`: the split cuts at the first `/file/`, and the overlapping second one is not a separator |
| Extract.ExtractionStatus | playwright_extract.py:119 | `status` is `xhr_seen` exactly when a slot is filled, which is exactly when some event carried `/cfnl`; with no such event it is `no_xhr` and both slots are None |
| Extract.ExtractionPrecedence | playwright_extract.py:94-98 | in the result, a truthy DOM `secret_key`/`SessionID` wins, and a missing or falsy one gives way to the scanner's token when the scanner found one |
| Extract.ScenarioDomValue | playwright_extract.py:88-98 | a hidden input `secret_key = "abc123"` is reported as the secret key, whatever the markup holds |
| Extract.ScenarioFallback | playwright_extract.py:94-98 | with no hidden inputs, markup `secret_key: "xyz789"` gives the secret key `xyz789` |
| Extract.ScenarioUrlId | playwright_extract.py:100-107 | at `https://example.com/file/42` with no `#down-id` element, the id is `42` |

## Left out

- Browser lifecycle is not modelled: launching Chromium, the context and the page, `goto` with its timeout, and `browser.close`. These are foreign library calls. Their outcome is the input `Page`.
- `asyncio.sleep` and the registration of observers with `page.on` are not modelled. The real interleaving of observer callbacks is concurrency. Events are an ordered sequence instead.
- DOM and cookie reads are not modelled as calls. The page markup, the cookies, the hidden-input query, `#down-id` and `.cf-turnstile` are inputs. Only the three guarded reads (hidden inputs, `#down-id`, `.cf-turnstile`) can be `Failed`.
- The unguarded awaits are assumed to succeed: `goto` failing with anything but a timeout (`playwright_extract.py:72`), `page.content()` and `context.cookies()` (`playwright_extract.py:78-79`). Any of these raising aborts `run` before `browser.close()` (`playwright_extract.py:116`). The exception then propagates to the caller in `main.py`, which is not part of this model.
- `HiddenInputs.Fields` is a map, so the insertion order of Python's dict is not modelled. That order is the DOM order of the first occurrence of each name, with fallback keys appended last. It shows only in the order of `all_hidden_inputs` when serialised.
- The JavaScript inside the DOM queries is not modelled: `name || getAttribute('name')` and `textContent.trim()`. The pairs and the `#down-id` text arrive already resolved and trimmed.
- The site key is a pure pass-through, and `Extract.SiteKey` only unwraps the read.
- Cookies keep only name, value, domain and path. The remaining attributes are passed through by the source and carry no logic.
- The outer `try/except Exception` of each observer guards only property reads on the browser's request and response objects. Those reads are plain fields here, so they cannot raise.
- `Capture.Capture.OnRequest`: the header dict is stored as given. The copy made by `dict(req.headers)` is not modelled.
- `\s` is the exact list of code points for which Python's `str.isspace()` holds. The proofs use only that it excludes the token characters, `:`, `=` and the quotes.
- `main.py` is not part of this model. It holds HTTP routing, the mapping of exceptions to status 500, the float division `wait_seconds / 1000`, and `/health`.
- The unused `SAVE_DIR`, the `json` and `Path` imports, and the `WAIT_SECONDS`/`HEADFUL` defaults are not modelled. The defaults only parameterise the browser.
