# Chat-history statistics, modelled in Dafny

The application turns an exported chat history (a JSON list of
conversations, each with a title, a creation time and a `mapping` of
message nodes) into usage statistics: the total number of messages, a
per-day tally of messages, and a table of conversations sorted newest
first, each with its title, raw creation time, message count and a
shortened copy of the newest assistant reply.

The model covers the core of `app.py`:

- `timestamps.dfy` — `parse_timestamp`: the chain of attempts (seconds,
  milliseconds, ISO-8601 with `Z` rewritten, four fixed patterns) where the
  first success wins. Python's calendar routines (`fromtimestamp`,
  `fromisoformat`, `strptime`, `float`, the division by 1000) are partial
  functions passed in as a `Calendar` value.
- `export.dfy` — the shape of the decoded JSON the core reads.
- `analyzer.dfy` — `count_messages` and `get_last_response`, as methods
  with the loops of the source, each proved against a specification
  function; the newest-reply scan is also characterised without the scan.
- `ordering.dfy` — Python's `<` on creation times and the stable
  newest-first `list.sort`, as an insertion sort with its order and
  stability proved.
- `aggregator.dfy` — `process_chat_history` up to the chart: the loop over
  the list as a method proved against the function `Aggregate`, the
  per-day dict as an insertion-ordered map, and the lemmas about totals,
  the tally, skipping and raising.
- `common.dfy` — `Option`, `Result` and the Python exceptions the core can
  raise.

Python exceptions are results: `Raise(ValueError(message))`,
`Raise(TypeError)` or `Raise(IndexError)`. Three crashes that the code does
not guard against are modelled as such raises rather than excluded: a
digit string with two or more dots (`"1.2.3"`: `float` fails and the
millisecond retry divides a string, TypeError); an assistant message whose
`parts` list is empty and whose time beats the newest reply so far
(`[0]` on an empty list, IndexError); and a summary table whose creation
times mix numbers and strings (the sort compares a number with a string,
TypeError).

A node is counted by `count_messages` when its `content.parts` list is
non-empty, even when every part is the empty string.

## Model

| member | source | states |
|---|---|---|
| Timestamps.ParseTimestamp | app.py:35-91 | `None` and lists/dicts give no result; a `datetime` comes back unchanged; it raises exactly for a digit string with two or more dots, and then TypeError; otherwise the result is the first success in the attempt chain (seconds, milliseconds, or ISO then the four patterns) and none when all fail |
| Timestamps.FromEpoch | app.py:47-66 | a number is read as seconds, and as milliseconds only when that fails; the result is the first success of the two |
| Timestamps.SecondsBeforeMillis | app.py:55-64 | when `fromtimestamp` accepts the number the result is the seconds reading, otherwise it is the milliseconds reading |
| Timestamps.FirstPattern | app.py:84-88 | the first pattern that `strptime` accepts wins and later ones are not tried; none when every pattern fails |
| Timestamps.PatternAttempts | app.py:77-88 | one `strptime` attempt per pattern, in the order of `Formats` |
| Timestamps.IsoBeforePatterns | app.py:68-88 | a non-digit string rejected by ISO-8601 parses with the first pattern that accepts it |
| Timestamps.UnparseableString | app.py:68-91 | a non-digit string gives no result exactly when ISO-8601 and all four patterns reject it |
| Timestamps.FirstSuccessUnique | app.py:68-91 | the winner of an attempt chain is determined by the chain, so each result above is the only one |
| Timestamps.ReplaceZ | app.py:72 | no `Z` remains, a string without `Z` is unchanged, and each `Z` grows the string by the five extra characters of `+00:00` |
| Timestamps.ReplaceZConcat | app.py:72 | the rewrite works piecewise: rewriting a concatenation is concatenating the rewrites |
| Timestamps.ReplaceZChar | app.py:72 | a single `Z` becomes `+00:00` and any other single character is kept; with ReplaceZConcat this fixes the rewrite of every string |
| Timestamps.DropDots | app.py:48 | the dot-free string is shorter than the input by exactly its number of dots, has no dot, holds only characters of the input, and keeps every character that is not a dot |
| Timestamps.LooksNumericChars | app.py:48 | the digit test passes exactly when some character is not a dot and every character that is not a dot is a digit |
| Analyzer.CountMessages | app.py:93-101 | the count is the number of nodes carrying a message with a non-empty parts list; 0 for a non-dict entry or one without a mapping |
| Analyzer.TallyBounds | app.py:93-101 | the count is at most the number of nodes, is 0 exactly when no node qualifies, and equals the number of nodes exactly when all do |
| Analyzer.TallyPermutation | app.py:97 | the count does not depend on the order in which the mapping is walked |
| Analyzer.LastResponse | app.py:103-129 | the loop returns exactly what the scan specification gives, including the IndexError on an empty parts list |
| Analyzer.ScanSelectsLatest | app.py:108-123 | the scan raises IndexError exactly when an assistant message with empty parts beats every earlier reply; otherwise its time bounds every candidate's time, and its reply is the newest candidate, the first on a tie, or none when no candidate has a positive time |
| Analyzer.LastReplySelectsLatest | app.py:103-129 | `get_last_response` raises IndexError exactly when an empty parts list is reached, returns nothing exactly when no assistant reply has a positive time, and otherwise returns the newest reply shortened |
| Analyzer.LatestReplyUnique | app.py:119-123 | at most one node holds the newest reply |
| Analyzer.Truncate | app.py:125-127 | the reply shown is at most 100 characters; it is unchanged exactly when it is at most 100 long, and otherwise it is its first 97 characters followed by "..." |
| Ordering.KeyOrder | app.py:175 | Python's `<` on creation times of one kind is irreflexive, transitive and total on distinct keys |
| Ordering.SortNewestFirst | app.py:175 | the sorted table is a permutation of the table |
| Ordering.SortIsOrdered | app.py:175 | after the sort no entry has an older creation time than an entry behind it |
| Ordering.SortIsStable | app.py:175 | for every creation time, the entries carrying it keep their original order (the sort is stable also when reversed) |
| Aggregator.AddTotal | app.py:158 | adding a count under a date keeps the dict well formed and raises the sum of its values by exactly that count |
| Aggregator.Visit | app.py:144-167 | an element contributes nothing exactly when it is not a dict, its creation time is falsy, or its creation time does not parse; a dict with a truthy creation time that parses, whose reply scan does not raise, contributes a row; that row carries the parsed date, the title (`Untitled` when missing), the raw creation time, the message count and the last reply |
| Aggregator.VisitRaises | app.py:150-165 | one conversation raises TypeError exactly when its creation time raises in parsing, and IndexError exactly when it parses and its scan reaches an empty parts list; nothing else raises |
| Aggregator.Summaries | app.py:161-167 | the table holds one summary per contributed row, in the order of the rows |
| Aggregator.ProcessChatHistory | app.py:131-175 | a non-list raises ValueError("Expected a list of conversations"); otherwise the loop returns exactly what `Aggregate` gives: the first exception raised by a conversation, ValueError when nothing contributed, TypeError for an unsortable table, otherwise the statistics |
| Aggregator.WalkRaises | app.py:142-167 | the loop raises exactly when some conversation raises, and then it raises what the first such conversation raises |
| Aggregator.ContributorIndices | app.py:142-167 | the positions of the contributing elements, in increasing order, and exactly those |
| Aggregator.WalkLength | app.py:142-167 | when the loop completes, no conversation raised and there is one row per contributing conversation |
| Aggregator.WalkOrder | app.py:142-167 | the `i`-th row is what the `i`-th contributing element contributes, so the rows follow the order of the list and each contributing element gives exactly one |
| Aggregator.HistogramTotal | app.py:222-224 | the per-day dict is well formed and the sum of its values equals the sum of the table's message counts |
| Aggregator.HistogramCounts | app.py:157-158 | a date is a key of the per-day dict exactly when some contributing conversation falls on it, and its value is the sum of their message counts |
| Aggregator.SumCountsPermutation | app.py:175 | reordering the table keeps the sum of its message counts |
| Aggregator.AggregateResult | app.py:169-227 | with no contributing conversation the result is the "No valid conversations" error; with mixed creation-time kinds it is TypeError; otherwise the total equals the sum of the per-day values and of the sorted table's counts, the per-day dict holds exactly the contributing dates with their summed counts, and the table is the appended summaries, newest first, as a stable permutation |

## Left out

- The web layer (app.py:1-33, 229-273): Flask routes, file upload, `json.load`, HTTP status mapping, and logging. The decoded JSON is the input `Input`.
- The chart (app.py:177-219): the pandas frame sorted by date, the plotly figure and its JSON. `usage_graph` is not a field of `Stats`. The chart step can raise where the model returns the statistics: `pd.to_datetime` rejects a date outside pandas' range (before 1677-09-21 or after 2262-04-11), such as a `create_time` of `"3000-01-01"`.
- The calendar itself: `fromtimestamp`, `fromisoformat`, `strptime`, `float` on a digit string and the division by 1000 are parameters (`Calendar`), with no claim about which inputs they accept; time zones and the local clock are inside `fromtimestamp`.
- `strftime('%Y-%m-%d')`: the per-day dict is keyed by the `Date` value; rendering it as text is injective and not modelled.
- Floating point: numbers are exact reals; NaN, infinities and rounding are not modelled.
- A `mapping` that is not a dict, and a `content` or `author` that is `null` or not a dict: the source raises AttributeError on them; the types cannot express them.
- A message `create_time` that is not a number: the source raises TypeError only on an assistant message whose value is truthy, when it compares it with the newest time (`"abc" > 0`); a falsy one (`""`, `[]`, `{}`) reads as 0 through `or 0`, and a user message's time is never compared. `Message.createTime` holds only numbers.
- A first part that is not a string: the source skips a falsy one (`None`, `0`, `{}`) and keeps a truthy one as the reply. It returns a dict or list of at most 100 elements unchanged. It raises for a truthy number, at `len` (TypeError); for a list of more than 100 elements, at `+ '...'` (TypeError); and for a dict of more than 100 keys, at `[:97]` (TypeError, or KeyError from Python 3.12). `Message.parts` holds only strings.
- A `parts` value that is `null` or not a list is not represented. In the source, a `null` `parts` on an assistant message whose time beats the newest reply so far raises TypeError (`None[0]`), and a non-empty string `parts` is counted as a message and its first character becomes the reply.
- A title that is not a string (a number, a list) is passed through unchanged by the source; `Summary.title` holds only strings or `None`.
- Digits outside ASCII: `str.isdigit` accepts other Unicode digits. A string that passes it is read as a number when `float` accepts it (Arabic-Indic digits, say); when `float` rejects it (a superscript such as `²`) the millisecond retry divides the string and raises TypeError. The model recognises only `0`-`9`, so it tries both kinds of string as ISO-8601 and against the patterns instead, where the source reads a number or raises.
- `datetime` creation times in the summary table: JSON decoding never produces one, so `JsonTime` excludes them.
- Ordering.SortNewestFirst: models the result of `list.sort`, not Python's merge algorithm; when keys mix numbers and strings the model raises TypeError where Python might raise after a partial in-place reorder, which the discarded table makes invisible.
- A bool creation time is treated as the number 0 or 1, as Python does.
