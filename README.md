# Swagger UI endpoint monitor, modelled in Dafny

The monitor polls a few pages that embed an OpenAPI ("Swagger") document. It extracts the
set of declared operations and posts a notification when operations are added or removed.
This project models the deterministic core of `monit.py` and proves properties of it:

- **Endpoint set builder** (`Endpoints`, `extract_endpoints`): walks the
  `paths -> method -> details` tree and turns each operation into the descriptor
  `METHOD PATH (in:name, ...)`. The document is a datatype that keeps the iteration order of the
  parsed JSON objects. `upper()` is a character map (`Text.Upper`). `', '.join` and `'\n'.join`
  are `Text.Join`. The method `ExtractEndpoints` keeps the source's three nested loops and is
  proved equal to the specification function `EndpointSet`.
- **Diff engine** (`Diff`, `get_diff`): two set differences. The report lines are a header,
  `+ `/`- ` lines in sorted order and an optional blank separator. Python's string order and
  `sorted()` are modelled in `Ordering` (`Below`, `SortedSeq`, and the method `Sort`). The method
  `GetDiff` appends line by line, as the source does, and is proved equal to `Report`.
- **Change monitor** (`Monitor`, the per-URL steps of `monitor`): a class whose two map fields are
  `last_endpoints` and `last_hashes`. It has the bootstrap step for one URL and the bootstrap loop,
  and the poll step for one URL and one polling pass. Each method is proved against a function on
  the `Records` value (`Baseline`, `BootstrapRecords`, `PollStep`, `CycleRecords`,
  `PollMessage`, `CycleMessages`).

The fetch result for each URL is an input: the document `get_swagger_spec` produced, or `None`.
The MD5 fingerprint is a function `set<string> -> Digest`, fixed when the monitor is
constructed. No lemma assumes it is injective. A notification is returned as the text that
would be posted.

A URL whose bootstrap fetch failed is never given a baseline later: `monit.py:131` only updates
a URL that already has a recorded hash, so such a URL is never recorded and never reported.
`UnrecordedStaysUnrecorded` states this.

`Poll` tests `changes.Some?` where the source tests the truthiness of `changes`. The two agree
because `GetDiff` never returns an empty report (its third `ensures`).

## Model

| member | source | states |
|---|---|---|
| `Text.Upper` | monit.py:82 | `method.upper()` as a character map: same length, each character upper-cased on its own |
| `Text.Join` | monit.py:81 | `sep.join(parts)`: empty for no parts, the part itself for one, otherwise the first part followed by the separator |
| `Text.JoinSnoc` | monit.py:109 | joining one more part appends the separator and that part, so the joined text is the parts in order with the separator between neighbours |
| `Ordering.SortedSeqSpec` | monit.py:98-99 | `sorted(s)` lists every element of the set exactly once, in strictly ascending Python string order |
| `Ordering.SortedSeqUnique` | monit.py:105-106 | the only strictly ascending listing of a set's elements is `sorted(s)`, so the sorted sections are determined by the sets alone |
| `Ordering.Sort` | monit.py:98 | the selection loop returns exactly `sorted(s)`, the listing that `SortedSeqSpec` shows ascending and complete |
| `Endpoints.ParamEntries` | monit.py:74-79 | one `in:name` entry per declared parameter, in declaration order |
| `Endpoints.ParamEntriesInOrder` | monit.py:76-79 | entry k comes from parameter k, with `unknown` substituted for a missing `in` or `name` |
| `Endpoints.DescriptorLayout` | monit.py:81-82 | a descriptor is the upper-cased method, a space and the path; ` (` + entries joined by `, ` + `)` follows exactly when the entry list is non-empty |
| `Endpoints.NoPathsNoEndpoints` | monit.py:66-67 | a falsy document, or one without `paths`, gives the empty set |
| `Images.ImageMembers` | monit.py:73-83 | the inner loop's set holds `f(x)` for each element `x` and nothing else |
| `Images.ImageSize` | monit.py:73-83 | adding one value per element gives at most as many values as elements |
| `Images.UnionMembers` | monit.py:72-83 | the outer loop's set holds exactly what some element contributes |
| `Endpoints.CollectParams` | monit.py:74-79 | the parameter loop builds exactly the entry list `OperationParams` |
| `Endpoints.FormatEndpoint` | monit.py:81-82 | the formatting code computes the descriptor of the operation |
| `Endpoints.PathDescriptorsMembers` | monit.py:72-83 | the set holds exactly the descriptors of all (path, method) pairs, and nothing else |
| `Endpoints.PathDescriptorsSize` | monit.py:72-83 | duplicates collapse, so the set has at most as many elements as there are (path, method) pairs |
| `Endpoints.ExtractEndpoints` | monit.py:65-85 | the nested loops compute `EndpointSet`: empty without `paths`, and bounded by the pair count |
| `Endpoints.PlainOperationExample` | monit.py:65-85 | `{"paths": {"/coins": {"get": {}}}}` gives `{"GET /coins"}` |
| `Endpoints.PathParameterExample` | monit.py:65-85 | a `get` with parameter `in: path, name: id` on `/coins/{id}` gives `GET /coins/{id} (path:id)` |
| `Diff.ReportPayloads` | monit.py:96-106 | the `+ ` lines carry `sorted(new - old)` and the `- ` lines carry `sorted(old - new)`, in that order |
| `Diff.ReportNoneIffEqual` | monit.py:91-92 | `get_diff` gives `None` (no lines) exactly when the two sets are equal |
| `Diff.AddedAndRemovedLines` | monit.py:96-106 | the `+ ` lines are exactly the added descriptors and the `- ` lines exactly the removed ones, each strictly ascending, with no extras |
| `Diff.ReportAntisymmetric` | monit.py:91-92 | swapping the arguments swaps the `+ ` and `- ` lines |
| `Diff.ReportHeaders` | monit.py:96-104 | `NEW ENDPOINTS:` appears iff something was added, `REMOVED ENDPOINTS:` iff something was removed, and one blank line iff both |
| `Diff.ReportOrder` | monit.py:96-106 | the report starts with the header of the first non-empty section, and every `+ ` line comes before every `- ` line |
| `Diff.AppendSection` | monit.py:97-99 | appending a header and then one `marker`-prefixed line per sorted element adds exactly those lines, in order |
| `Diff.GetDiff` | monit.py:87-110 | the appending code computes `Report`: `None` iff the sets are equal, otherwise a non-empty newline-joined report |
| `Diff.AddedExample` | monit.py:87-110 | `{"GET /a"}` to `{"GET /a", "POST /b"}` gives `NEW ENDPOINTS:\n+ POST /b` |
| `Diff.RemovedExample` | monit.py:87-110 | `{"GET /a", "GET /b"}` to `{"GET /a"}` gives `REMOVED ENDPOINTS:\n- GET /b` |
| `Monitor.PollStep` | monit.py:127-138 | a poll adds and drops no URL, leaves every other URL's entries unchanged, and changes the polled URL only on a fingerprint mismatch of a recorded URL, storing the new set and its hash |
| `Monitor.CycleRecords` | monit.py:125-138 | a polling pass keeps the set of recorded URLs exactly as it was |
| `Monitor.ChangeIsNotified` | monit.py:131-135 | with consistent records, every record replacement comes with a notification, because the sets differ |
| `Monitor.NotificationMeansUpdate` | monit.py:131-138 | a notification carries the URL and the diff report, and the new set is stored with it |
| `Monitor.UnchangedIsSilent` | monit.py:127-131 | an unchanged endpoint set changes nothing and sends nothing |
| `Monitor.CollisionHidesChange` | monit.py:129-131 | when the new fingerprint equals the recorded one, nothing is stored or sent, even if the set changed |
| `Monitor.UnrecordedStaysUnrecorded` | monit.py:131 | a URL with no recorded hash is still unrecorded after a polling pass, and a poll of it sends nothing |
| `Monitor.CycleKeepsConsistent` | monit.py:125-138 | a polling pass keeps both dictionaries on the same URLs, with each hash the fingerprint of its set |
| `Monitor.BootstrapKeepsConsistent` | monit.py:116-121 | bootstrapping keeps the records consistent |
| `Monitor.BootstrapRecordsExactly` | monit.py:116-121 | after bootstrap a URL is recorded iff it was already recorded or one of its fetches produced a truthy document |
| `Monitor.BootstrapRecordsValues` | monit.py:116-121 | with distinct URLs, each fetched document's endpoint set and its fingerprint become the baseline |
| `Monitor.Monitor.constructor` | monit.py:114-115 | the monitor starts with both dictionaries empty |
| `Monitor.Monitor.RecordBaseline` | monit.py:117-121 | the bootstrap step for one URL records the set and its hash exactly when the document is truthy |
| `Monitor.Monitor.Bootstrap` | monit.py:116-121 | the bootstrap loop yields `BootstrapRecords` and keeps the records consistent |
| `Monitor.Monitor.Poll` | monit.py:126-138 | one poll updates the dictionaries as `PollStep` and returns the notification `PollMessage` |
| `Monitor.Monitor.PollCycle` | monit.py:125-138 | one pass over the URLs yields `CycleRecords` and the notifications in URL order |

## Left out

- HTTP fetching (`get_page_content`, the `requests.get` in `get_swagger_spec`, monit.py:24-45) is foreign network code. Its result is an input to the model.
- Posting the notification (`send_discord_notification`, monit.py:16-22) is a network call. The model returns the message text instead.
- The regular-expression and `json.loads` repair of the `let options = {...}` literal (monit.py:47-60) depends on Python's `re` and `json`. It has no contract beyond "document or `None`", which is how the model receives it.
- `hashlib.md5(str(endpoints))` (monit.py:121, 129) is an arbitrary function of the endpoint set here. In Python, `str` of a set depends on its iteration order, so equal sets could get different hashes. The model does not capture this. As a consequence, the case "hash differs but `get_diff` returns `None`" cannot happen in the model, although the code handles it: it still stores the new values.
- `time.sleep`, the `while True` loop and the catch-all error notification (monit.py:123-124, 140-141) are scheduling and process lifecycle. The model has one polling pass, which can be repeated.
- `print` logging and the hard-coded URL list and webhook (monit.py:7-14) are configuration.
- Text.Upper: maps only the ASCII letters. Python's Unicode case mapping (for example one character becoming two) is not modelled.
- Mistyped values that make `extract_endpoints` raise are not modelled. The error would reach the catch-all, which sends one final notification. These values are:
  - `paths` or a path item that is not an object (`.items()`, monit.py:70-73);
  - a `details` value that is a number, `null` or a boolean (the `in` test, monit.py:75);
  - a string or list `details` that passes the `'parameters'` test (the indexing at monit.py:76);
  - a `parameters` entry that is not an object (`param.get`, monit.py:77-78).
- Mistyped values that do not raise are representable:
  - A path-level key that is not an HTTP method gives a descriptor under its own upper-cased name. Examples are a `parameters` list, or a `summary` string that does not contain `parameters`: `"PARAMETERS /path"`, `"SUMMARY /path"`. The model writes such a key as `Operation(key, None)`, because the `'parameters'` test on a list or string is false.
  - An empty `parameters` value is `Some([])`.
  - A non-string `in` or `name` is `Some` of its Python `str` rendering (`Some("None")` for `null`).
- The model accepts documents with repeated JSON object keys, which no Python dictionary holds: `json.loads` keeps only the last value of a repeated key. On such a document the model's set is a superset of what the program computes: it holds the descriptors of every occurrence, not only the last.
