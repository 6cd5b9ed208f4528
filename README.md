# SUZHOUKEJIDAXUE campus scripts — a Dafny model

The repository holds a few Python scripts used on the USTS campus:

- **getCharge/dianfei_core.py** queries the remaining electricity of a dormitory room. It reads request headers from `headers.txt`, checks that the request payload carries the six required fields, and posts it to the charge service. It then finds the reading in the `showData` object of the answer and turns it into a number. Credentials are masked before any header is logged.
- **getCharge/fetch_rooms.py** crawls the building catalogue of the charge service. For every building it reads the room list out of one of several answer shapes. It turns each room into a query record and keeps one record per `(campus, building, room)`.
- **getCharge/main.py** is the monitor. It reads `headers.txt` its own way, maps every room to the e-mail contact of its residents, and splits that contact into an address and a name.
- **autoLoginInternet/main.py** logs accounts into the campus network portal. It builds the login query around one millisecond timestamp, unwraps the JSONP answer, and decides on the `result` field whether the login succeeded. It also reads the list of accounts.

The model keeps everything these scripts compute once HTTP, files and JSON decoding are done. Decoded JSON is a datatype (`PyJson.Json`) whose objects are ordered sequences of entries, as Python dicts are. A Python dict of strings is an ordered sequence of pairs (`Headers.Dict`). An HTTP answer becomes its status and its text. `json.loads` and `resp.json()` become an `Option<Json>` argument, or a function parameter where they are applied to computed text.

The files are:

- `wrappers.dfy`: `Option` and `Result`.
- `text.dfy`: the parts of Python's `str` used by the scripts. These are `strip`, `lower`, `in`, `split`, the text of an integer, and the ordering `sorted` uses.
- `pyjson.dfy`: JSON values, `dict.get`, truthiness and `str()`.
- `headers.dfy`: the dict of headers and the three line readers of `headers.txt`. Each reader is a fold over the lines and an imperative loop proved equal to it.
- `redaction.dfy`: `_mask`, `_redact_headers` (a loop proved against an entry-by-entry definition) and `_safe_preview`.
- `electricity.dfy`: the required-field check, the `showData` navigation, `_pick_show_value` and the text part of `_to_float`, all inside `query_current_electricity`.
- `rooms.dfy`: `pick_map_data`, `iter_rooms`, `to_room_record`, and the de-duplicating crawl. The crawl state (`all_rooms`, `seen`) is the class `RoomCatalog`, whose methods update it in place.
- `monitor.dfy`: the `emailMap` comprehension and the contact split of getCharge/main.py.
- `eportal.dfy`: the login query, the JSONP unwrapping, the success test and `load_configs`.

## Model

| member | source | states |
|---|---|---|
| Text.Strip | getCharge/dianfei_core.py:52 | the result has no leading or trailing Python whitespace, is no longer than the input, and a text already stripped is returned unchanged |
| Text.TrimLeftSuffix | getCharge/dianfei_core.py:52 | stripping on the left removes exactly a whitespace prefix and keeps the rest |
| Text.TrimRightPrefix | getCharge/dianfei_core.py:52 | stripping on the right removes exactly a whitespace suffix and keeps the rest |
| Text.StripWithin | getCharge/dianfei_core.py:71 | stripping only drops characters: every character of the result is in the input |
| Text.StripBlank | getCharge/dianfei_core.py:52-53 | a line is empty after `strip()` exactly when it is all whitespace |
| Text.LowerStrip | getCharge/fetch_rooms.py:21 | `lower()` and `strip()` commute, so `k.lower().strip()` is the lower-cased stripped name |
| Text.ContainsAt | getCharge/dianfei_core.py:39 | `t in s` holds exactly when `t` occurs at some index of `s` |
| Text.ContainsPrefix | getCharge/dianfei_core.py:39 | a text containing `t` contains every prefix of `t` |
| Text.SplitFirst | getCharge/dianfei_core.py:58 | `split(":", 1)` fails to give two parts exactly when the separator is absent |
| Text.SplitFirstParts | getCharge/dianfei_core.py:58 | the two parts, joined by the separator, give the text back, and the first part holds no separator |
| Text.SplitFirstJoin | getCharge/dianfei_core.py:58 | joining a separator-free head, the separator and any tail splits back into that head and tail, even when the tail holds more separators |
| Text.Split | getCharge/main.py:84 | `split(",")` gives at least one part, no part holds a comma, and joining the parts with commas gives the text back |
| Text.IndexOfFirst | getCharge/dianfei_core.py:58 | the index found is that of the first occurrence |
| Text.NatText | autoLoginInternet/main.py:26 | the decimal text of a natural number is a non-empty digit string with no leading zero |
| Text.NatTextRoundTrip | autoLoginInternet/main.py:26 | reading the digits of that text gives the number back |
| Text.LexLessIrreflexive | getCharge/dianfei_core.py:114 | no text sorts before itself |
| Text.LexLessTransitive | getCharge/dianfei_core.py:114 | the order `sorted` uses on texts is transitive |
| Text.LexLessTotal | getCharge/dianfei_core.py:114 | of two different texts, one sorts before the other |
| Text.SortedUnique | getCharge/dianfei_core.py:114 | two strictly sorted lists with the same members are equal, so `sorted` of a set has one answer |
| PyJson.Get | getCharge/fetch_rooms.py:30 | `d.get(k)` is absent exactly when `k` is not a key, and otherwise gives the value of an entry with key `k` |
| PyJson.PyStr | getCharge/fetch_rooms.py:72-75 | `str(v)` is empty exactly when `v` is the empty string |
| PyJson.Repr | getCharge/dianfei_core.py:146 | the repr used in error messages is never empty |
| Headers.Lookup | getCharge/dianfei_core.py:59 | reading a header is absent exactly when the name was never set, and otherwise gives the value of an entry with that name |
| Headers.Put | getCharge/dianfei_core.py:59 | `hdr[k] = v` adds `k` to the names and makes `k` read `v`; an existing name keeps the size, a new name is appended at the end |
| Headers.PutOther | getCharge/dianfei_core.py:59 | setting one name leaves every other name's value as it was |
| Headers.PutOrder | getCharge/dianfei_core.py:59 | setting a name keeps every name once, and setting an existing name keeps every entry's name in its place |
| Headers.Apply | getCharge/dianfei_core.py:52-59 | a skipped or rejected line leaves the dict unchanged, and no line makes a name appear twice |
| Headers.Fold | getCharge/dianfei_core.py:51-59 | the dict built from any lines has every name once |
| Headers.FoldNames | getCharge/dianfei_core.py:51-59 | a name is in the dict exactly when some line sets it |
| Headers.FoldLookup | getCharge/dianfei_core.py:51-59 | a name reads the value of the last line that sets it (later duplicates overwrite) |
| Headers.SplitHeader | getCharge/dianfei_core.py:58-59 | a line without `:` gives no entry, and otherwise the name and the value are stripped |
| Headers.CommentedLine | getCharge/dianfei_core.py:52-59 | blank and `#` lines are skipped, a colon-less line is malformed, and any other line is split at its first colon into a stripped name and a stripped value |
| Headers.HeaderLineRoundTrip | getCharge/dianfei_core.py:58-59 | a line `name:value` with a colon-free, non-comment name is read back as exactly that entry, colons in the value included |
| Headers.LoadLines | getCharge/dianfei_core.py:51-59 | the line loop builds exactly the fold of the lines' effects |
| Headers.LoadCoreHeaders | getCharge/dianfei_core.py:46-61 | `_load_headers_from_file` returns the fold of the lines, with colon-less lines skipped |
| Headers.CatalogLine | getCharge/fetch_rooms.py:17-23 | blank lines, colon-less lines and lines naming `host`, `connection`, `content-length` or `content-type` in any case are dropped; any other line is split at its first colon |
| Headers.CatalogSkipsAutoHeaders | getCharge/fetch_rooms.py:11-23 | no name in the result is, lower-cased, one of the headers `requests` manages |
| Headers.LoadCatalogHeaders | getCharge/fetch_rooms.py:13-24 | `load_headers` returns the fold of the lines read its way |
| Headers.LoadLinesStrict | getCharge/main.py:26-32 | the loop fails at the first malformed line and at no other, and otherwise returns the fold of the lines |
| Headers.LoadMonitorHeaders | getCharge/main.py:24-33 | `load_headers` raises at the first non-blank, non-comment line without `:`, and otherwise returns the fold of the lines |
| Redaction.Mask | getCharge/dianfei_core.py:26-32 | `None` gives `""`; any text keeps its length; a short text becomes all `*`; a longer one keeps its first `keep_head` and last `keep_tail` characters with `*` between (the intended form, see Findings) |
| Redaction.MaskAsWritten | getCharge/dianfei_core.py:26-32 | `None` gives `""`; the mask has the text's length, except that with `keep_tail = 0` a text longer than `keep_head` gives twice its length and ends with the whole text |
| Redaction.MaskAsWrittenAgrees | getCharge/dianfei_core.py:32 | with a tail to keep, as every caller has, the code as written gives the same mask |
| Redaction.MaskAsWrittenRevealsWithoutTail | getCharge/dianfei_core.py:32 | with `keep_tail = 0` the code as written appends the whole secret after the stars |
| Redaction.SensitiveNames | getCharge/dianfei_core.py:38-39 | `authorization` adds nothing to the list of markers, since it contains `auth` |
| Redaction.RedactedValue | getCharge/dianfei_core.py:38-40 | a shown value has the length of the real one, and a header that is not sensitive shows its real value |
| Redaction.Redacted | getCharge/dianfei_core.py:36-41 | the redacted dict has one entry per entry of the input |
| Redaction.RedactedLookup | getCharge/dianfei_core.py:36-41 | the redacted dict has the same names as the input, and each name shows its masked value when sensitive and its value otherwise |
| Redaction.PutExisting | getCharge/dianfei_core.py:40 | overwriting an existing name rewrites just that entry, in place |
| Redaction.RedactHeaders | getCharge/dianfei_core.py:34-41 | the loop over the copy's names returns the entry-by-entry redaction of the input; the input, a value, is untouched |
| Redaction.SafePreview | getCharge/dianfei_core.py:43-44 | a text of at most `n` characters is returned unchanged; a longer one becomes its first `n` characters followed by `...(truncated)` |
| Electricity.RequiredSorted | getCharge/dianfei_core.py:111-115 | the six required names, in the order used, are strictly sorted |
| Electricity.Without | getCharge/dianfei_core.py:112 | the names left are exactly those of the list not in the key set, and sortedness is kept |
| Electricity.MissingIsSorted | getCharge/dianfei_core.py:112-115 | the missing names are `sorted(required - keys)`: any strictly sorted listing of that difference equals them |
| Electricity.FirstPresent | getCharge/dianfei_core.py:83-86 | the candidate found is present and no earlier candidate is; none is found exactly when none is present |
| Electricity.FirstFuzzy | getCharge/dianfei_core.py:88-91 | the entry found has `剩余` or `电量` in its key and no earlier entry has; none is found exactly when no key matches |
| Electricity.PickShowValue | getCharge/dianfei_core.py:80-92 | a picked key is a candidate or a fuzzy match, and its value is what `show[key]` reads |
| Electricity.CandidatesFuzzy | getCharge/dianfei_core.py:82-89 | every candidate key would also have matched fuzzily |
| Electricity.FirstEntryIsFirstKey | getCharge/dianfei_core.py:88-91 | the first fuzzy entry is what reading its key gives |
| Electricity.PickCandidate | getCharge/dianfei_core.py:83-86 | the first candidate in list order that is present wins, whatever the dict's order |
| Electricity.PickFuzzy | getCharge/dianfei_core.py:87-91 | without a candidate, the first fuzzy key in the dict's order wins |
| Electricity.PickNone | getCharge/dianfei_core.py:92 | nothing is picked exactly when no key matches fuzzily |
| Electricity.Remove | getCharge/dianfei_core.py:71 | `replace(c, "")` leaves no `c`, keeps every other character, and never lengthens the text |
| Electricity.RemoveAppend | getCharge/dianfei_core.py:71 | removal works piece by piece: removing from `a + b` is removing from `a`, then from `b`, in order; with the one-character cases this fixes the result exactly |
| Electricity.RemoveAbsent | getCharge/dianfei_core.py:71 | removing an absent character changes nothing |
| Electricity.DigitRun | getCharge/dianfei_core.py:72 | `\d+` at a position takes the longest run of digits there |
| Electricity.NumberEnd | getCharge/dianfei_core.py:72 | a match of `[-+]?\d+(?:\.\d+)?` at a position is not empty and stays within the text |
| Electricity.NumberEndLongest | getCharge/dianfei_core.py:72 | wherever a number text starts at a position, the match there exists and reaches at least its end: the match is the longest number text starting there |
| Electricity.NumberEndExact | getCharge/dianfei_core.py:72 | a number text at a position that is followed neither by a digit nor, when it has no fraction, by a dot and a digit is matched exactly |
| Electricity.SearchNumber | getCharge/dianfei_core.py:72 | `re.search` returns the leftmost position where the pattern matches, and none when it matches nowhere |
| Electricity.NumberEndText | getCharge/dianfei_core.py:72 | the text matched is an optional sign, digits, and optionally a dot and more digits |
| Electricity.NumberTextFound | getCharge/dianfei_core.py:72 | such a number text is matched whole, from its start |
| Electricity.Cleaned | getCharge/dianfei_core.py:71 | the cleaned reading holds no comma of either width, has no surrounding whitespace, and only holds characters of the reading |
| Electricity.NumberIn | getCharge/dianfei_core.py:71-72 | a number found is a number text; none is found only when no part of the cleaned reading is one |
| Electricity.NumberInLeftmost | getCharge/dianfei_core.py:72 | any number text inside the cleaned reading means a number is found, starting no later than it, and at least as long when it starts at the same place |
| Electricity.ToFloatText | getCharge/dianfei_core.py:63-78 | an int gives its decimal text and a bool `1` or `0`; a string gives the number found in its cleaned text, and fails exactly when there is none; anything else fails; the only error is `ValueError` |
| Electricity.ToFloatTextNumber | getCharge/dianfei_core.py:70-76 | a number text without commas converts to itself |
| Electricity.NumberTextEnds | getCharge/dianfei_core.py:71-72 | a number text neither starts nor ends with whitespace, so `strip()` leaves it alone |
| Electricity.GetOrEmpty | getCharge/dianfei_core.py:143 | `.get(k, {})` raises exactly when applied to something that is not a dict |
| Electricity.ShowData | getCharge/dianfei_core.py:143 | the navigation to `showData` can only raise `AttributeError` |
| Electricity.Query | getCharge/dianfei_core.py:94-156 | invalid JSON input raises `ValueError`, a non-dict input `AttributeError`, and a result needs a non-error status and a JSON answer |
| Electricity.QueryMissingFields | getCharge/dianfei_core.py:111-115 | the missing-field `KeyError`, with the sorted list of missing names, is raised exactly when a required field is absent |
| Electricity.QueryMessageNotMissing | getCharge/dianfei_core.py:111-151 | with all fields present, no later error carries the missing-field message |
| Electricity.QueryShowDataMissing | getCharge/dianfei_core.py:143-146 | an empty or non-dict `showData` raises `KeyError` |
| Electricity.QuerySuccess | getCharge/dianfei_core.py:94-156 | a result means every check passed and the picked non-null reading converted to that result |
| Rooms.PickMapData | getCharge/fetch_rooms.py:26-39 | a non-dict gives `{}`; any other result is the `data` of a map reached under `map`, `data.map` or `result.map` |
| Rooms.PickMapPrimary | getCharge/fetch_rooms.py:30-39 | a non-empty dict under `map` is used, and gives its `data` or `{}` |
| Rooms.PickMapFallback | getCharge/fetch_rooms.py:31-39 | without a usable `map`, `data.map` is tried before `result.map` |
| Rooms.DictsOf | getCharge/fetch_rooms.py:48-52 | the dicts yielded from a list are exactly its dict elements |
| Rooms.DictsOfAllDicts | getCharge/fetch_rooms.py:48-52 | a list of dicts is yielded whole, element by element |
| Rooms.DictsOfAppend | getCharge/fetch_rooms.py:48-52 | filtering keeps the list's order |
| Rooms.FirstList | getCharge/fetch_rooms.py:54-56 | the key found is the first of the keys whose value is a list |
| Rooms.IterRooms | getCharge/fetch_rooms.py:41-62 | a list yields its dict elements; anything but a list or a dict yields nothing |
| Rooms.IterRoomsFirstList | getCharge/fetch_rooms.py:53-60 | the first of `list`, `rows`, `items`, `data`, `result` holding a list decides the rooms, even when that list is empty |
| Rooms.IterRoomsSelf | getCharge/fetch_rooms.py:61-62 | without such a list, the dict is itself the one room exactly when it has `value` or `name` |
| Rooms.ToRoomRecord | getCharge/fetch_rooms.py:64-76 | the fixed `409`, `IEC`, `3` and the given codes; the room is `str(value)` for a present, non-`None` value and empty exactly for a missing, `None` or empty one; the name is `str()` of the first truthy of `name`, `label`, `text`, and empty exactly when none is truthy |
| Rooms.Records | getCharge/fetch_rooms.py:107-108 | one record per room entry |
| Rooms.DedupKeys | getCharge/fetch_rooms.py:107-114 | the records kept have distinct keys and cover exactly the new keys |
| Rooms.DedupKeepsFirst | getCharge/fetch_rooms.py:107-114 | the loop keeps the first record of every new key, in order |
| Rooms.DedupAppend | getCharge/fetch_rooms.py:87-114 | de-duplicating two batches in turn is de-duplicating them together |
| Rooms.DedupExtends | getCharge/fetch_rooms.py:109-113 | appending the new records keeps the keys distinct and makes the keys those seen plus the batch's |
| Rooms.DistinctKeysCount | getCharge/fetch_rooms.py:85-113 | with distinct keys there are as many keys as records |
| Rooms.NewRecords | getCharge/fetch_rooms.py:107-114 | the test-and-add loop appends exactly the de-duplicated records and leaves `seen` holding the batch's keys too |
| Rooms.RoomCatalog.constructor | getCharge/fetch_rooms.py:84-85 | the crawl starts with no rooms and no keys |
| Rooms.RoomCatalog.SizesAgree | getCharge/fetch_rooms.py:84-113 | `len(all_rooms) == len(seen)` in every valid state |
| Rooms.RoomCatalog.AddRecords | getCharge/fetch_rooms.py:106-114 | the catalog stays valid, gains the de-duplicated records at its end and the batch's keys, and `cnt` counts the records appended |
| Rooms.RoomCatalog.AddBuilding | getCharge/fetch_rooms.py:104-114 | the same for the room entries of one building |
| Rooms.Crawl | getCharge/fetch_rooms.py:84-121 | `all_rooms` is the first record of each key over the whole crawl, in order, with distinct keys covering every key met, and one count per visit, adding up to its length; a visit whose request or decoding failed counts 0, where the script prints an error line instead of a count |
| Monitor.EntriesMap | getCharge/main.py:78 | the comprehension over a list succeeds only when every record is readable |
| Monitor.EmailMap | getCharge/main.py:75-81 | a list gives a map exactly when every record has a hashable `room` and an `email`; of the other values only an empty dict or string gives one |
| Monitor.EntriesMapDefined | getCharge/main.py:78 | a list gives a map exactly when every record is readable |
| Monitor.EntriesMapStep | getCharge/main.py:78 | the map of all records is that of all but the last, updated with the last |
| Monitor.EmailMapLastWins | getCharge/main.py:78 | a room maps to the address of the last record naming it |
| Monitor.EmailMapHasRoom | getCharge/main.py:78 | the room of every record is in the map |
| Monitor.EmailMapRoomFrom | getCharge/main.py:78 | every room of the map comes from some record |
| Monitor.RoomContact | getCharge/main.py:84 | the address and the name found contain no comma |
| Monitor.ContactRoundTrip | getCharge/main.py:84 | `address,name` with anything after a further comma splits into that address and that name |
| Monitor.SplitNoComma | getCharge/main.py:84 | a text without a comma splits into itself alone |
| Monitor.RoomContactSplits | getCharge/main.py:84 | a room whose contact is `address,name[,...]` gives that address and name; further parts are ignored |
| Monitor.RoomContactNoComma | getCharge/main.py:84 | a contact without a comma raises `ValueError` in the unpacking |
| Eportal.LoginParams | autoLoginInternet/main.py:26-40 | the login query has twelve entries |
| Eportal.LoginParamsDistinct | autoLoginInternet/main.py:27-40 | every name of the query is used once |
| Eportal.LoginParamsFixed | autoLoginInternet/main.py:28-37 | `c`, `a`, `login_method` and `jsVersion` carry their fixed values |
| Eportal.LoginParamsAccount | autoLoginInternet/main.py:31-32 | the account and the password are passed through unchanged |
| Eportal.LoginParamsWlan | autoLoginInternet/main.py:33-36 | the four network arguments are passed through unchanged |
| Eportal.LoginParamsStamp | autoLoginInternet/main.py:26-39 | `callback` is `dr` followed by `_`, and `_` is the decimal text of the one timestamp |
| Eportal.LineEnd | autoLoginInternet/main.py:43 | `.` stops at the first line break: no break before the end found, and a break or the end of text at it |
| Eportal.LastClose | autoLoginInternet/main.py:43 | the `)` found is the last one before the limit; none is found only when there is none |
| Eportal.Unwrap | autoLoginInternet/main.py:43-45 | the only error is that the text is not JSONP |
| Eportal.UnwrapParts | autoLoginInternet/main.py:43 | on success the text is a non-empty `(`-free name, `(`, and a rest whose last `)` on its first line ends the payload |
| Eportal.UnwrapSound | autoLoginInternet/main.py:43 | every payload found comes from a text `name(payload)rest` with a one-line payload and no `)` on the rest's first line |
| Eportal.UnwrapRoundTrip | autoLoginInternet/main.py:43 | the payload of such a text comes back, even when it holds `(` and `)`; text after the last `)` is discarded |
| Eportal.CloseFound | autoLoginInternet/main.py:43 | after the `(`, the `)` closing the payload is the last one on the line |
| Eportal.UnwrapFails | autoLoginInternet/main.py:43-45 | unwrapping fails exactly when there is no `(`, the text starts with `(`, or no `)` follows the first `(` on its line |
| Eportal.Attempt | autoLoginInternet/main.py:64-75 | a printed result is a dict |
| Eportal.AttemptSuccess | autoLoginInternet/main.py:70-71 | a login succeeds exactly when the status is not an error, the answer unwraps and decodes to a dict, and its `result` is the text `1` |
| Eportal.AttemptNotSuccess | autoLoginInternet/main.py:70-73 | the number 1, or no `result` at all, is printed, not logged as a success |
| Eportal.LoginEportal | autoLoginInternet/main.py:41-45 | an error status raises before the text is read; otherwise the only error is that the text is not JSONP, and a payload returned is the one of a text `name(payload)rest` |
| Eportal.LoadConfigsShape | autoLoginInternet/main.py:48-52 | a list is returned as it is and any other value as a list of itself; so only an empty list gives no configuration, and every configuration is the file's value or one of its elements |
| Eportal.LoadConfigsIdempotent | autoLoginInternet/main.py:52 | normalising the list of configurations once more gives the same list |

## Left out

- HTTP (`requests.post`, `requests.get`, `Session`), file reads and writes, `json.load`, `json.dump`, `json.loads` and `resp.json()`. Their results are parameters: a status, a text, an `Option<Json>`, or a decoding function.
- Logging, `print`, the SMTP alerts of getCharge/main.py, `time.sleep` and the `schedule` and `while True` driver loops. They are I/O and timing.
- `time.time()`: the millisecond stamp is a parameter of `Eportal.LoginParams`.
- Floating point. `_to_float` is modelled up to the decimal text handed to `float()`, so the query's result is that text. The threshold comparison of getCharge/main.py:91-93 is absent. JSON numbers are integers only.
- The `headers.txt` read inside `query_current_electricity` (dianfei_core.py:118-123) is not a step of `Electricity.Query`. It is modelled as `Headers.LoadCoreHeaders`. The form data of the catalogue request is not modelled.
- The per-room loop of getCharge/main.py beyond the contact split: the request, the `status != 200` alert, `data['map']['showData']['当前剩余电量']` and the threshold.
- The campus traversal of fetch_rooms.py:87-91: reading `campus["value"]`, `buildings` and `b["value"]` and their `str()`. `Rooms.Crawl` takes the visits with their codes already as text. A visit whose request or decoding failed adds nothing and is given the count 0; the script prints an error line for it instead.
- getCharge/server.py and getCharge/client.py wrap an RPC library and have no logic of their own. They are not modelled.
- Text.Lower: lower-cases ASCII letters and the Kelvin sign only. Any other upper-case letter is left as it is, where Python would lower it.
- Electricity.DigitRun: `\d` is taken as the ASCII digits `0`–`9`. Python also matches other Unicode decimal digits.
- PyJson.Repr: states only that the text is not empty. Strings inside it are put between single quotes with no escaping, where Python escapes or switches quotes. Besides error messages, it reaches `Rooms.ToRoomRecord` through `PyJson.PyStr` when a room's `value` or name is a list or a dict. There two values Python keeps apart can give the same room text, and so the same dedup key: a list holding the one string `a', 'b` and a list holding `a` and `b` both give `['a', 'b']`. Such rooms are merged here where the script keeps both.
- Monitor.EmailMap: JSON values that Python's `==` equates across types (`1`, `1.0`, `True`) are distinct map keys here.
- PyJson.Get: finds the first entry with a key. `json.loads` keeps one entry per key, so decoded objects never hold two.
- Electricity.Query: `AttributeError` stands for the exception `payload.keys()` and `.get` raise on a non-dict.

## Findings

| source | as written | input that shows it | evidently intended | confidence | as-written member | corrected member |
|---|---|---|---|---|---|---|
| getCharge/dianfei_core.py:32 | `s[-keep_tail:]` keeps the last `keep_tail` characters; with `keep_tail = 0` it is `s[-0:]`, the whole text | `_mask("abcdefgh", 6, 0)` gives `abcdef**abcdefgh`: longer than the secret and revealing all of it | keep no tail when `keep_tail = 0`, giving `abcdef**` | not executed; every caller uses the default `keep_tail = 4`, where both agree | Redaction.MaskAsWrittenRevealsWithoutTail | Redaction.Mask |
