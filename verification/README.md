# Bucket-list server, modelled in Dafny

The server keeps one bucket list in memory: a process-wide array of strings
that starts with three items. Two POST routes change it. `/add` appends the
trimmed `item` of the JSON body. `/delete` removes the element at the
body's `index`. Every POST answers with the whole list. `GET /data` reads
the list without changing it. Every other GET serves a static file.

The model is a state machine whose state is `seq<string>`:

- `js_string.dfy` (module `JsString`): `String.prototype.trim`, with the
  ECMAScript white-space and line-terminator code points.
- `request_body.dfy` (module `RequestBody`): the outcome of parsing the
  body, and reading `data.item` / `data.index` from it.
- `bucket_list.dfy` (module `BucketList`): the seed, both guards,
  `splice`, the POST and GET handlers and one `Step` per request. It has
  the handler as written (`HandlePostAsWritten`) and the corrected one that
  the rest of the model uses (`HandlePost`); see Findings.
- `bucket_list_properties.dfy` (module `BucketListProperties`):
  single-request properties, stated for concrete bodies.
- `server_run.dfy` (module `ServerRun`): the server over a sequence of
  requests. It proves that the list only ever holds seed items and items
  some `/add` offered, and that all of them are trimmed.

Two behaviours of the code are worth stating plainly:

- An item made only of white space passes the `/add` guard and appends `""`.
- A malformed body or an out-of-range index still gets a 200 reply with the
  unchanged list.

## Model

| member | source | states |
|---|---|---|
| `JsString.TrimStart` | server.improved.js:47 | the result is a suffix of the input, everything dropped is white space, and the result does not start with white space |
| `JsString.TrimEnd` | server.improved.js:47 | the result is a prefix of the input, everything dropped is white space, and the result does not end with white space |
| `JsString.Trim` | server.improved.js:47 | `item.trim()` is a slice of the item with only white space outside it and none at its ends; it is no longer than the item; an already trimmed string is unchanged; the result is empty exactly when the item is all white space |
| `JsString.TrimOfIsUnique` | server.improved.js:47 | any slice with that description equals `Trim` of the item, so the description determines trimming completely |
| `JsString.TrimIdempotent` | server.improved.js:47 | trimming twice gives the same result as trimming once |
| `RequestBody.DataOf` | server.improved.js:38-43 | `data` is the value the body parsed to, and `{}` when `JSON.parse` throws |
| `RequestBody.Property` | server.improved.js:46-50 | `data.item` / `data.index` is defined exactly when the parsed body is an object that has that key, and then it is that key's value |
| `BucketList.Seed` | server.improved.js:7 | the list the server starts with: "Go stargazing", "Take a cooking class", "Weekend road trip", in that order |
| `BucketList.AddAccepts` | server.improved.js:46 | `data.item && typeof data.item === "string"` holds exactly when `item` is present and a string that is not empty, since a string is truthy exactly when it is not empty |
| `BucketList.DeleteAccepts` | server.improved.js:51 | `typeof index === "number" && index >= 0 && index < bucketList.length` holds exactly when `index` is present and a number in `[0, length)` |
| `BucketList.RemoveAt` | server.improved.js:51-52 | `splice(x, 1)` cuts off the fraction of `x`, keeps the elements before it in place, moves later ones down by one, is one shorter, and removes exactly one occurrence of the element at that position (multiset) |
| `BucketList.AddItem` | server.improved.js:45-48 | an item that is a non-empty string grows the list by exactly one, keeps every earlier element, and puts the trimmed item last; any other item leaves the list unchanged |
| `BucketList.DeleteItem` | server.improved.js:49-53 | a number index in `[0, length)` shortens the list by one, keeping the prefix before it and shifting the suffix after it; any other index leaves the list unchanged; the result's elements are a sub-multiset of the list's |
| `BucketList.PostReply` | server.improved.js:56-57 | the reply that ends every POST: the list as it stands, sent as `{ bucketList }` |
| `BucketList.HandlePostAsWritten` | server.improved.js:37-58 | the handler crashes exactly when the URL is `/add` or `/delete` and the body is the JSON literal `null`; in every other case it answers as `HandlePost` does |
| `BucketList.SafeData` | server.improved.js:38-43 | the `data` the corrected handler reads is never `null`, and it is the parsed body whenever that is not `null` |
| `BucketList.HandlePost` | server.improved.js:37-58 | every POST replies with the list as it stands after the request; `/add` and `/delete` apply their branch; any other URL leaves the list unchanged |
| `BucketList.HandleGet` | server.improved.js:17-28 | a GET never changes the list, and the reply is the list exactly when the URL is `/data` |
| `BucketList.Step` | server.improved.js:9-15 | a GET is exactly `HandleGet` and a POST exactly the corrected `HandlePost` (so every POST is answered, unlike the as-written handler on a `null` body); only a POST can change the list and it replies with the new list; `GET /data` replies with the current list; other methods get no reply and change nothing |
| `BucketListProperties.AddAppendsTrimmed` | server.improved.js:46-47 | `{ "item": s }` with a non-empty `s` yields the old list plus `Trim(s)` and replies with it |
| `BucketListProperties.WhitespaceItemAppendsEmpty` | server.improved.js:46-47 | a non-empty item made only of white space passes the guard and appends `""` |
| `BucketListProperties.RejectedItemChangesNothing` | server.improved.js:46 | an empty-string or non-string item leaves the list unchanged |
| `BucketListProperties.DeleteRemovesOne` | server.improved.js:50-52 | `{ "index": x }` with `0 <= x < length` yields `list[..i] + list[i+1..]` with `i` the integer part of `x` |
| `BucketListProperties.DeleteOutOfRangeChangesNothing` | server.improved.js:51 | a negative index, or one at or past the length, leaves the list unchanged |
| `BucketListProperties.DeleteNonNumberChangesNothing` | server.improved.js:51 | an index that is not a number, such as a numeric string, leaves the list unchanged |
| `BucketListProperties.MalformedBodyChangesNothing` | server.improved.js:38-43 | a body that fails to parse leaves the list unchanged on every URL and still gets the list as reply |
| `BucketListProperties.AddThenDeleteLastRestores` | server.improved.js:45-53 | deleting at the old length right after an accepted `/add` restores the list from before the `/add` |
| `BucketListProperties.NullBodyCrashesAsWritten` | server.improved.js:45-53 | as written, a `null` body to `/add` or `/delete` throws instead of answering |
| `BucketListProperties.NullBodyChangesNothing` | server.improved.js:38-57 | in the corrected handler a `null` body is answered with the unchanged list |
| `ServerRun.StepGrowsByOffer` | server.improved.js:45-54 | one request grows the list by at most the item its own `/add` offers, and by nothing otherwise |
| `ServerRun.StepStaysWithin` | server.improved.js:45-54 | one request keeps every element among the given origins once its own offer is added to them |
| `ServerRun.Origins` | server.improved.js:7 | every seed item and every offered item is trimmed |
| `ServerRun.Run` | server.improved.js:7-57 | the list after a sequence of requests: the seed for none, and otherwise the corrected `Step` of the last request applied to the list the earlier ones left |
| `ServerRun.RunLengthBound` | server.improved.js:7-57 | after any sequence of requests from the seed, the list is at most the seed length plus the number of accepted `/add`s |
| `ServerRun.RunStaysWithin` | server.improved.js:7-57 | after any sequence of requests from the seed, the list holds only seed items and items some `/add` offered |
| `ServerRun.RunItemsTrimmed` | server.improved.js:7-57 | after any sequence of requests from the seed, every item in the list is trimmed |
| `ServerRun.AnswersShowList` | server.improved.js:22-57 | each POST is answered with the list its own step left; each `GET /data` with the list the earlier requests left; other GETs get a static file; other methods get no reply |
| `ServerRun.Serve` | server.improved.js:7-57 | the server loop starts from the three seed items and threads the one list through the requests in order, each a `Step` with the corrected POST handler: the final list is the fold of the steps, each request gets the reply its step gives on the list the earlier requests left, and every item in the final list is trimmed |

## Left out

- HTTP server creation, the port and `listen` (server.improved.js:1-5, 75-77): I/O. Requests arrive already split into method, URL and parsed body.
- Collecting the body stream and `JSON.parse` itself (server.improved.js:31-43): only the outcome is modelled, as `RequestBody.Parsed`. The `console.error` log line is not modelled.
- RequestBody.Value: a JSON number is the exact real it denotes. The rounding to binary64 that `JSON.parse` does is not modelled. Neither is the `Infinity` that an overlong literal becomes; such an index fails the `/delete` guard either way. NaN cannot come from JSON.
- BucketList.DeleteItem and BucketList.RemoveAt: because of that exact reading, an index literal that binary64 rounds across an integer or across zero behaves differently. `0.99999999999999999` parses to `1` and deletes element 1, where the model cuts it to 0 and deletes element 0. `-1e-400` parses to `-0`, passes the guard and deletes element 0, where the model rejects it as negative.
- RequestBody.Body: duplicate keys are taken as already resolved by the parser, with the last one winning.
- Strings are sequences of Unicode scalar values. JavaScript strings are UTF-16, so lone surrogates cannot be represented. `trim` never removes a surrogate, so this does not change what trimming does.
- BucketList.HandleGet: static file serving through `fs`, `mime`, the file name built from the URL, and the 404 path (server.improved.js:17-21, 25-27, 61-73) are foreign library calls and I/O. Such a reply is only `StaticFile`.
- Status codes and headers are not modelled. A `ListJson` reply stands for the 200 `application/json` body `{ bucketList }`.
- A crash ends the process and with it the in-memory list. `ServerRun` folds the corrected handler and does not model a restart.
- Requests run one at a time. A POST takes its place when its body finishes arriving (its `end` event); a GET runs as soon as the request arrives (server.improved.js:9-11).
- public/js/main.js is client-side DOM rendering, `fetch` calls and event wiring. Its "Done" button only toggles CSS classes and is never sent to the server. Its trim-and-skip-empty check does not constrain what the server accepts.

## Findings

| source | as written | input that shows it | evidently intended | confidence | as-written member | corrected member |
|---|---|---|---|---|---|---|
| server.improved.js:45-53 | `data.item` and `data.index` are read without checking that `data` is an object. `JSON.parse` may return `null`, and the TypeError this throws inside the `end` handler is never caught, which ends the server process. | `POST /add` (or `/delete`) with the body `null` | a body without usable properties is ignored, as the `{}` fallback at lines 38-43 does for unparsable text: the list is unchanged and sent back | not executed; high | `BucketList.HandlePostAsWritten`, shown by `BucketListProperties.NullBodyCrashesAsWritten` | `BucketList.HandlePost`, with `BucketListProperties.NullBodyChangesNothing` |
