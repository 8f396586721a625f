# Gmail attachment downloader — a Dafny model of its retrieval and extraction core

The downloader searches a Gmail account for recent log mails, fetches
them, ranks them newest first, walks each message's part tree for
attachments, and writes every attachment's decoded bytes into a save
folder under its own filename. This project models that core and proves
what it does. It follows both versions in the repository: the newer one
(`SimpleVersion/download_email.py`) and the older one
(`SimpleVersion/DownloadEmailLog/download_email.py`).

The hosted mail API is an oracle, `Gmail.Service`. It is a record of three
total functions: `list(query, maxResults)` gives the ids of a search;
`get(id)` gives a message; `attachmentData(messageId, attachmentId)` gives
the `data` string of an attachment. A method that talks to the API also
returns the `Request`s it issued, in order, so the model shows which calls
happen as well as what comes back. The save folder is a
`map<string, seq<byte>>` that is passed in and handed back. A write is a
map update, so writing a filename a second time replaces the first
contents.

Modules, leaf first:

- `Wrappers` (`wrappers.dfy`): `Option`.
- `Base64Url` (`base64url.dfy`): base64 with the URL-safe alphabet and
  padding, from section 5 of RFC 4648. It has an encoder, a decoder for
  well-formed padded input, and the round trip between them.
- `Gmail` (`gmail.dfy`): the records the API returns (message, part tree,
  headers, body), the request log, and the first-match header lookup.
- `PartWalker` (`part_walker.dfy`): the attachment test, the pre-order walk
  done by `process_part`, and the special case for the root payload. These
  are checked against reference definitions: every node in pre-order, and
  "lies in the subtree of".
- `Recency` (`recency.dfy`): the timestamp key, the stable newest-first
  sort and Python's `[:n]` slicing.
- `Retrieval` (`retrieval.dfy`): `get_latest_messages`. It covers the
  fallback search loop, the fetch loop, the sort and the cut.
- `Persister` (`persister.dfy`): the newer `save_attachments`. It covers
  the fetch–decode–write step, the recursive walk with its counter, the
  root dispatch and the final report.
- `LogVariant` (`log_variant.dfy`): the older `get_latest_message`
  (one query, first result) and the older flat `save_attachments`.

Loops in the source are `while`/`for` loops in methods. Each method is
proved against a specification function: `SearchFallback` against
`FirstHit`, `FetchAll` against `Stamp` element by element,
`GetLatestMessages` against `Latest` (built from `Fetched`, `NewestFirst`
and `Take`), `SaveAttachment` against `Visit`, and `ProcessPart`,
`ProcessEach`, `SaveAttachments` and `SaveAttachmentsFlat` against `Walk`
and `SaveAll`. The source's promises are then proved as
lemmas about those functions. Python's `list.sort` is library code, not
code of this repository. It is modelled as the function `NewestFirst`,
and `Recency.NewestFirstUnique` proves that every stable newest-first
sort gives the same list.

The code puts no limit on the recursion depth of the part tree. It does
not skip an attachment whose fetch fails. It does not return which search
pattern matched; it only prints it (`SimpleVersion/download_email.py:129`),
and print output is left out. The model follows the code in all three
respects.

## Model

| member | source | states |
|---|---|---|
| `Retrieval.FirstHit` | SimpleVersion/download_email.py:122-132 | It returns the position of the first pattern whose search is non-empty, and every earlier pattern's search is empty. It returns none exactly when every pattern's search is empty. |
| `Retrieval.SearchFallback` | SimpleVersion/download_email.py:114-136 | The loop queries the patterns in list order, each with the same `maxResults`. It queries nothing after the first non-empty result. The ids it returns are that result's, or `[]` exactly when every pattern came back empty. |
| `Retrieval.FetchAll` | SimpleVersion/download_email.py:141-164 | There is one `get` per matched id, in id order. The i-th fetched message is the oracle's message for the i-th id, carrying its integer timestamp. |
| `Retrieval.GetLatestMessages` | SimpleVersion/download_email.py:109-179 | The requests are the tried searches, each with `maxResults=50`, then one fetch per matched id. When all five patterns are empty, it returns `[]` with the five searches as its only requests, so no message is fetched. Otherwise the result is the stable newest-first sort of the fetched messages, cut to `num_messages`. |
| `Retrieval.LatestProperties` | SimpleVersion/download_email.py:141-179 | The result has at most `num_messages` elements (for `num_messages >= 0`) and no more than were matched. Every element is a fetched message. The order is newest first, and equal timestamps keep fetch order. |
| `Recency.Stamp` | SimpleVersion/download_email.py:154-155 | The stamped message is the fetched message. Its key is the `internalDate` value, or 0 when the key is missing. |
| `Recency.NewestFirst` | SimpleVersion/download_email.py:168 | The sorted list is a permutation of its input (the same multiset) and is ordered newest first. |
| `Recency.NewestFirstCorrect` | SimpleVersion/download_email.py:168 | The sort is a permutation of its input and is ordered newest first. For every timestamp, the messages with that timestamp keep their input order. |
| `Recency.NewestFirstStable` | SimpleVersion/download_email.py:168 | For each timestamp, the sorted list restricted to that timestamp equals the input list restricted to it. This is the stability of Python's sort, which stays stable under `reverse=True`. |
| `Recency.NewestFirstUnique` | SimpleVersion/download_email.py:168 | Any list that is ordered newest first and keeps input order within each timestamp equals `NewestFirst` of the input. So the model's sort and the library's stable sort give one and the same result. |
| `Recency.OrderedSameGroupsEqual` | SimpleVersion/download_email.py:168 | Two newest-first lists with the same per-timestamp sublists are equal. |
| `Recency.InsertWithDate` | SimpleVersion/download_email.py:168 | Inserting into a newest-first list puts the new message after every message with the same timestamp. |
| `Recency.TopNewest` | SimpleVersion/download_email.py:154-179 | After sorting and `[:n]`: the length is at most `n` (when `n >= 0`) and at most the input length. The result is a sub-multiset of the input and is ordered newest first. For each timestamp, its sublist is a prefix of the input's. |
| `Recency.Take` | SimpleVersion/download_email.py:179 | Python slicing `s[:n]` gives a prefix of `s`. Its length is `min(n, len)` for `n >= 0`, and `max(0, len + n)` for negative `n`. |
| `Gmail.FindHeader` | SimpleVersion/download_email.py:186 | It gives the position of the first header whose lower-cased name equals the target, with no earlier header matching. It gives none exactly when no header matches. |
| `Gmail.HeaderValue` | SimpleVersion/download_email.py:149-151 | The `next(...)` lookup returns the value of the first matching header, or the default when no header matches. |
| `Gmail.Lower` | SimpleVersion/download_email.py:150-151 | `.lower()` on a header name keeps the length. Each upper-case ASCII letter becomes its lower-case letter (code point plus 32), so none is left. Every other character is unchanged. |
| `Gmail.Subject` | SimpleVersion/download_email.py:185-186 | The result is the value of the first header whose name lower-cases to `subject`. When no header does, it is `'No Subject'`. |
| `Gmail.DateHeader` | SimpleVersion/download_email.py:151 | The result is the value of the first header whose name lower-cases to `date`. When no header does, it is `'No Date'`. |
| `Gmail.LookupIgnoresCase` | SimpleVersion/download_email.py:186 | Names are lower-cased before they are compared. So two header lists whose names differ only in letter case give the same match and the same value. |
| `PartWalker.Qualifies` | SimpleVersion/download_email.py:193-196 | A part is an attachment exactly when its filename is present and non-empty and its body has an `attachmentId`. A missing filename and the empty filename are both falsy. |
| `PartWalker.Walk` | SimpleVersion/download_email.py:191-211 | `process_part` emits only parts that qualify. A qualifying part is emitted before anything below it. |
| `PartWalker.WalkAll` | SimpleVersion/download_email.py:209-211 | The loop over a `parts` list emits only qualifying parts, and every qualifying sibling is among them. |
| `PartWalker.Candidates` | SimpleVersion/download_email.py:213-220 | The root dispatch emits only qualifying parts. When the payload has `parts`, every qualifying direct child is emitted. |
| `PartWalker.WalkIsQualifyingPreOrder` | SimpleVersion/download_email.py:191-211 | The walk emits exactly the qualifying nodes of the depth-first pre-order listing, in that order. A qualifying part is followed by what its children emit. |
| `PartWalker.WalkAllIsQualifyingPreOrder` | SimpleVersion/download_email.py:209-211 | Over a list of siblings, the walk emits the qualifying nodes of their pre-order listings, sibling by sibling. |
| `PartWalker.WalkEmitsExactly` | SimpleVersion/download_email.py:191-211 | A part is emitted exactly when it lies in the subtree and has both a non-empty filename and an `attachmentId`. This holds in both directions and at any depth, including below parts that are emitted themselves. |
| `PartWalker.WalkAllEmitsExactly` | SimpleVersion/download_email.py:209-211 | Over siblings, a part is emitted exactly when it qualifies and lies in one of the siblings' subtrees. |
| `PartWalker.WithinIsBelow` | SimpleVersion/download_email.py:209-211 | A part inside a subtree is the subtree's root or is structurally smaller than it, so the tree has no cycles. |
| `PartWalker.RootWithPartsExcluded` | SimpleVersion/download_email.py:214-217 | A payload with a `parts` key is never a candidate itself. The candidates are exactly the qualifying parts strictly inside it. |
| `PartWalker.RootWithoutParts` | SimpleVersion/download_email.py:218-220 | A payload without a `parts` key is processed as a single part. It is the only candidate if it qualifies; otherwise there is none. |
| `PartWalker.CandidatesQualify` | SimpleVersion/download_email.py:213-220 | Every candidate qualifies. The candidates are the qualifying pre-order nodes of the payload, or of its children when it has `parts`. |
| `PartWalker.Qualifying` | SimpleVersion/download_email.py:196 | It keeps exactly the parts that pass the attachment test, and no more parts than it was given. |
| `Base64Url.ValueOf` | SimpleVersion/download_email.py:201 | It maps each of the 64 URL-safe characters to its 6-bit value and inverts `CharOf`. Every other character, padding included, is not in the alphabet. |
| `Base64Url.Encode` | SimpleVersion/download_email.py:201 | The encoding has `4 * ceil(n / 3)` characters. |
| `Base64Url.Decode` | SimpleVersion/download_email.py:201 | A successful decode means the input length is a multiple of 4. The output length is then between `3*len/4 - 2` and `3*len/4`. |
| `Base64Url.DecodeEncode` | SimpleVersion/download_email.py:201 | Round trip: decoding an encoding gives back the original bytes. |
| `Persister.SaveAttachment` | SimpleVersion/download_email.py:196-206 | One attachment: one attachment fetch, then either a folder write under the filename with the counter incremented, or the decoding error that stops the run. |
| `Persister.ProcessPart` | SimpleVersion/download_email.py:191-211 | The recursive `process_part` leaves the state that saving `Walk(part)` in order gives. It stops at the first data string that does not decode. |
| `Persister.ProcessEach` | SimpleVersion/download_email.py:209-211 | The loop over a `parts` list leaves the state that saving what the siblings emit gives, in order. |
| `Persister.SaveAttachments` | SimpleVersion/download_email.py:181-225 | The state is that of saving the payload's candidates into the folder. On completion, `attachments_found` equals the number of candidates. The "no attachments" report is given exactly when the run completes and there is no candidate. Otherwise the total equals the candidate count, or the failing filename is reported. |
| `Persister.Visit` | SimpleVersion/download_email.py:196-206 | One step of `process_part` on a part. After a decoding error it changes nothing, and it never clears an error. It issues at most one request, adds at most one to the counter and removes no file. Only the part's own filename can change or appear, and only when the part qualifies. |
| `Persister.SaveAll` | SimpleVersion/download_email.py:209-211 | The steps over a list of parts, in order. After a decoding error nothing more is fetched, counted or written. The requests only grow, the counter never decreases, and no file is removed. |
| `Persister.SaveAllCompletes` | SimpleVersion/download_email.py:199-201 | A run completes exactly when every qualifying part's data decodes. |
| `Persister.SaveAllCounts` | SimpleVersion/download_email.py:189-206 | A completed run adds the number of qualifying parts to the counter. Its requests are one attachment fetch per qualifying part, in order, and nothing for any other part. |
| `Persister.LastWriteWins` | SimpleVersion/download_email.py:202-204 | In a completed run, a file holds the decoded bytes of the last qualifying part with that filename. A later attachment sharing the name overwrites an earlier one. |
| `Persister.Untouched` | SimpleVersion/download_email.py:202-204 | A file that no qualifying part is named after keeps its contents, or stays absent. |
| `LogVariant.GetLatestMessage` | SimpleVersion/DownloadEmailLog/download_email.py:34-43 | There is one search, with `maxResults=1`. The result is `None` exactly when that search is empty. Otherwise the result is the message whose id comes first, fetched with a single `get`. |
| `LogVariant.SaveAttachmentsFlat` | SimpleVersion/DownloadEmailLog/download_email.py:45-57 | The state is that of saving the payload's direct children in order. A payload without `parts` causes no request and no write. |
| `LogVariant.FlatSavesQualifyingChildren` | SimpleVersion/DownloadEmailLog/download_email.py:46-56 | A completed flat run counts exactly the qualifying direct children. It fetches one attachment for each of them, and for no other part. The payload is never one of the children. |
| `LogVariant.FlatWithinRecursive` | SimpleVersion/DownloadEmailLog/download_email.py:46 | Every attachment that the flat scan finds, the recursive walker of the newer version finds too. |
| `LogVariant.FlatMissesNested` | SimpleVersion/DownloadEmailLog/download_email.py:46 | In the contrast case, an attachment below a non-attachment child is found only by the recursive walker. The flat scan finds nothing. |

## Left out

- Authentication (`authenticate_gmail`: token pickle, refresh, local OAuth flow) is left out. It is a foreign library and file I/O.
- The module-level `os.makedirs` of the save folder is left out. The folder is a map and always exists.
- `debug_search` and its unconditional call at the start of `get_latest_messages` are left out. They are diagnostic searches and fetches whose results are only printed.
- All `print` output is left out, including the `datetime.fromtimestamp` formatting of timestamps, which uses floating point and the local time zone. Of the printed text, only the choice between the two final messages of `save_attachments` is modelled, as `Persister.Report`.
- `main()` and the `__main__` entry point are left out. They are plumbing that passes `num_messages=2` and then runs `save_attachments` on each message.
- `HttpError`, transport failures and missing response keys (`msg['payload']`, `att['data']`) are left out. The API is a total oracle, and a message always has a payload.
- The default arguments are left out. `num_messages=10` (`SimpleVersion/download_email.py:109`) is not modelled; the caller always passes `numMessages`. `user_id='me'` (`SimpleVersion/download_email.py:109`, `:181`; `SimpleVersion/DownloadEmailLog/download_email.py:34`, `:45`) is not modelled either: `Request` carries no user id, since every call goes to the authenticated user.
- Python's `int()` parsing of the `internalDate` string is left out. The timestamp is the integer the string denotes, and a malformed string raising `ValueError` is not modelled.
- The `format='full'` argument of message fetches is left out. The older version omits it and gets the API's default, which is the same format.
- Path handling by `os.path.join` is left out, for example a filename containing a separator or an absolute path. Files are keyed by the bare filename.
- `Base64Url.Decode` accepts only well-formed padded base64url and treats any other input as a decoding error. Python's lenient decoder also discards non-alphabet characters and accepts `+` and `/`. It also stops at the padding that completes a group and ignores the rest: `"AA==AAAA"` gives `b"\x00"` and `"===="` gives `b""`, where the model reports an error. `data.encode('UTF-8')` is the identity on the ASCII text being decoded.
- Name matching in `Gmail.FindHeader` lower-cases ASCII letters only. The one non-ASCII character whose Unicode lower-case form is a single ASCII letter is U+212A (KELVIN SIGN, to `k`). Since `k` occurs in neither `subject` nor `date`, the matches are the same.
- Python's recursion limit on very deep part trees (`RecursionError`) is left out.
- A decoding error raises out of `save_attachments` and ends the program. The model stops the run and records the failing filename. Files written before the error stay written.
- `Persister.SaveState.found` is also carried by the older flat scan, which keeps no counter. There it is never reported.
