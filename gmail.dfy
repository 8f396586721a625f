/**
 * The hosted mail API as the downloader sees it: message and part records
 * (the JSON objects the API returns, with only the keys the downloader
 * reads), the three calls it makes, and the header lookup it applies to a
 * payload's headers.
 */
module Gmail {
  import opened Wrappers

  type MessageId = string
  type AttachmentId = string

  datatype Header = Header(name: string, value: string)

  /** A part's `body`. A part without `body` behaves as one whose body has no `attachmentId`. */
  datatype Body = Body(attachmentId: Option<AttachmentId>)

  /**
   * One node of a message's part tree. `filename` is `None` when the key is
   * missing; `parts` records whether the `parts` key is present at all,
   * since a present but empty list and a missing key are handled differently.
   */
  datatype Part = Part(filename: Option<string>, body: Body, headers: seq<Header>, parts: PartsKey)

  datatype PartsKey = Absent | Present(list: seq<Part>)

  /** A fetched message; `internalDate` is the timestamp in milliseconds, `None` when the key is missing. */
  datatype Message = Message(id: MessageId, payload: Part, internalDate: Option<int>)

  /** The API calls the downloader issues, in the order it issues them. */
  datatype Request =
    | List(query: string, maxResults: nat)
    | Get(id: MessageId)
    | GetAttachment(messageId: MessageId, attachmentId: AttachmentId)

  /**
   * The API as an oracle: `list` answers a search (the ids of the `messages`
   * field, empty when the field is missing), `get` a message fetch and
   * `attachmentData` the `data` field of an attachment fetch.
   */
  datatype Service = Service(
    list: (string, nat) -> seq<MessageId>,
    get: MessageId -> Message,
    attachmentData: (MessageId, AttachmentId) -> string)

  /** ASCII lower-casing of one character: upper-case letters move down by 32, all else stays. */
  function LowerChar(c: char): (r: char)
    ensures !('A' <= r <= 'Z')
    ensures !('A' <= c <= 'Z') ==> r == c
    ensures 'A' <= c <= 'Z' ==> 'a' <= r <= 'z' && r as int - c as int == 'a' as int - 'A' as int
  {
    if 'A' <= c <= 'Z' then (c as int + 32) as char else c
  }

  /** Lower-casing of a header name (ASCII letters only). */
  function Lower(s: string): (r: string)
    ensures |r| == |s|
    ensures forall i :: 0 <= i < |r| ==> !('A' <= r[i] <= 'Z')
    ensures forall i :: 0 <= i < |s| && !('A' <= s[i] <= 'Z') ==> r[i] == s[i]
    ensures forall i :: 0 <= i < |s| && 'A' <= s[i] <= 'Z' ==> r[i] as int == s[i] as int + 32
  {
    seq(|s|, i requires 0 <= i < |s| => LowerChar(s[i]))
  }

  predicate NameIs(h: Header, name: string) {
    Lower(h.name) == name
  }

  /** Position of the first header whose lower-cased name is `name`. */
  function FindHeader(headers: seq<Header>, name: string): (r: Option<nat>)
    ensures r.Some? ==> r.value < |headers| && NameIs(headers[r.value], name)
    ensures r.Some? ==> forall j :: 0 <= j < r.value ==> !NameIs(headers[j], name)
    ensures r.None? <==> forall j :: 0 <= j < |headers| ==> !NameIs(headers[j], name)
  {
    if headers == [] then None
    else if NameIs(headers[0], name) then Some(0)
    else
      match FindHeader(headers[1..], name)
      case None => None
      case Some(k) => Some(k + 1)
  }

  /**
   * `next((h['value'] for h in headers if h['name'].lower() == name), default)`:
   * the value of the first matching header, or `default` when none matches.
   */
  function HeaderValue(headers: seq<Header>, name: string, default: string): (r: string)
    ensures forall i :: 0 <= i < |headers| && NameIs(headers[i], name) &&
                        (forall j :: 0 <= j < i ==> !NameIs(headers[j], name))
                        ==> r == headers[i].value
    ensures (forall j :: 0 <= j < |headers| ==> !NameIs(headers[j], name)) ==> r == default
  {
    match FindHeader(headers, name)
    case Some(k) => headers[k].value
    case None => default
  }

  /** The subject shown for a message, `'No Subject'` when it has none. */
  function Subject(m: Message): (r: string)
    ensures forall i :: 0 <= i < |m.payload.headers| && NameIs(m.payload.headers[i], "subject") &&
                        (forall j :: 0 <= j < i ==> !NameIs(m.payload.headers[j], "subject"))
                        ==> r == m.payload.headers[i].value
    ensures (forall j :: 0 <= j < |m.payload.headers| ==> !NameIs(m.payload.headers[j], "subject")) ==> r == "No Subject"
  {
    HeaderValue(m.payload.headers, "subject", "No Subject")
  }

  /** The date header shown for a message, `'No Date'` when it has none. */
  function DateHeader(m: Message): (r: string)
    ensures forall i :: 0 <= i < |m.payload.headers| && NameIs(m.payload.headers[i], "date") &&
                        (forall j :: 0 <= j < i ==> !NameIs(m.payload.headers[j], "date"))
                        ==> r == m.payload.headers[i].value
    ensures (forall j :: 0 <= j < |m.payload.headers| ==> !NameIs(m.payload.headers[j], "date")) ==> r == "No Date"
  {
    HeaderValue(m.payload.headers, "date", "No Date")
  }

  /**
   * The lookup sees header names only through lower-casing: headers whose
   * names differ only in letter case give the same match and the same value.
   */
  lemma {:induction false} LookupIgnoresCase(hs: seq<Header>, gs: seq<Header>, name: string, default: string)
    requires |hs| == |gs|
    requires forall i :: 0 <= i < |hs| ==> Lower(hs[i].name) == Lower(gs[i].name) && hs[i].value == gs[i].value
    ensures FindHeader(hs, name) == FindHeader(gs, name)
    ensures HeaderValue(hs, name, default) == HeaderValue(gs, name, default)
  {
    if hs != [] {
      LookupIgnoresCase(hs[1..], gs[1..], name, default);
    }
  }
}
