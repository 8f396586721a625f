/**
 * `get_latest_messages`: the fallback search chain, the fetch loop that
 * stamps each message with its integer timestamp, and the ranking.
 */
module Retrieval {
  import opened Wrappers
  import opened Gmail
  import opened Recency

  /** The fallback chain, most specific query first. */
  const SearchPatterns: seq<string> := [
    "subject:\"Latest Log File\" has:attachment",
    "subject:\"Latest Log Files\" has:attachment",
    "subject:latest subject:log has:attachment",
    "subject:log has:attachment",
    "has:attachment"
  ]

  /** The `maxResults` of every search of the chain. */
  const SearchLimit: nat := 50

  /** Position of the first pattern whose search returns at least one id. */
  function FirstHit(service: Service, patterns: seq<string>, maxResults: nat): (r: Option<nat>)
    ensures r.Some? ==> r.value < |patterns| && service.list(patterns[r.value], maxResults) != []
    ensures r.Some? ==> forall j :: 0 <= j < r.value ==> service.list(patterns[j], maxResults) == []
    ensures r.None? <==> forall j :: 0 <= j < |patterns| ==> service.list(patterns[j], maxResults) == []
  {
    if patterns == [] then None
    else if service.list(patterns[0], maxResults) != [] then Some(0)
    else
      match FirstHit(service, patterns[1..], maxResults)
      case None => None
      case Some(k) => Some(k + 1)
  }

  /** The patterns the chain sends: up to and including the first hit, or all of them. */
  function Tried(service: Service, patterns: seq<string>, maxResults: nat): seq<string> {
    match FirstHit(service, patterns, maxResults)
    case Some(k) => patterns[..k + 1]
    case None => patterns
  }

  /** The ids the chain settles on: those of the first hit, or none. */
  function Matched(service: Service, patterns: seq<string>, maxResults: nat): seq<MessageId> {
    match FirstHit(service, patterns, maxResults)
    case Some(k) => service.list(patterns[k], maxResults)
    case None => []
  }

  function ListRequests(patterns: seq<string>, maxResults: nat): seq<Request> {
    seq(|patterns|, i requires 0 <= i < |patterns| => List(patterns[i], maxResults))
  }

  function GetRequests(ids: seq<MessageId>): seq<Request> {
    seq(|ids|, i requires 0 <= i < |ids| => Get(ids[i]))
  }

  /** The fetched messages, stamped, in fetch order. */
  function Fetched(service: Service, ids: seq<MessageId>): seq<Stamped> {
    seq(|ids|, i requires 0 <= i < |ids| => Stamp(service.get(ids[i])))
  }

  /**
   * The `for pattern in search_patterns: ... break` loop. The source reads
   * `messages` after the loop, so it needs at least one pattern.
   */
  method SearchFallback(service: Service, patterns: seq<string>, maxResults: nat)
    returns (ids: seq<MessageId>, requests: seq<Request>)
    requires patterns != []
    ensures requests == ListRequests(Tried(service, patterns, maxResults), maxResults)
    ensures ids == Matched(service, patterns, maxResults)
    ensures ids == [] <==> forall j :: 0 <= j < |patterns| ==> service.list(patterns[j], maxResults) == []
  {
    requests := [];
    ids := [];
    var k := 0;
    while k < |patterns|
      invariant 0 <= k <= |patterns|
      invariant ids == []
      invariant forall j :: 0 <= j < k ==> service.list(patterns[j], maxResults) == []
      invariant requests == ListRequests(patterns[..k], maxResults)
    {
      ids := service.list(patterns[k], maxResults);
      requests := requests + [List(patterns[k], maxResults)];
      if ids != [] {
        assert FirstHit(service, patterns, maxResults) == Some(k);
        assert requests == ListRequests(patterns[..k + 1], maxResults);
        return;
      }
      k := k + 1;
    }
    assert patterns[..k] == patterns;
  }

  /** The fetch loop: one `get` per id, in order, each result stamped. */
  method FetchAll(service: Service, ids: seq<MessageId>) returns (fetched: seq<Stamped>, requests: seq<Request>)
    ensures |fetched| == |ids|
    ensures forall i :: 0 <= i < |ids| ==> fetched[i] == Stamp(service.get(ids[i]))
    ensures requests == GetRequests(ids)
  {
    fetched := [];
    requests := [];
    for i := 0 to |ids|
      invariant |fetched| == i
      invariant forall j :: 0 <= j < i ==> fetched[j] == Stamp(service.get(ids[j]))
      invariant requests == GetRequests(ids[..i])
    {
      var full := service.get(ids[i]);
      fetched := fetched + [Stamp(full)];
      requests := requests + [Get(ids[i])];
    }
    assert ids[..|ids|] == ids;
  }

  /** The ranked result: the matched messages, stamped, newest first, cut to `numMessages`. */
  function Latest(service: Service, numMessages: int): seq<Stamped> {
    Take(NewestFirst(Fetched(service, Matched(service, SearchPatterns, SearchLimit))), numMessages)
  }

  /**
   * `get_latest_messages(service, num_messages)`: search through the chain,
   * fetch every matched message, sort newest first and keep the first
   * `numMessages` (Python slice semantics). No message is fetched when every
   * pattern comes back empty.
   */
  method GetLatestMessages(service: Service, numMessages: int) returns (latest: seq<Stamped>, requests: seq<Request>)
    ensures requests == ListRequests(Tried(service, SearchPatterns, SearchLimit), SearchLimit)
                        + GetRequests(Matched(service, SearchPatterns, SearchLimit))
    ensures latest == Latest(service, numMessages)
    ensures Matched(service, SearchPatterns, SearchLimit) == [] ==> latest == [] && |requests| == |SearchPatterns|
  {
    var ids;
    ids, requests := SearchFallback(service, SearchPatterns, SearchLimit);
    if ids == [] {
      latest := [];
      assert GetRequests(ids) == [];
      return;
    }
    var fetched, fetches := FetchAll(service, ids);
    requests := requests + fetches;
    assert fetched == Fetched(service, ids);
    latest := Take(NewestFirst(fetched), numMessages);
  }

  /**
   * What `get_latest_messages` promises of its result: at most `numMessages`
   * messages (when it is not negative) and no more than were matched, each a
   * fetched one, newest first, and equal timestamps in fetch order.
   */
  lemma LatestProperties(service: Service, numMessages: int)
    ensures 0 <= numMessages ==> |Latest(service, numMessages)| <= numMessages
    ensures |Latest(service, numMessages)| <= |Matched(service, SearchPatterns, SearchLimit)|
    ensures multiset(Latest(service, numMessages)) <= multiset(Fetched(service, Matched(service, SearchPatterns, SearchLimit)))
    ensures NewestFirstOrdered(Latest(service, numMessages))
    ensures forall k :: WithDate(Latest(service, numMessages), k)
                        <= WithDate(Fetched(service, Matched(service, SearchPatterns, SearchLimit)), k)
  {
    TopNewest(Fetched(service, Matched(service, SearchPatterns, SearchLimit)), numMessages);
  }
}
