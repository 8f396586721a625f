/**
 * The older downloader in `DownloadEmailLog/`: one fixed query asking for a
 * single result, and a flat scan of the payload's direct children.
 */
module LogVariant {
  import opened Wrappers
  import opened Gmail
  import opened PartWalker
  import opened Persister

  /** The one query of the older downloader (the first pattern of the newer chain). */
  const LogQuery: string := "subject:\"Latest Log File\" has:attachment"

  /**
   * `get_latest_message`: a search with `maxResults=1`; `None` exactly when it
   * returns nothing, otherwise the message whose id comes first.
   */
  method GetLatestMessage(service: Service) returns (msg: Option<Message>, requests: seq<Request>)
    ensures msg.None? <==> service.list(LogQuery, 1) == []
    ensures msg.Some? ==> msg.value == service.get(service.list(LogQuery, 1)[0])
    ensures requests == [List(LogQuery, 1)] + (if msg.Some? then [Get(service.list(LogQuery, 1)[0])] else [])
  {
    var messages := service.list(LogQuery, 1);
    requests := [List(LogQuery, 1)];
    if messages == [] {
      return None, requests;
    }
    var msgId := messages[0];
    requests := requests + [Get(msgId)];
    msg := Some(service.get(msgId));
  }

  /**
   * `save_attachments` of the older downloader: each direct child of the
   * payload that qualifies is saved; nested parts and the payload itself
   * are never looked at.
   */
  method SaveAttachmentsFlat(service: Service, msg: Message, folder: Folder) returns (st: SaveState)
    ensures st == SaveAll(service, msg.id, Subparts(msg.payload), Start(folder))
    ensures msg.payload.parts.Absent? ==> st == Start(folder)
  {
    var ps := Subparts(msg.payload);
    st := Start(folder);
    var i := 0;
    while i < |ps|
      invariant 0 <= i <= |ps|
      invariant st.error.None?
      invariant st == SaveAll(service, msg.id, ps[..i], Start(folder))
    {
      var part := ps[i];
      if Qualifies(part) {
        st := SaveAttachment(service, msg.id, part, st);
      }
      SaveAllSnoc(service, msg.id, ps, i, Start(folder));
      if st.error.Some? {
        assert ps == ps[..i + 1] + ps[i + 1..];
        SaveAllAppend(service, msg.id, ps[..i + 1], ps[i + 1..], Start(folder));
        return;
      }
      i := i + 1;
    }
    assert ps[..i] == ps;
  }


  /**
   * A completed flat run fetches and writes exactly the qualifying direct
   * children, in order; the payload itself is never one of them.
   */
  lemma FlatSavesQualifyingChildren(service: Service, msg: Message, folder: Folder)
    requires SaveAll(service, msg.id, Subparts(msg.payload), Start(folder)).error.None?
    ensures SaveAll(service, msg.id, Subparts(msg.payload), Start(folder)).found == |Qualifying(Subparts(msg.payload))|
    ensures SaveAll(service, msg.id, Subparts(msg.payload), Start(folder)).requests
         == AttachmentRequests(msg.id, Subparts(msg.payload))
    ensures msg.payload !in Subparts(msg.payload)
  {
    SaveAllCounts(service, msg.id, Subparts(msg.payload), Start(folder));
  }

  /** Every attachment the flat scan finds, the recursive walker finds too. */
  lemma FlatWithinRecursive(payload: Part, x: Part)
    requires x in Qualifying(Subparts(payload))
    ensures x in Candidates(payload)
  {
    match payload.parts {
      case Present(cs) =>
        var i :| 0 <= i < |cs| && cs[i] == x;
        WalkAllEmitsExactly(cs, x);
      case Absent =>
    }
  }

  /**
   * The scans differ: an attachment one level down, under a child that is not
   * itself an attachment, is found by the recursive walker only.
   */
  lemma FlatMissesNested(att: Part, wrapper: Part, payload: Part)
    requires Qualifies(att) && att.parts.Absent?
    requires wrapper == Part(None, Body(None), [], Present([att]))
    requires payload == Part(None, Body(None), [], Present([wrapper]))
    ensures Qualifying(Subparts(payload)) == []
    ensures Candidates(payload) == [att]
  {
    assert Walk(att) == [att];
    assert WalkAll([att]) == [att] + WalkAll([]);
    assert Walk(wrapper) == [] + WalkAll([att]);
    assert WalkAll([wrapper]) == Walk(wrapper) + WalkAll([]);
  }
}
