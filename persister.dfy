/**
 * Saving attachments: each descriptor's data is fetched, decoded from
 * base64url and written into the save folder under its filename. The
 * folder is a map from filename to bytes, so a later write to the same
 * name replaces an earlier one. A data string that does not decode raises
 * in the source; here it stops the run with the filename recorded.
 */
module Persister {
  import opened Wrappers
  import opened Gmail
  import opened Base64Url
  import opened PartWalker

  /** The save folder: filename to file contents. */
  type Folder = map<string, seq<byte>>

  /**
   * What a run has done so far: the folder, the `attachments_found` counter,
   * the API requests issued, and the filename whose data failed to decode.
   */
  datatype SaveState = SaveState(folder: Folder, found: nat, requests: seq<Request>, error: Option<string>)

  function Start(folder: Folder): SaveState {
    SaveState(folder, 0, [], None)
  }

  /** The decoded data of a qualifying part of message `msgId`. */
  function Data(service: Service, msgId: MessageId, p: Part): Option<seq<byte>>
    requires Qualifies(p)
  {
    Decode(service.attachmentData(msgId, p.body.attachmentId.value))
  }

  /** The emit step for one part: a qualifying part is fetched, decoded and written. */
  function Visit(service: Service, msgId: MessageId, p: Part, st: SaveState): (r: SaveState)
    ensures st.error.Some? ==> r == st
    ensures r.error.None? ==> st.error.None?
    ensures st.requests <= r.requests && |r.requests| <= |st.requests| + 1
    ensures st.found <= r.found <= st.found + 1
    ensures forall name :: name in st.folder ==> name in r.folder
    ensures forall name :: name in r.folder && (!Qualifies(p) || name != p.filename.value) ==>
              name in st.folder && r.folder[name] == st.folder[name]
  {
    if st.error.Some? || !Qualifies(p) then st
    else
      var st1 := st.(requests := st.requests + [GetAttachment(msgId, p.body.attachmentId.value)]);
      match Data(service, msgId, p)
      case None => st1.(error := Some(p.filename.value))
      case Some(bytes) => st1.(folder := st1.folder[p.filename.value := bytes], found := st1.found + 1)
  }

  /** The emit step applied to each part of `ps` in order. */
  function SaveAll(service: Service, msgId: MessageId, ps: seq<Part>, st: SaveState): (r: SaveState)
    decreases |ps|
    ensures st.error.Some? ==> r == st
    ensures r.error.None? ==> st.error.None?
    ensures st.requests <= r.requests
    ensures st.found <= r.found
    ensures forall name :: name in st.folder ==> name in r.folder
  {
    if ps == [] then st else SaveAll(service, msgId, ps[1..], Visit(service, msgId, ps[0], st))
  }

  /** One attachment fetch per qualifying part of `ps`, in order. */
  function AttachmentRequests(msgId: MessageId, ps: seq<Part>): seq<Request> {
    if ps == [] then []
    else (if Qualifies(ps[0]) then [GetAttachment(msgId, ps[0].body.attachmentId.value)] else [])
         + AttachmentRequests(msgId, ps[1..])
  }

  // ---- Lemmas about the fold ----

  lemma {:induction false} SaveAllAppend(service: Service, msgId: MessageId, a: seq<Part>, b: seq<Part>, st: SaveState)
    ensures SaveAll(service, msgId, a + b, st) == SaveAll(service, msgId, b, SaveAll(service, msgId, a, st))
    decreases |a|
  {
    if a == [] {
      assert a + b == b;
    } else {
      assert (a + b)[1..] == a[1..] + b;
      SaveAllAppend(service, msgId, a[1..], b, Visit(service, msgId, a[0], st));
    }
  }

  /** Saving the first `i + 1` parts is saving the first `i`, then visiting part `i`. */
  lemma SaveAllSnoc(service: Service, msgId: MessageId, ps: seq<Part>, i: nat, st: SaveState)
    requires i < |ps|
    ensures SaveAll(service, msgId, ps[..i + 1], st)
         == Visit(service, msgId, ps[i], SaveAll(service, msgId, ps[..i], st))
  {
    assert ps[..i + 1] == ps[..i] + [ps[i]];
    SaveAllAppend(service, msgId, ps[..i], [ps[i]], st);
  }

  /** A run completes exactly when every qualifying part's data decodes. */
  lemma {:induction false} SaveAllCompletes(service: Service, msgId: MessageId, ps: seq<Part>, st: SaveState)
    requires st.error.None?
    ensures SaveAll(service, msgId, ps, st).error.None? <==>
              forall i :: 0 <= i < |ps| && Qualifies(ps[i]) ==> Data(service, msgId, ps[i]).Some?
    decreases |ps|
  {
    if ps != [] {
      var st1 := Visit(service, msgId, ps[0], st);
      if st1.error.None? {
        SaveAllCompletes(service, msgId, ps[1..], st1);
        assert forall i :: 1 <= i < |ps| ==> ps[i] == ps[1..][i - 1];
      }
    }
  }

  /**
   * A completed run has counted and fetched each qualifying part once, in
   * order, and nothing else.
   */
  lemma {:induction false} SaveAllCounts(service: Service, msgId: MessageId, ps: seq<Part>, st: SaveState)
    requires st.error.None?
    requires SaveAll(service, msgId, ps, st).error.None?
    ensures SaveAll(service, msgId, ps, st).found == st.found + |Qualifying(ps)|
    ensures SaveAll(service, msgId, ps, st).requests == st.requests + AttachmentRequests(msgId, ps)
    decreases |ps|
  {
    if ps != [] {
      var st1 := Visit(service, msgId, ps[0], st);
      assert SaveAll(service, msgId, ps, st) == SaveAll(service, msgId, ps[1..], st1);
      SaveAllCounts(service, msgId, ps[1..], st1);
    }
  }

  /**
   * The last qualifying part with a given filename decides that file's
   * contents: later writes to a shared name overwrite earlier ones.
   */
  lemma {:induction false} LastWriteWins(service: Service, msgId: MessageId, ps: seq<Part>, st: SaveState, i: nat)
    requires i < |ps| && Qualifies(ps[i])
    requires forall j :: i < j < |ps| && Qualifies(ps[j]) ==> ps[j].filename != ps[i].filename
    requires SaveAll(service, msgId, ps, st).error.None?
    ensures Data(service, msgId, ps[i]).Some?
    ensures ps[i].filename.value in SaveAll(service, msgId, ps, st).folder
    ensures SaveAll(service, msgId, ps, st).folder[ps[i].filename.value] == Data(service, msgId, ps[i]).value
    decreases |ps|
  {
    var st1 := Visit(service, msgId, ps[0], st);
    if i == 0 {
      Untouched(service, msgId, ps[1..], st1, ps[0].filename.value);
    } else {
      LastWriteWins(service, msgId, ps[1..], st1, i - 1);
    }
  }

  /** A file no qualifying part is named after keeps its contents, or stays absent. */
  lemma {:induction false} Untouched(service: Service, msgId: MessageId, ps: seq<Part>, st: SaveState, name: string)
    requires forall j :: 0 <= j < |ps| && Qualifies(ps[j]) ==> ps[j].filename != Some(name)
    ensures name in SaveAll(service, msgId, ps, st).folder <==> name in st.folder
    ensures name in st.folder ==> SaveAll(service, msgId, ps, st).folder[name] == st.folder[name]
    decreases |ps|
  {
    if ps != [] {
      Untouched(service, msgId, ps[1..], Visit(service, msgId, ps[0], st), name);
    }
  }

  // ---- The imperative walk ----

  /** Fetch, decode and write one attachment descriptor. */
  method SaveAttachment(service: Service, msgId: MessageId, part: Part, st: SaveState) returns (st': SaveState)
    requires Qualifies(part) && st.error.None?
    ensures st' == Visit(service, msgId, part, st)
  {
    var attId := part.body.attachmentId.value;
    var data := service.attachmentData(msgId, attId);
    st' := st.(requests := st.requests + [GetAttachment(msgId, attId)]);
    var fileData := Decode(data);
    if fileData.None? {
      st' := st'.(error := Some(part.filename.value));
      return;
    }
    st' := st'.(folder := st'.folder[part.filename.value := fileData.value], found := st'.found + 1);
  }

  /**
   * `process_part`: the emit check on `part`, then, whatever it decided, the
   * same for each child in order. The counter and the folder are threaded
   * through the state.
   */
  method ProcessPart(service: Service, msgId: MessageId, part: Part, st: SaveState) returns (st': SaveState)
    requires st.error.None?
    ensures st' == SaveAll(service, msgId, Walk(part), st)
    decreases part, 1
  {
    WalkSteps(service, msgId, part, st);
    st' := st;
    if Qualifies(part) {
      st' := SaveAttachment(service, msgId, part, st);
      if st'.error.Some? {
        return;
      }
    }
    match part.parts {
      case Absent =>
      case Present(cs) =>
        st' := ProcessEach(service, msgId, cs, st');
    }
  }

  /** The loop `for subpart in parts: process_part(subpart)`, stopped by a decoding error. */
  method ProcessEach(service: Service, msgId: MessageId, cs: seq<Part>, st: SaveState) returns (st': SaveState)
    requires st.error.None?
    ensures st' == SaveAll(service, msgId, WalkAll(cs), st)
    decreases cs, 0
  {
    st' := st;
    var i := 0;
    while i < |cs|
      invariant 0 <= i <= |cs|
      invariant st'.error.None?
      invariant st' == SaveAll(service, msgId, WalkAll(cs[..i]), st)
    {
      st' := ProcessPart(service, msgId, cs[i], st');
      ChildStep(service, msgId, cs, i, st);
      if st'.error.Some? {
        RestSkipped(service, msgId, cs, i + 1, st);
        return;
      }
      i := i + 1;
    }
    assert cs[..i] == cs;
  }

  lemma WalkSteps(service: Service, msgId: MessageId, part: Part, st: SaveState)
    ensures SaveAll(service, msgId, Walk(part), st)
         == SaveAll(service, msgId, WalkAll(Subparts(part)), Visit(service, msgId, part, st))
  {
    var emitted := if Qualifies(part) then [part] else [];
    assert Walk(part) == emitted + WalkAll(Subparts(part));
    SaveAllAppend(service, msgId, emitted, WalkAll(Subparts(part)), st);
  }

  lemma ChildStep(service: Service, msgId: MessageId, cs: seq<Part>, i: nat, st: SaveState)
    requires i < |cs|
    ensures SaveAll(service, msgId, WalkAll(cs[..i + 1]), st)
         == SaveAll(service, msgId, Walk(cs[i]), SaveAll(service, msgId, WalkAll(cs[..i]), st))
  {
    WalkAllSnoc(cs, i);
    SaveAllAppend(service, msgId, WalkAll(cs[..i]), Walk(cs[i]), st);
  }

  lemma RestSkipped(service: Service, msgId: MessageId, cs: seq<Part>, k: nat, st: SaveState)
    requires k <= |cs|
    requires SaveAll(service, msgId, WalkAll(cs[..k]), st).error.Some?
    ensures SaveAll(service, msgId, WalkAll(cs), st) == SaveAll(service, msgId, WalkAll(cs[..k]), st)
  {
    WalkAllSplit(cs, k);
    SaveAllAppend(service, msgId, WalkAll(cs[..k]), WalkAll(cs[k..]), st);
  }

  lemma {:induction false} WalkAllSplit(ps: seq<Part>, k: nat)
    requires k <= |ps|
    ensures WalkAll(ps) == WalkAll(ps[..k]) + WalkAll(ps[k..])
  {
    if k > 0 {
      assert ps[..k][1..] == ps[1..][..k - 1];
      assert ps[k..] == ps[1..][k - 1..];
      WalkAllSplit(ps[1..], k - 1);
    }
  }

  lemma WalkAllSnoc(ps: seq<Part>, i: nat)
    requires i < |ps|
    ensures WalkAll(ps[..i + 1]) == WalkAll(ps[..i]) + Walk(ps[i])
  {
    var pre := ps[..i + 1];
    WalkAllSplit(pre, i);
    assert pre[..i] == ps[..i];
    assert pre[i..] == [ps[i]];
  }

  /** The two messages `save_attachments` prints at the end of a run, or the error that ends it. */
  datatype Report = NoAttachments | TotalSaved(count: nat) | DecodeFailed(filename: string)

  /**
   * `save_attachments(msg)`: the root dispatch over the payload, then the
   * report. The "no attachments" report is given exactly when the run
   * completes and the payload has no candidate.
   */
  method SaveAttachments(service: Service, msg: Message, folder: Folder) returns (st: SaveState, report: Report)
    ensures st == SaveAll(service, msg.id, Candidates(msg.payload), Start(folder))
    ensures report.DecodeFailed? <==> st.error.Some?
    ensures report.DecodeFailed? ==> st.error == Some(report.filename)
    ensures report == NoAttachments <==> st.error.None? && Candidates(msg.payload) == []
    ensures report.TotalSaved? ==> report.count == |Candidates(msg.payload)| > 0
    ensures st.error.None? ==> st.found == |Candidates(msg.payload)|
  {
    var payload := msg.payload;
    st := Start(folder);
    match payload.parts {
      case Present(ps) =>
        st := ProcessEach(service, msg.id, ps, st);
      case Absent =>
        st := ProcessPart(service, msg.id, payload, st);
    }
    CandidatesQualify(payload);
    if st.error.None? {
      SaveAllCounts(service, msg.id, Candidates(payload), Start(folder));
    }
    if st.error.Some? {
      report := DecodeFailed(st.error.value);
    } else if st.found == 0 {
      report := NoAttachments;
    } else {
      report := TotalSaved(st.found);
    }
  }
}
