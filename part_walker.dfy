/**
 * The part-tree walker of `save_attachments`: which parts of a message's
 * payload are attachment descriptors, and in which order they are reached.
 */
module PartWalker {
  import opened Wrappers
  import opened Gmail

  /**
   * `filename and 'attachmentId' in body`: a non-empty filename and an
   * attachment id. A missing filename and the empty filename are both falsy.
   */
  predicate Qualifies(p: Part)
    ensures p.filename.None? ==> !Qualifies(p)
    ensures p.filename == Some("") ==> !Qualifies(p)
    ensures p.body.attachmentId.None? ==> !Qualifies(p)
    ensures p.filename.Some? && |p.filename.value| > 0 && p.body.attachmentId.Some? ==> Qualifies(p)
  {
    p.filename.Some? && p.filename.value != "" && p.body.attachmentId.Some?
  }

  /**
   * What `process_part(p)` emits: `p` itself when it qualifies, then,
   * independently of that, what its children emit, in list order.
   */
  function Walk(p: Part): (r: seq<Part>)
    decreases p, 1
    ensures forall x :: x in r ==> Qualifies(x)
    ensures Qualifies(p) ==> r != [] && r[0] == p
  {
    (if Qualifies(p) then [p] else []) +
    (match p.parts
     case Absent => []
     case Present(cs) => WalkAll(cs))
  }

  /** What `process_part` emits over a list of sibling parts. */
  function WalkAll(ps: seq<Part>): (r: seq<Part>)
    decreases ps, 0
    ensures forall x :: x in r ==> Qualifies(x)
    ensures forall i :: 0 <= i < |ps| && Qualifies(ps[i]) ==> ps[i] in r
  {
    if ps == [] then [] else Walk(ps[0]) + WalkAll(ps[1..])
  }

  /** The `parts` list of `p`, empty when the key is missing. */
  function Subparts(p: Part): seq<Part> {
    match p.parts
    case Absent => []
    case Present(cs) => cs
  }

  /**
   * The root dispatch: a payload with a `parts` key hands only its children to
   * `process_part`; a payload without one is processed as a single part.
   */
  function Candidates(payload: Part): (r: seq<Part>)
    ensures forall x :: x in r ==> Qualifies(x)
    ensures payload.parts.Present? ==>
              forall i :: 0 <= i < |payload.parts.list| && Qualifies(payload.parts.list[i]) ==> payload.parts.list[i] in r
  {
    match payload.parts
    case Present(cs) => WalkAll(cs)
    case Absent => Walk(payload)
  }

  // ---- Reference definitions: every node in pre-order, and the subtree relation ----

  /** Every node of the tree rooted at `p`, each once, in depth-first pre-order. */
  function PreOrder(p: Part): seq<Part>
    decreases p, 1
  {
    [p] + (match p.parts
           case Absent => []
           case Present(cs) => PreOrderAll(cs))
  }

  function PreOrderAll(ps: seq<Part>): seq<Part>
    decreases ps, 0
  {
    if ps == [] then [] else PreOrder(ps[0]) + PreOrderAll(ps[1..])
  }

  /** The parts of `s` that qualify, in their order in `s`. */
  function Qualifying(s: seq<Part>): (r: seq<Part>)
    ensures |r| <= |s|
    ensures forall x :: x in r <==> x in s && Qualifies(x)
  {
    if s == [] then [] else (if Qualifies(s[0]) then [s[0]] else []) + Qualifying(s[1..])
  }

  /** `x` is `p` or a part nested, at any depth, below `p`. */
  predicate Within(x: Part, p: Part)
    decreases p
  {
    x == p ||
    match p.parts
    case Absent => false
    case Present(cs) => exists i :: 0 <= i < |cs| && Within(x, cs[i])
  }

  // ---- Lemmas ----

  lemma {:induction false} QualifyingAppend(a: seq<Part>, b: seq<Part>)
    ensures Qualifying(a + b) == Qualifying(a) + Qualifying(b)
  {
    if a == [] {
      assert a + b == b;
    } else {
      assert (a + b)[1..] == a[1..] + b;
      QualifyingAppend(a[1..], b);
    }
  }

  /**
   * The walker emits exactly the qualifying nodes of the pre-order listing,
   * in that order: a qualifying part is followed by what its children emit.
   */
  lemma {:induction false} WalkIsQualifyingPreOrder(p: Part)
    ensures Walk(p) == Qualifying(PreOrder(p))
    decreases p, 1
  {
    var rest := match p.parts case Absent => [] case Present(cs) => PreOrderAll(cs);
    match p.parts {
      case Absent =>
      case Present(cs) => WalkAllIsQualifyingPreOrder(cs);
    }
    assert PreOrder(p) == [p] + rest;
    QualifyingAppend([p], rest);
  }

  lemma {:induction false} WalkAllIsQualifyingPreOrder(ps: seq<Part>)
    ensures WalkAll(ps) == Qualifying(PreOrderAll(ps))
    decreases ps, 0
  {
    if ps != [] {
      WalkIsQualifyingPreOrder(ps[0]);
      WalkAllIsQualifyingPreOrder(ps[1..]);
      QualifyingAppend(PreOrder(ps[0]), PreOrderAll(ps[1..]));
    }
  }

  /** A part is emitted for `p` exactly when it lies in `p`'s subtree and qualifies. */
  lemma {:induction false} WalkEmitsExactly(p: Part, x: Part)
    ensures x in Walk(p) <==> Within(x, p) && Qualifies(x)
    decreases p, 1
  {
    match p.parts {
      case Absent =>
      case Present(cs) =>
        WalkAllEmitsExactly(cs, x);
    }
  }

  lemma {:induction false} WalkAllEmitsExactly(ps: seq<Part>, x: Part)
    ensures x in WalkAll(ps) <==> Qualifies(x) && exists i :: 0 <= i < |ps| && Within(x, ps[i])
    decreases ps, 0
  {
    if ps != [] {
      WalkEmitsExactly(ps[0], x);
      WalkAllEmitsExactly(ps[1..], x);
      if Qualifies(x) && Within(x, ps[0]) {
        assert exists i :: 0 <= i < |ps| && Within(x, ps[i]);
      }
      if exists i :: 0 <= i < |ps[1..]| && Within(x, ps[1..][i]) {
        var i :| 0 <= i < |ps[1..]| && Within(x, ps[1..][i]);
        assert Within(x, ps[i + 1]);
      }
      if exists i :: 0 <= i < |ps| && Within(x, ps[i]) {
        var i :| 0 <= i < |ps| && Within(x, ps[i]);
        if i > 0 {
          assert Within(x, ps[1..][i - 1]);
        }
      }
    }
  }

  /** Parts below `p` are structurally smaller than `p`. */
  lemma {:induction false} WithinIsBelow(x: Part, p: Part)
    requires Within(x, p)
    ensures x == p || x < p
    decreases p
  {
    if x != p {
      match p.parts {
        case Present(cs) =>
          var i :| 0 <= i < |cs| && Within(x, cs[i]);
          WithinIsBelow(x, cs[i]);
      }
    }
  }

  /**
   * A payload with a `parts` key is never itself a candidate: the candidates
   * are exactly the qualifying parts strictly inside it.
   */
  lemma RootWithPartsExcluded(payload: Part, x: Part)
    requires payload.parts.Present?
    ensures payload !in Candidates(payload)
    ensures x in Candidates(payload) <==>
              Qualifies(x) && exists i :: 0 <= i < |payload.parts.list| && Within(x, payload.parts.list[i])
  {
    var cs := payload.parts.list;
    WalkAllEmitsExactly(cs, x);
    WalkAllEmitsExactly(cs, payload);
    if payload in Candidates(payload) {
      var i :| 0 <= i < |cs| && Within(payload, cs[i]);
      WithinIsBelow(payload, cs[i]);
      assert false;
    }
  }

  /** A payload without a `parts` key is processed as a single part. */
  lemma RootWithoutParts(payload: Part)
    requires payload.parts.Absent?
    ensures Candidates(payload) == if Qualifies(payload) then [payload] else []
  {
  }

  /** Every candidate qualifies, and the candidates are listed in tree pre-order. */
  lemma {:induction false} CandidatesQualify(payload: Part)
    ensures Qualifying(Candidates(payload)) == Candidates(payload)
    ensures Candidates(payload) == Qualifying(match payload.parts case Absent => PreOrder(payload)
                                                                 case Present(cs) => PreOrderAll(cs))
  {
    match payload.parts {
      case Absent => WalkIsQualifyingPreOrder(payload);
        QualifyingIdempotent(PreOrder(payload));
      case Present(cs) => WalkAllIsQualifyingPreOrder(cs);
        QualifyingIdempotent(PreOrderAll(cs));
    }
  }

  lemma {:induction false} QualifyingIdempotent(s: seq<Part>)
    ensures Qualifying(Qualifying(s)) == Qualifying(s)
  {
    if s != [] {
      QualifyingIdempotent(s[1..]);
      QualifyingAppend(if Qualifies(s[0]) then [s[0]] else [], Qualifying(s[1..]));
    }
  }
}
