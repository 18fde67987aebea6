/**
 The checks an event passes before consensus sees it, and why they make the event graph well-formed.
 */
module EventChecks {
  import opened Common
  import opened Dag

  datatype ParentsVerdict =
    | ParentsOk
    | ErrWrongLamport
    | ErrDoubleParents
    | ErrWrongSelfParent
    | ErrWrongSeq
    | ErrPastTime

  /** What the basic check leaves true of the fields consensus uses. */
  predicate Inited(e: Event)
  {
    e.seqNo >= 1 && e.lamport >= 1 && e.frame >= 1 && e.claimedTime >= 1 && (e.seqNo > 1 ==> |e.parents| > 0)
  }

  /** The Lamport time is one more than the highest among the parents. */
  ghost predicate LamportRight(e: Event, parents: seq<Event>)
  {
    && (forall p | p in parents :: p.lamport < e.lamport)
    && (if parents == [] then e.lamport == 1 else exists p | p in parents :: p.lamport + 1 == e.lamport)
  }

  /** Exactly the self-parent is by the creator. */
  ghost predicate SelfParentRight(e: Event, parents: seq<Event>)
    requires |parents| == |e.parents|
  {
    forall i {:trigger parents[i]} | 0 <= i < |parents| ::
      parents[i].creator == e.creator <==> e.IsSelfParent(e.parents[i])
  }

  /** The verdict, in the order of the checks. */
  ghost function VerdictOnParents(e: Event, parents: seq<Event>): (v: ParentsVerdict)
    requires |parents| == |e.parents|
  {
    if !LamportRight(e, parents) then ErrWrongLamport
    else if exists i, j | 0 <= i < j < |parents| :: e.parents[i] == e.parents[j] then ErrDoubleParents
    else if !SelfParentRight(e, parents) then ErrWrongSelfParent
    else if e.seqNo > 1 && |parents| == 0 then ErrWrongSeq
    else if e.SelfParent().Some? && e.seqNo != parents[0].seqNo + 1 then ErrWrongSeq
    else if e.SelfParent().Some? && e.claimedTime <= parents[0].claimedTime then ErrPastTime
    else ParentsOk
  }

  method CheckParents(e: Event, parents: seq<Event>) returns (v: ParentsVerdict)
    requires |parents| == |e.parents|
    ensures v == VerdictOnParents(e, parents)
  {
    var maxLamport := MaxLamport(parents);
    if e.lamport != maxLamport + 1 {
      return ErrWrongLamport;
    }
    assert LamportRight(e, parents);
    var distinct := AllDistinct(e.parents);
    if !distinct {
      return ErrDoubleParents;
    }
    for i := 0 to |parents|
      invariant forall j {:trigger parents[j]} | 0 <= j < i ::
                  parents[j].creator == e.creator <==> e.IsSelfParent(e.parents[j])
    {
      if (parents[i].creator == e.creator) != e.IsSelfParent(e.parents[i]) {
        return ErrWrongSelfParent;
      }
    }
    if (e.seqNo <= 1) != e.SelfParent().None? {
      return ErrWrongSeq;
    }
    if e.SelfParent().Some? {
      if e.seqNo != parents[0].seqNo + 1 {
        return ErrWrongSeq;
      }
      if e.claimedTime <= parents[0].claimedTime {
        return ErrPastTime;
      }
    }
    return ParentsOk;
  }

  method MaxLamport(parents: seq<Event>) returns (m: nat)
    ensures forall e: Event | e.lamport == m + 1 :: LamportRight(e, parents)
    ensures forall e: Event | LamportRight(e, parents) :: e.lamport == m + 1
  {
    m := 0;
    for i := 0 to |parents|
      invariant forall j | 0 <= j < i :: parents[j].lamport <= m
      invariant m == 0 || exists j | 0 <= j < i :: parents[j].lamport == m
    {
      if parents[i].lamport > m {
        m := parents[i].lamport;
      }
    }
    MaxIsRight(parents, m);
  }

  lemma MaxIsRight(parents: seq<Event>, m: nat)
    requires forall j | 0 <= j < |parents| :: parents[j].lamport <= m
    requires m == 0 || exists j | 0 <= j < |parents| :: parents[j].lamport == m
    ensures forall e: Event | e.lamport == m + 1 :: LamportRight(e, parents)
    ensures forall e: Event | LamportRight(e, parents) :: e.lamport == m + 1
  {
    if parents != [] {
      var j := if m == 0 then 0 else var k :| 0 <= k < |parents| && parents[k].lamport == m; k;
      assert parents[j] in parents && parents[j].lamport == m;
    }
  }

  method AllDistinct(ids: seq<EventId>) returns (yes: bool)
    ensures yes <==> forall i, j | 0 <= i < j < |ids| :: ids[i] != ids[j]
  {
    var seen: set<EventId> := {};
    for i := 0 to |ids|
      invariant seen == set x | x in ids[..i]
      invariant forall j, k | 0 <= j < k < i :: ids[j] != ids[k]
    {
      if ids[i] in seen {
        var j :| 0 <= j < i && ids[..i][j] == ids[i];
        return false;
      }
      seen := seen + {ids[i]};
      TakeSnoc(ids, i);
    }
    return true;
  }

  /** The headers of the event's parents. */
  function Headers(d: map<EventId, Event>, ids: seq<EventId>): (hs: seq<Event>)
    requires forall x | x in ids :: x in d
    ensures |hs| == |ids|
    ensures forall i | 0 <= i < |ids| :: ids[i] in d && hs[i] == d[ids[i]]
  {
    seq(|ids|, i requires 0 <= i < |ids| => assert ids[i] in ids; d[ids[i]])
  }

  /** What the parents check lets pass: the Lamport time follows the highest of different parents, the first
      of which is the only one by the same creator, with the number before and an earlier time; or there
      is none by the creator, and the event is its first. */
  lemma ParentsOkIff(e: Event, parents: seq<Event>)
    requires |parents| == |e.parents|
    ensures VerdictOnParents(e, parents) == ParentsOk <==>
            && (forall i | 0 <= i < |parents| :: parents[i].lamport + 1 <= e.lamport)
            && (if |parents| == 0 then e.lamport == 1
                else exists i | 0 <= i < |parents| :: parents[i].lamport + 1 == e.lamport)
            && (forall i, j | 0 <= i < j < |parents| :: e.parents[i] != e.parents[j])
            && (forall i | 1 <= i < |parents| :: parents[i].creator != e.creator)
            && (if e.seqNo <= 1 then |parents| > 0 ==> parents[0].creator != e.creator
                else
                  && |parents| > 0 && parents[0].creator == e.creator
                  && parents[0].seqNo + 1 == e.seqNo && parents[0].claimedTime < e.claimedTime)
  {
    LamportIff(e, parents);
    if forall i, j | 0 <= i < j < |parents| :: e.parents[i] != e.parents[j] {
      assert forall i | 0 <= i < |parents| :: e.IsSelfParent(e.parents[i]) <==> e.seqNo > 1 && i == 0;
    }
  }

  lemma LamportIff(e: Event, parents: seq<Event>)
    ensures LamportRight(e, parents) <==>
            && (forall i | 0 <= i < |parents| :: parents[i].lamport + 1 <= e.lamport)
            && (if |parents| == 0 then e.lamport == 1
                else exists i | 0 <= i < |parents| :: parents[i].lamport + 1 == e.lamport)
  {
    assert forall i | 0 <= i < |parents| :: parents[i] in parents;
  }

  /** An event that passes both checks is well-formed, so connecting it keeps the graph well-formed. */
  lemma CheckedIsWellFormed(d: Dag, id: EventId, e: Event)
    requires id !in d && Inited(e) && forall p | p in e.parents :: p in d
    requires VerdictOnParents(e, Headers(d, e.parents)) == ParentsOk
    ensures WellFormedEvent(d, e) && WellFormed(d[id := e])
  {
    var hs := Headers(d, e.parents);
    forall p | p in e.parents
      ensures d[p].lamport < e.lamport
      ensures d[p].creator == e.creator <==> e.IsSelfParent(p)
    {
      var i :| 0 <= i < |e.parents| && e.parents[i] == p;
      assert hs[i] == d[p] && hs[i] in hs;
    }
    assert e.SelfParent().Some? ==> hs[0] == d[e.parents[0]];
    assert WellFormedEvent(d, e);
    var d' := d[id := e];
    forall x | x in d'
      ensures WellFormedEvent(d', d'[x])
    {
      assert x != id ==> WellFormedEvent(d, d[x]);
    }
  }
}
