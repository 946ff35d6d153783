/** The append-only gap ledger (gaps/ledger.ts). */
module GapEvents {
  import opened Collections
  import opened JsMap
  import opened GapIds

  datatype GapEvent =
    | Opened(id: string, category: string, paths: seq<string>, fingerprint: string, hitsAtDetection: int, firstSeenPr: int)
    | Seen(id: string, pr: int, hitsNow: int)
    | Ruled(id: string, disposition: Disposition, ref: string, ratifiedBy: string)

  datatype Disposition = Rule | AntiRule | Debt | Dismissed | DismissedDuplicate

  /** The latest event of an id defines its status. */
  function Latest(events: seq<GapEvent>, id: string): Option<GapEvent> {
    if events == [] then None
    else if events[|events| - 1].id == id then Some(events[|events| - 1])
    else Latest(events[..|events| - 1], id)
  }

  method FoldToLatestStatus(events: seq<GapEvent>) returns (status: map<string, GapEvent>)
    ensures forall id :: (id in status <==> Latest(events, id).Some?)
                         && (id in status ==> Latest(events, id) == Some(status[id]))
  {
    status := map[];
    for i := 0 to |events|
      invariant forall id :: (id in status <==> Latest(events[..i], id).Some?)
                             && (id in status ==> Latest(events[..i], id) == Some(status[id]))
    {
      assert events[..i + 1][..i] == events[..i];
      status := status[events[i].id := events[i]];
    }
    assert events[..|events|] == events;
  }

  /** The map of opened events, in the order their ids were first opened. */
  function OpenedById(events: seq<GapEvent>): seq<Entry<string, GapEvent>> {
    if events == [] then []
    else
      var before, last := OpenedById(events[..|events| - 1]), events[|events| - 1];
      if last.Opened? then Set(before, last.id, last) else before
  }

  ghost predicate OpenedBefore(events: seq<GapEvent>, k: nat, id: string)
    requires k <= |events|
  {
    exists j :: 0 <= j < k && events[j].Opened? && events[j].id == id
  }

  /** The life of every gap: opened once and first, under a number larger than all before; nothing
      after its ruling. */
  ghost predicate WellFormed(events: seq<GapEvent>) {
    && (forall k :: 0 <= k < |events| && !events[k].Opened? ==> OpenedBefore(events, k, events[k].id))
    && (forall i, j :: 0 <= i < j < |events| && events[i].Opened? && events[j].Opened? ==>
          Minted(events[i].id) < Minted(events[j].id))
    && (forall k :: 0 <= k < |events| && events[k].Opened? ==> NumberOf(events[k].id).Some?)
    && (forall i, j :: 0 <= i < j < |events| && events[i].Ruled? ==> events[j].id != events[i].id)
  }

  /** The number of an id; only ids that carry one are ever compared. */
  function Minted(id: string): nat {
    if NumberOf(id).Some? then NumberOf(id).value else 0
  }

  /** In a well-formed ledger each id has exactly one opened event, before all its others. */
  lemma EachGapOpensOnceAndFirst(events: seq<GapEvent>, k: nat)
    requires WellFormed(events) && k < |events|
    ensures exists j :: 0 <= j <= k && events[j].Opened? && events[j].id == events[k].id
                        && (forall i :: 0 <= i < |events| && events[i].id == events[k].id ==> j <= i)
                        && (forall i :: 0 <= i < |events| && i != j && events[i].Opened? ==> events[i].id != events[k].id)
  {
    var id := events[k].id;
    var j := k;
    if !events[k].Opened? {
      assert OpenedBefore(events, k, id);
      j :| 0 <= j < k && events[j].Opened? && events[j].id == id;
    }
    forall i | 0 <= i < |events| && i != j && events[i].Opened? ensures events[i].id != id {
      if i < j {
        assert Minted(events[i].id) < Minted(events[j].id);
      } else {
        assert Minted(events[j].id) < Minted(events[i].id);
      }
    }
    forall i | 0 <= i < |events| && events[i].id == id ensures j <= i {
      if !events[i].Opened? {
        assert OpenedBefore(events, i, id);
        var o :| 0 <= o < i && events[o].Opened? && events[o].id == id;
      }
    }
  }

  lemma {:induction false} LatestIsAnEvent(events: seq<GapEvent>, id: string)
    ensures Latest(events, id).Some? ==>
              exists k :: 0 <= k < |events| && events[k] == Latest(events, id).value && events[k].id == id
                          && forall i :: k < i < |events| ==> events[i].id != id
    ensures Latest(events, id).None? ==> forall i :: 0 <= i < |events| ==> events[i].id != id
  {
    if events != [] && events[|events| - 1].id != id {
      LatestIsAnEvent(events[..|events| - 1], id);
      if Latest(events, id).Some? {
        var init := events[..|events| - 1];
        var k :| 0 <= k < |init| && init[k] == Latest(init, id).value && init[k].id == id
                 && forall i :: k < i < |init| ==> init[i].id != id;
        assert events[k] == init[k];
      }
    }
  }

  /** An id whose latest event is no ruling has never been ruled. */
  lemma UnruledLatestMeansNoRuling(events: seq<GapEvent>, id: string)
    requires WellFormed(events) && Latest(events, id).Some?
    ensures Latest(events, id).value.Ruled? <==> exists i :: 0 <= i < |events| && events[i].Ruled? && events[i].id == id
  {
    LatestIsAnEvent(events, id);
    hide Latest;
    var k :| 0 <= k < |events| && events[k] == Latest(events, id).value && events[k].id == id
             && forall i :: k < i < |events| ==> events[i].id != id;
    if i :| 0 <= i < |events| && events[i].Ruled? && events[i].id == id {
      assert i <= k && events[k].id == events[i].id;
    }
  }

  /** Appending one event keeps the ledger well-formed exactly when the event fits its gap's life. */
  predicate Fits(events: seq<GapEvent>, e: GapEvent) {
    match e
    case Opened(id, _, _, _, _, _) =>
      NumberOf(id).Some? && forall i :: 0 <= i < |events| && events[i].Opened? ==> Minted(events[i].id) < Minted(id)
    case Seen(id, _, _) => Latest(events, id).Some? && !Latest(events, id).value.Ruled?
    case Ruled(id, _, _, _) => Latest(events, id).Some? && !Latest(events, id).value.Ruled?
  }

  lemma AppendKeepsWellFormed(events: seq<GapEvent>, e: GapEvent)
    requires WellFormed(events)
    ensures WellFormed(events + [e]) <==> Fits(events, e)
  {
    var longer := events + [e];
    var n := |events|;
    forall k, id | 0 <= k <= n ensures OpenedBefore(longer, k, id) <==> OpenedBefore(events, k, id) {
      if OpenedBefore(longer, k, id) {
        var j :| 0 <= j < k && longer[j].Opened? && longer[j].id == id;
        assert events[j].Opened? && events[j].id == id;
      }
      if OpenedBefore(events, k, id) {
        var j :| 0 <= j < k && events[j].Opened? && events[j].id == id;
        assert longer[j].Opened? && longer[j].id == id;
      }
    }
    LatestIsAnEvent(events, e.id);
    if Latest(events, e.id).Some? {
      UnruledLatestMeansNoRuling(events, e.id);
      var k :| 0 <= k < |events| && events[k].id == e.id;
      EachGapOpensOnceAndFirst(events, k);
      assert OpenedBefore(events, n, e.id);
    }
    if Fits(events, e) {
      NewEventFits(events, e);
    }
    if WellFormed(longer) {
      FittingIsNecessary(events, e);
    }
  }

  lemma FittingIsNecessary(events: seq<GapEvent>, e: GapEvent)
    requires WellFormed(events + [e])
    ensures Fits(events, e)
  {
    var longer := events + [e];
    var n := |events|;
    assert longer[n] == e && forall i :: 0 <= i < n ==> longer[i] == events[i];
    if e.Opened? {
      assert NumberOf(longer[n].id).Some?;
      forall i | 0 <= i < n && events[i].Opened? ensures Minted(events[i].id) < Minted(e.id) {
        assert longer[i].Opened? && longer[n].Opened?;
      }
    } else {
      assert OpenedBefore(longer, n, longer[n].id);
      var j :| 0 <= j < n && longer[j].Opened? && longer[j].id == e.id;
      LatestIsAnEvent(events, e.id);
      assert events[j].id == e.id;
      var k :| 0 <= k < n && events[k] == Latest(events, e.id).value && events[k].id == e.id;
      assert longer[n].id == longer[k].id;
    }
  }

  lemma OpeningOf(events: seq<GapEvent>, i: nat) returns (j: nat)
    requires WellFormed(events) && i < |events|
    ensures j <= i && events[j].Opened? && events[j].id == events[i].id
  {
    j := i;
    if !events[i].Opened? {
      assert OpenedBefore(events, i, events[i].id);
      j :| 0 <= j < i && events[j].Opened? && events[j].id == events[i].id;
    }
  }

  lemma NewEventFits(events: seq<GapEvent>, e: GapEvent)
    requires WellFormed(events) && Fits(events, e)
    requires forall k, id :: 0 <= k <= |events| ==> (OpenedBefore(events + [e], k, id) <==> OpenedBefore(events, k, id))
    requires Latest(events, e.id).Some? ==> OpenedBefore(events, |events|, e.id)
    requires Latest(events, e.id).Some? && !Latest(events, e.id).value.Ruled? ==>
               !exists i :: 0 <= i < |events| && events[i].Ruled? && events[i].id == e.id
    ensures WellFormed(events + [e])
  {
    hide NumberOf, Minted, Latest, OpenedBefore;
    var longer := events + [e];
    assert forall i :: 0 <= i < |events| ==> longer[i] == events[i];
    if e.Opened? {
      forall i | 0 <= i < |events| && events[i].Ruled? ensures events[i].id != e.id {
        var j := OpeningOf(events, i);
        assert Minted(events[j].id) < Minted(e.id);
      }
    }
  }
}
