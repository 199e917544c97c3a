/** Cleanup of the active view: which entries survive, and that a second run changes nothing. */
module Housekeeping {
  import opened Domain
  import opened Merge
  import opened Protocol
  import opened Invariant

  /** `order` lists each id of `ids` once, as an iteration over a concurrent map does. */
  ghost predicate Lists(order: seq<Id>, ids: set<Id>) {
    && (forall id :: id in order <==> id in ids)
    && (forall i, j :: 0 <= i < j < |order| ==> order[i] != order[j])
  }

  lemma {:induction false} SnapshotIs(nodes: map<Id, Node>, order: seq<Id>)
    requires forall id :: id in order ==> id in nodes
    ensures |Snapshot(nodes, order)| == |order|
    ensures forall i :: 0 <= i < |order| ==> Snapshot(nodes, order)[i] == nodes[order[i]]
  {
    if order != [] {
      SnapshotIs(nodes, order[..|order| - 1]);
      assert order[|order| - 1] in order;
    }
  }

  lemma {:induction false} SnapshotDistinct(nodes: map<Id, Node>, order: seq<Id>)
    requires Keyed(nodes) && Lists(order, nodes.Keys)
    ensures DistinctIds(Snapshot(nodes, order)) && |Snapshot(nodes, order)| == |order|
    ensures forall i :: 0 <= i < |order| ==>
      order[i] in nodes && Snapshot(nodes, order)[i] == nodes[order[i]] && nodes[order[i]].id == order[i]
  {
    SnapshotIs(nodes, order);
    forall i | 0 <= i < |order| ensures order[i] in nodes {
      assert order[i] in order;
    }
  }

  /** Cleanup keeps exactly the entries that are not stale daemons and win their domain: the first,
      in snapshot order, of highest heartbeat. What it keeps it does not change. */
  lemma {:induction false} CleanupExact(nodes: map<Id, Node>, now: uint64, order: seq<Id>, i: nat)
    requires Keyed(nodes) && Lists(order, Aged(nodes, now).Keys) && i < |order|
    ensures |Snapshot(Aged(nodes, now), order)| == |order|
    ensures order[i] in Cleanup(nodes, now, order) <==> Wins(Snapshot(Aged(nodes, now), order), i)
    ensures order[i] in nodes && Snapshot(Aged(nodes, now), order)[i] == nodes[order[i]]
  {
    var aged := Aged(nodes, now);
    SnapshotDistinct(aged, order);
    LosersAreTheOthers(Snapshot(aged, order), i);
    assert order[i] in order;
  }

  lemma CleanupOnlyDrops(nodes: map<Id, Node>, now: uint64, order: seq<Id>, id: Id)
    requires id in Cleanup(nodes, now, order)
    ensures id in nodes && Cleanup(nodes, now, order)[id] == nodes[id]
    ensures IsDaemon(nodes[id]) ==> now <= nodes[id].heartbeat + 90
  {
  }

  /** No two surviving entries share a domain. */
  lemma DomainsUnique(nodes: map<Id, Node>, now: uint64, order: seq<Id>, a: Id, b: Id)
    requires Keyed(nodes) && Lists(order, Aged(nodes, now).Keys)
    requires a in Cleanup(nodes, now, order) && b in Cleanup(nodes, now, order)
    requires nodes[a].domain == nodes[b].domain
    ensures a == b
  {
    assert a in order && b in order;
    var i :| 0 <= i < |order| && order[i] == a;
    var j :| 0 <= j < |order| && order[j] == b;
    CleanupExact(nodes, now, order, i);
    CleanupExact(nodes, now, order, j);
    var snapshot := Snapshot(Aged(nodes, now), order);
    assert snapshot[i].domain == snapshot[j].domain;
  }

  /** Afterwards each domain that any non-stale entry had is held by exactly one entry, of a heartbeat
      nobody on that domain exceeded. Client entries are never dropped for their age. */
  lemma OneEntryPerDomain(nodes: map<Id, Node>, now: uint64, order: seq<Id>, id: Id) returns (holder: Id)
    requires Keyed(nodes) && Lists(order, Aged(nodes, now).Keys)
    requires id in nodes && (IsDaemon(nodes[id]) ==> now <= nodes[id].heartbeat + 90)
    ensures var kept := Cleanup(nodes, now, order);
      && holder in kept
      && kept[holder].domain == nodes[id].domain
      && kept[holder].heartbeat >= nodes[id].heartbeat
      && forall other :: other in kept && kept[other].domain == nodes[id].domain ==> other == holder
  {
    var aged := Aged(nodes, now);
    var snapshot := Snapshot(aged, order);
    SnapshotDistinct(aged, order);
    assert id in order;
    var i :| 0 <= i < |order| && order[i] == id;
    assert snapshot[i].domain == nodes[id].domain;
    var w := ChampionWins(snapshot, nodes[id].domain);
    holder := order[w];
    CleanupExact(nodes, now, order, w);
    forall other | other in Cleanup(nodes, now, order) && nodes[other].domain == nodes[id].domain
      ensures other == holder
    {
      DomainsUnique(nodes, now, order, other, holder);
    }
  }

  lemma {:induction false} SurvivorWins(nodes: map<Id, Node>, now: uint64, order: seq<Id>, again: seq<Id>, i: nat)
    requires Keyed(nodes) && Lists(order, Aged(nodes, now).Keys)
    requires Lists(again, Cleanup(nodes, now, order).Keys) && i < |again|
    ensures |Snapshot(Cleanup(nodes, now, order), again)| == |again|
    ensures Wins(Snapshot(Cleanup(nodes, now, order), again), i)
  {
    var snapshot := Snapshot(Cleanup(nodes, now, order), again);
    SnapshotDistinct(Cleanup(nodes, now, order), again);
    forall j | 0 <= j < |again| && snapshot[j].domain == snapshot[i].domain ensures j == i {
      DomainsUnique(nodes, now, order, again[i], again[j]);
    }
  }

  /** A second cleanup at the same time changes nothing, in whatever order it scans. */
  lemma CleanupIdempotent(nodes: map<Id, Node>, now: uint64, order: seq<Id>, again: seq<Id>)
    requires Keyed(nodes) && Lists(order, Aged(nodes, now).Keys)
    requires Lists(again, Aged(Cleanup(nodes, now, order), now).Keys)
    ensures Cleanup(Cleanup(nodes, now, order), now, again) == Cleanup(nodes, now, order)
  {
    var kept := Cleanup(nodes, now, order);
    assert Aged(kept, now) == kept;
    forall id | id in kept ensures id in Cleanup(kept, now, again) {
      assert id in again;
      var i :| 0 <= i < |again| && again[i] == id;
      SurvivorWins(nodes, now, order, again, i);
      CleanupExact(kept, now, again, i);
    }
    assert Cleanup(kept, now, again) == kept;
  }
}
