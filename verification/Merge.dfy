/** How two records of one node are combined, and which records lose a contested domain name. */
module Merge {
  import opened Domain

  function MergeAddr(existing: EndpointAddr, incoming: EndpointAddr): EndpointAddr {
    if existing.id != incoming.id || existing.ips + incoming.ips == {} then
      incoming
    else
      EndpointAddr(existing.id, existing.ips + incoming.ips, {})
  }

  function MergeNode(existing: Option<Node>, incoming: Node): Node {
    match existing
    case None => incoming
    case Some(known) =>
      if incoming.heartbeat > known.heartbeat then
        if incoming.addr.ips != {} then incoming
        else incoming.(addr := MergeAddr(known.addr, incoming.addr))
      else
        known.(addr := MergeAddr(known.addr, incoming.addr))
  }

  /** The collecting loops: every address of both sides once, in any iteration order. */
  method CollectAddrs(existing: EndpointAddr, incoming: EndpointAddr) returns (merged: EndpointAddr)
    ensures merged == MergeAddr(existing, incoming)
  {
    if existing.id != incoming.id {
      return incoming;
    }
    var ips: seq<SocketAddr> := [];
    var rest := existing.ips;
    while rest != {}
      invariant rest <= existing.ips
      invariant forall a :: a in ips <==> a in existing.ips - rest
      decreases rest
    {
      var addr :| addr in rest;
      if addr !in ips {
        ips := ips + [addr];
      }
      rest := rest - {addr};
    }
    rest := incoming.ips;
    while rest != {}
      invariant rest <= incoming.ips
      invariant forall a :: a in ips <==> a in existing.ips + (incoming.ips - rest)
      decreases rest
    {
      var addr :| addr in rest;
      if addr !in ips {
        ips := ips + [addr];
      }
      rest := rest - {addr};
    }
    assert (set x | x in ips) == existing.ips + incoming.ips;
    if ips == [] {
      return incoming;
    }
    assert ips[0] in existing.ips + incoming.ips;
    return EndpointAddr(existing.id, set x | x in ips, {});
  }

  /** The record a scan of `nodes` keeps for `domain`: a later one replaces it only when strictly newer. */
  function Champion(nodes: seq<Node>, domain: string): Option<Node> {
    if nodes == [] then None
    else
      var best := Champion(nodes[..|nodes| - 1], domain);
      var last := nodes[|nodes| - 1];
      if last.domain == domain && (best.None? || last.heartbeat > best.value.heartbeat)
      then Some(last)
      else best
  }

  /** `nodes[w]` is the first record of highest heartbeat among those with its domain. */
  ghost predicate Wins(nodes: seq<Node>, w: nat)
    requires w < |nodes|
  {
    forall j :: 0 <= j < |nodes| && nodes[j].domain == nodes[w].domain ==>
      if j < w then nodes[j].heartbeat < nodes[w].heartbeat
      else nodes[j].heartbeat <= nodes[w].heartbeat
  }

  lemma {:induction false} ChampionWins(nodes: seq<Node>, domain: string) returns (w: nat)
    requires exists i :: 0 <= i < |nodes| && nodes[i].domain == domain
    ensures w < |nodes| && nodes[w].domain == domain && Wins(nodes, w)
    ensures Champion(nodes, domain) == Some(nodes[w])
  {
    var n := |nodes| - 1;
    var front := nodes[..n];
    if exists i :: 0 <= i < n && nodes[i].domain == domain {
      var i :| 0 <= i < n && nodes[i].domain == domain;
      assert front[i].domain == domain;
      w := ChampionWins(front, domain);
      assert forall j :: 0 <= j < n ==> nodes[j] == front[j];
      if nodes[n].domain == domain && nodes[n].heartbeat > front[w].heartbeat {
        w := n;
      }
    } else {
      NoChampion(front, domain);
      w := n;
    }
  }

  lemma {:induction false} NoChampion(nodes: seq<Node>, domain: string)
    requires forall i :: 0 <= i < |nodes| ==> nodes[i].domain != domain
    ensures Champion(nodes, domain) == None
  {
    if nodes != [] {
      NoChampion(nodes[..|nodes| - 1], domain);
    }
  }

  /** The domain of `nodes[i]` is held by another id. */
  predicate Lost(nodes: seq<Node>, i: nat)
    requires i < |nodes|
  {
    var best := Champion(nodes, nodes[i].domain);
    best.Some? && best.value.id != nodes[i].id
  }

  /** Ids of the first `k` records whose domain is held by another id, in order. */
  function Losers(nodes: seq<Node>, k: nat): seq<Id>
    requires k <= |nodes|
  {
    if k == 0 then []
    else
      Losers(nodes, k - 1) + if Lost(nodes, k - 1) then [nodes[k - 1].id] else []
  }

  function DomainLosers(nodes: seq<Node>): seq<Id> {
    Losers(nodes, |nodes|)
  }

  method IdsToRemoveForDuplicateDomains(nodes: seq<Node>) returns (ids: seq<Id>)
    ensures ids == DomainLosers(nodes)
    ensures DistinctIds(nodes) ==> forall i :: 0 <= i < |nodes| ==> (nodes[i].id in ids <==> !Wins(nodes, i))
  {
    var byDomain: map<string, (Id, uint64)> := map[];
    var i := 0;
    while i < |nodes|
      invariant 0 <= i <= |nodes|
      invariant forall d :: d in byDomain <==> Champion(nodes[..i], d).Some?
      invariant forall d :: d in byDomain ==>
        byDomain[d] == (Champion(nodes[..i], d).value.id, Champion(nodes[..i], d).value.heartbeat)
    {
      var node := nodes[i];
      assert nodes[..i + 1][..i] == nodes[..i];
      if node.domain in byDomain {
        if node.heartbeat > byDomain[node.domain].1 {
          byDomain := byDomain[node.domain := (node.id, node.heartbeat)];
        }
      } else {
        byDomain := byDomain[node.domain := (node.id, node.heartbeat)];
      }
      i := i + 1;
    }
    assert nodes[..|nodes|] == nodes;
    ids := [];
    i := 0;
    while i < |nodes|
      invariant 0 <= i <= |nodes|
      invariant ids == Losers(nodes, i)
    {
      var node := nodes[i];
      assert Lost(nodes, i) <==> node.domain in byDomain && byDomain[node.domain].0 != node.id;
      if node.domain in byDomain && byDomain[node.domain].0 != node.id {
        ids := ids + [node.id];
      }
      i := i + 1;
    }
    if DistinctIds(nodes) {
      forall w | 0 <= w < |nodes| ensures nodes[w].id in ids <==> !Wins(nodes, w) {
        LosersAreTheOthers(nodes, w);
      }
    }
  }

  predicate DistinctIds(nodes: seq<Node>) {
    forall i, j :: 0 <= i < j < |nodes| ==> nodes[i].id != nodes[j].id
  }

  /** Among records of distinct nodes, an id loses exactly when its record is not the winner. */
  lemma LosersAreTheOthers(nodes: seq<Node>, i: nat)
    requires DistinctIds(nodes) && i < |nodes|
    ensures nodes[i].id in DomainLosers(nodes) <==> !Wins(nodes, i)
  {
    LosersExact(nodes, |nodes|, i);
    var w := ChampionWins(nodes, nodes[i].domain);
    assert w != i ==> !Wins(nodes, i);
  }

  lemma {:induction false} LosersExact(nodes: seq<Node>, k: nat, i: nat)
    requires DistinctIds(nodes) && k <= |nodes| && i < |nodes|
    ensures nodes[i].id in Losers(nodes, k) <==> i < k && Lost(nodes, i)
  {
    if k > 0 {
      LosersExact(nodes, k - 1, i);
    }
  }
}
