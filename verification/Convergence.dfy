/** Synchronisation as a last-writer-wins register per node id, and what a pull achieves. */
module Convergence {
  import opened Domain
  import opened Merge
  import opened Protocol
  import opened Invariant

  /** `e` shows record `r`; its address is the record's own whenever that carries an IP. */
  ghost predicate Shows(e: Node, r: Node) {
    && e == r.(addr := e.addr)
    && (r.addr.ips != {} ==> e == r)
  }

  /** `e` is what the register holds after `recs` were written over `init`: the record of highest
      heartbeat, where a record must be strictly newer to replace what was there before. */
  ghost predicate Settled(init: Option<Node>, recs: set<Node>, e: Option<Node>) {
    if e.None? then init.None? && recs == {}
    else
      && (forall r :: r in recs ==> r.heartbeat <= e.value.heartbeat)
      && (init.Some? ==> init.value.heartbeat <= e.value.heartbeat)
      && (init == e
          || exists r :: r in recs && Shows(e.value, r) && (init.Some? ==> init.value.heartbeat < r.heartbeat))
  }

  lemma SettledThen(init: Option<Node>, first: set<Node>, mid: Option<Node>, second: set<Node>, e: Option<Node>)
    requires Settled(init, first, mid) && Settled(mid, second, e)
    ensures Settled(init, first + second, e)
  {
    if e.Some? && e != mid {
      var r :| r in second && Shows(e.value, r) && (mid.Some? ==> mid.value.heartbeat < r.heartbeat);
      assert r in first + second;
    } else if e.Some? && init != e {
      var r :| r in first && Shows(e.value, r) && (init.Some? ==> init.value.heartbeat < r.heartbeat);
      assert r in first + second;
    }
  }

  function RecordsFor(recs: seq<Node>, id: Id): set<Node> {
    set r | r in recs && IsDaemon(r) && r.id == id
  }

  /** Two outcomes of the same records agree, once equal heartbeats mean equal records: in every
      field but the address always, and entirely when the records carry an IP. */
  lemma SettledAgree(init: Option<Node>, recs: set<Node>, a: Option<Node>, b: Option<Node>)
    requires Settled(init, recs, a) && Settled(init, recs, b)
    requires forall r, q :: r in recs && q in recs && r.heartbeat == q.heartbeat ==> r == q
    ensures a.None? <==> b.None?
    ensures a.Some? ==> a.value == b.value.(addr := a.value.addr)
    ensures (forall r :: r in recs ==> r.addr.ips != {}) ==> a == b
  {
    if a.Some? && a != init && b != init {
      var r :| r in recs && Shows(a.value, r);
      var q :| q in recs && Shows(b.value, q);
      assert r == q;
    }
  }

  // ---- One sync message ----

  lemma AbsorbSettles(s: State, from: Id, observed: Option<SocketAddr>, r: Node, id: Id)
    requires Inv(s) && id != s.me.id && id != from
    ensures Settled(Lookup(s.nodes, id), RecordsFor([r], id), Lookup(Absorb(s, from, observed, r).nodes, id))
  {
    AbsorbView(s, from, observed, r);
    var e := Lookup(Absorb(s, from, observed, r).nodes, id);
    if r.id == id && IsDaemon(r) {
      assert RecordsFor([r], id) == {r};
      var existing := Lookup(s.nodes, id);
      if existing.None? || existing.value.heartbeat < r.heartbeat {
        MergeKeepsId(existing, r);
        AcceptGrows(s, MergeNode(existing, r));
        assert Shows(e.value, r);
      }
    } else {
      assert RecordsFor([r], id) == {};
      assert e == Lookup(s.nodes, id);
    }
  }

  lemma RecordsForSnoc(recs: seq<Node>, id: Id)
    requires recs != []
    ensures RecordsFor(recs, id) == RecordsFor(recs[..|recs| - 1], id) + RecordsFor([recs[|recs| - 1]], id)
  {
    assert recs == recs[..|recs| - 1] + [recs[|recs| - 1]];
  }

  lemma {:induction false} AbsorbAllSettles(s: State, from: Id, observed: Option<SocketAddr>, recs: seq<Node>, id: Id)
    requires Inv(s) && id != s.me.id && id != from
    ensures Settled(Lookup(s.nodes, id), RecordsFor(recs, id), Lookup(AbsorbAll(s, from, observed, recs).nodes, id))
  {
    if recs == [] {
      assert RecordsFor(recs, id) == {};
    } else {
      var front, last := recs[..|recs| - 1], recs[|recs| - 1];
      var mid := AbsorbAll(s, from, observed, front);
      AbsorbAllSettles(s, from, observed, front, id);
      AbsorbAllKeeps(s, from, observed, front);
      AbsorbSettles(mid, from, observed, last, id);
      SettledThen(Lookup(s.nodes, id), RecordsFor(front, id), Lookup(mid.nodes, id), RecordsFor([last], id),
                  Lookup(Absorb(mid, from, observed, last).nodes, id));
      RecordsForSnoc(recs, id);
    }
  }

  // ---- Many sync messages ----

  predicate IsSync(m: Message) {
    m.SyncRequest? || m.SyncResponse?
  }

  /** A delivery of sync records by somebody the daemon trusts to begin with, other than `id` itself. */
  predicate TrustedSync(s: State, step: Step, id: Id) {
    step.Receive? && IsSync(step.msg.body) && Passes(s, step.msg, step.now) && step.msg.from != id
  }

  predicate AllTrustedSync(s: State, steps: seq<Step>, id: Id) {
    forall k :: 0 <= k < |steps| ==> TrustedSync(s, steps[k], id)
  }

  function AllRecordsFor(steps: seq<Step>, id: Id): set<Node> {
    if steps == [] then {}
    else
      var last := steps[|steps| - 1];
      AllRecordsFor(steps[..|steps| - 1], id)
      + if last.Receive? && IsSync(last.msg.body) then RecordsFor(last.msg.body.nodes, id) else {}
  }

  lemma SyncStepSettles(s: State, step: Step, id: Id)
    requires Inv(s) && id != s.me.id && TrustedSync(s, step, id)
    ensures Settled(Lookup(s.nodes, id), RecordsFor(step.msg.body.nodes, id), Lookup(Next(s, step).nodes, id))
  {
    var s1 := Touched(s, step.msg, step.now, step.observed);
    TouchKeeps(s, step.msg.from, step.now, step.observed);
    TouchView(s, step.msg.from, step.now, step.observed);
    assert Lookup(s1.nodes, id) == Lookup(s.nodes, id);
    AbsorbAllSettles(s1, step.msg.from, step.observed, step.msg.body.nodes, id);
  }

  lemma {:induction false} SyncRunSettles(s: State, steps: seq<Step>, id: Id)
    requires Inv(s) && id != s.me.id && AllTrustedSync(s, steps, id)
    ensures Inv(Exec(s, steps)) && s.trusted.Keys <= Exec(s, steps).trusted.Keys
    ensures Settled(Lookup(s.nodes, id), AllRecordsFor(steps, id), Lookup(Exec(s, steps).nodes, id))
  {
    ReachableInv(s, steps);
    if steps != [] {
      var front, last := steps[..|steps| - 1], steps[|steps| - 1];
      var mid := Exec(s, front);
      SyncRunSettles(s, front, id);
      ReachableInv(s, front);
      ProcessKeeps(mid, last.msg, last.now, last.observed);
      SyncStepSettles(mid, last, id);
      SettledThen(Lookup(s.nodes, id), AllRecordsFor(front, id), Lookup(mid.nodes, id),
                  RecordsFor(last.msg.body.nodes, id), Lookup(Exec(s, steps).nodes, id));
    }
  }

  /** Last writer wins: two batches of trusted sync messages with the same records for `id`, in any
      order, split into any messages and with any repetition, leave the same entry for it. */
  lemma {:induction false} LastWriterWins(s: State, a: seq<Step>, b: seq<Step>, id: Id)
    requires Inv(s) && id != s.me.id
    requires AllTrustedSync(s, a, id) && AllTrustedSync(s, b, id)
    requires AllRecordsFor(a, id) == AllRecordsFor(b, id)
    requires forall r, q ::
      r in AllRecordsFor(a, id) && q in AllRecordsFor(a, id) && r.heartbeat == q.heartbeat ==> r == q
    ensures id in Exec(s, a).nodes <==> id in Exec(s, b).nodes
    ensures id in Exec(s, a).nodes ==>
      Exec(s, a).nodes[id] == Exec(s, b).nodes[id].(addr := Exec(s, a).nodes[id].addr)
    ensures (forall r :: r in AllRecordsFor(a, id) ==> r.addr.ips != {}) ==>
      Lookup(Exec(s, a).nodes, id) == Lookup(Exec(s, b).nodes, id)
  {
    SyncRunSettles(s, a, id);
    SyncRunSettles(s, b, id);
    SettledAgree(Lookup(s.nodes, id), AllRecordsFor(a, id), Lookup(Exec(s, a).nodes, id), Lookup(Exec(s, b).nodes, id));
  }

  // ---- Pulling ----

  ghost predicate AtLeast(nodes: map<Id, Node>, id: Id, heartbeat: uint64) {
    id in nodes && nodes[id].heartbeat >= heartbeat
  }

  lemma MergeRaises(existing: Option<Node>, n: Node)
    ensures MergeNode(existing, n).heartbeat >= n.heartbeat
    ensures existing.Some? ==> MergeNode(existing, n).heartbeat >= existing.value.heartbeat
  {
  }

  lemma AbsorbRaisesListed(s: State, from: Id, observed: Option<SocketAddr>, r: Node)
    requires Inv(s) && IsDaemon(r) && r.id != s.me.id
    ensures AtLeast(Absorb(s, from, observed, r).nodes, r.id, r.heartbeat)
    ensures r.id in s.nodes ==> AtLeast(Absorb(s, from, observed, r).nodes, r.id, s.nodes[r.id].heartbeat)
  {
    var rec := if r.id == from then r.(addr := SenderAddr(from, r.addr, observed)) else r;
    var existing := Lookup(s.nodes, r.id);
    MergeKeepsId(existing, rec);
    MergeRaises(existing, rec);
    AcceptGrows(s, MergeNode(existing, rec));
  }

  lemma AbsorbRaises(s: State, from: Id, observed: Option<SocketAddr>, r: Node)
    requires Inv(s)
    ensures forall id :: id in s.nodes ==> AtLeast(Absorb(s, from, observed, r).nodes, id, s.nodes[id].heartbeat)
    ensures IsDaemon(r) && r.id != s.me.id ==> AtLeast(Absorb(s, from, observed, r).nodes, r.id, r.heartbeat)
  {
    if IsDaemon(r) && r.id != s.me.id {
      AbsorbView(s, from, observed, r);
      AbsorbRaisesListed(s, from, observed, r);
    }
  }

  lemma {:induction false} AbsorbAllRaises(s: State, from: Id, observed: Option<SocketAddr>, recs: seq<Node>)
    requires Inv(s)
    ensures forall id :: id in s.nodes ==> AtLeast(AbsorbAll(s, from, observed, recs).nodes, id, s.nodes[id].heartbeat)
    ensures forall r :: r in recs && IsDaemon(r) && r.id != s.me.id ==>
      AtLeast(AbsorbAll(s, from, observed, recs).nodes, r.id, r.heartbeat)
  {
    if recs != [] {
      var front, last := recs[..|recs| - 1], recs[|recs| - 1];
      AbsorbAllRaises(s, from, observed, front);
      AbsorbAllKeeps(s, from, observed, front);
      AbsorbRaises(AbsorbAll(s, from, observed, front), from, observed, last);
      assert recs == front + [last];
    }
  }

  /** After a passing SyncResponse every daemon in it is active, at least as recent as reported. */
  lemma PullDominates(s: State, m: SignedMessage, now: uint64, observed: Option<SocketAddr>, r: Node)
    requires Inv(s) && m.body.SyncResponse? && Passes(s, m, now)
    requires r in m.body.nodes && IsDaemon(r) && r.id != s.me.id
    ensures AtLeast(Process(s, m, now, observed).nodes, r.id, r.heartbeat)
  {
    TouchKeeps(s, m.from, now, observed);
    AbsorbAllRaises(Touched(s, m, now, observed), m.from, observed, m.body.nodes);
  }

  ghost predicate OthersAreDaemons(s: State, peer: Id) {
    forall id :: id in s.nodes && id != s.me.id && id != peer ==> IsDaemon(s.nodes[id])
  }

  function AsSet(e: Option<Node>): set<Node> {
    if e.Some? then {e.value} else {}
  }

  lemma AnswerRecords(s: State, self: Node, recs: seq<Node>, id: Id)
    requires Inv(s) && Answers(s, self, recs) && self.id == s.me.id && id != s.me.id
    requires id in s.nodes ==> IsDaemon(s.nodes[id])
    ensures RecordsFor(recs, id) == AsSet(Lookup(s.nodes, id))
  {
    var n := |recs| - 1;
    assert forall i :: 0 <= i < n ==> recs[..n][i] == recs[i];
    forall r | r in RecordsFor(recs, id) ensures id in s.nodes && r == s.nodes[id] {
      var i :| 0 <= i < |recs| && recs[i] == r;
    }
    if id in s.nodes {
      assert s.nodes[id] in recs[..n];
    }
  }

  /** Processing a peer's answer merges its view of every third party into the own one. */
  lemma AnswerSettles(a: State, self: Node, recs: seq<Node>, b: State, m: SignedMessage, now: uint64,
                      observed: Option<SocketAddr>, id: Id)
    requires Inv(a) && Inv(b) && a.me.id != b.me.id
    requires Answers(a, self, recs) && self.id == a.me.id
    requires m == SignedMessage(a.me.id, m.timestamp, SyncResponse(recs)) && Passes(b, m, now)
    requires id != a.me.id && id != b.me.id && (id in a.nodes ==> IsDaemon(a.nodes[id]))
    ensures Settled(Lookup(b.nodes, id), AsSet(Lookup(a.nodes, id)),
                    Lookup(Process(b, m, now, observed).nodes, id))
  {
    AnswerRecords(a, self, recs, id);
    SyncStepSettles(b, Receive(m, now, observed), id);
  }

  // ---- A hub ----

  /** The delivery of one peer's answer: the peer as it was when it answered, and the message. */
  datatype Pull = Pull(peer: State, self: Node, msg: SignedMessage, now: uint64, observed: Option<SocketAddr>)

  /** `to` takes `p` as the answer of another daemon it trusts. */
  ghost predicate Delivers(p: Pull, to: State) {
    && Inv(p.peer) && p.peer.me.id != to.me.id
    && p.self.id == p.peer.me.id && p.msg.from == p.peer.me.id
    && p.msg.body.SyncResponse? && Answers(p.peer, p.self, p.msg.body.nodes)
    && Passes(to, p.msg, p.now)
  }

  function Receives(to: State, p: Pull): State {
    Process(to, p.msg, p.now, p.observed)
  }

  /** The hub after it has taken the answers one by one. */
  function Gather(hub: State, pulls: seq<Pull>): State {
    if pulls == [] then hub else Receives(Gather(hub, pulls[..|pulls| - 1]), pulls[|pulls| - 1])
  }

  ghost predicate Gathers(hub: State, pulls: seq<Pull>) {
    pulls != [] ==>
      Gathers(hub, pulls[..|pulls| - 1]) && Delivers(pulls[|pulls| - 1], Gather(hub, pulls[..|pulls| - 1]))
  }

  /** `id` is nobody who takes part, and no participant holds a client entry for it. */
  ghost predicate ThirdParty(hub: State, pulls: seq<Pull>, id: Id) {
    && id != hub.me.id && (id in hub.nodes ==> IsDaemon(hub.nodes[id]))
    && forall p :: p in pulls ==> id != p.peer.me.id && (id in p.peer.nodes ==> IsDaemon(p.peer.nodes[id]))
  }

  /** The entries the answering peers hold for `id`. */
  function HeldFor(pulls: seq<Pull>, id: Id): set<Node> {
    set p | p in pulls && id in p.peer.nodes :: p.peer.nodes[id]
  }

  lemma HeldForSnoc(pulls: seq<Pull>, id: Id)
    requires pulls != []
    ensures HeldFor(pulls, id) ==
      HeldFor(pulls[..|pulls| - 1], id) + AsSet(Lookup(pulls[|pulls| - 1].peer.nodes, id))
  {
    assert pulls == pulls[..|pulls| - 1] + [pulls[|pulls| - 1]];
  }

  lemma PullSettles(to: State, p: Pull, id: Id)
    requires Inv(to) && Delivers(p, to) && id != to.me.id && id != p.peer.me.id
    requires id in p.peer.nodes ==> IsDaemon(p.peer.nodes[id])
    ensures Inv(Receives(to, p)) && Receives(to, p).me == to.me
    ensures Settled(Lookup(to.nodes, id), AsSet(Lookup(p.peer.nodes, id)), Lookup(Receives(to, p).nodes, id))
  {
    ProcessKeeps(to, p.msg, p.now, p.observed);
    AnswerSettles(p.peer, p.self, p.msg.body.nodes, to, p.msg, p.now, p.observed, id);
  }

  /** The hub ends up with the latest of what it and the peers held. */
  lemma {:induction false} GatherSettles(hub: State, pulls: seq<Pull>, id: Id)
    requires Inv(hub) && Gathers(hub, pulls) && ThirdParty(hub, pulls, id)
    ensures Inv(Gather(hub, pulls)) && Gather(hub, pulls).me == hub.me
    ensures Settled(Lookup(hub.nodes, id), HeldFor(pulls, id), Lookup(Gather(hub, pulls).nodes, id))
  {
    if pulls == [] {
      assert HeldFor(pulls, id) == {};
    } else {
      var front, last := pulls[..|pulls| - 1], pulls[|pulls| - 1];
      assert ThirdParty(hub, front, id);
      GatherSettles(hub, front, id);
      PullSettles(Gather(hub, front), last, id);
      SettledThen(Lookup(hub.nodes, id), HeldFor(front, id), Lookup(Gather(hub, front).nodes, id),
                  AsSet(Lookup(last.peer.nodes, id)), Lookup(Gather(hub, pulls).nodes, id));
      HeldForSnoc(pulls, id);
    }
  }

  /** `e` is an entry of the greatest heartbeat in `init` and `recs`; there is none only if those have none. */
  ghost predicate Greatest(init: Option<Node>, recs: set<Node>, e: Option<Node>) {
    && (e.None? <==> init.None? && recs == {})
    && (e.Some? ==>
          && (init.Some? ==> init.value.heartbeat <= e.value.heartbeat)
          && (forall r :: r in recs ==> r.heartbeat <= e.value.heartbeat)
          && (init == e
              || exists r :: r in recs && r.heartbeat == e.value.heartbeat && IsDaemon(r) == IsDaemon(e.value)))
  }

  lemma SettledIsGreatest(init: Option<Node>, recs: set<Node>, e: Option<Node>)
    requires Settled(init, recs, e)
    ensures Greatest(init, recs, e)
  {
    if e.Some? && init != e {
      var r :| r in recs && Shows(e.value, r);
      assert r.heartbeat == e.value.heartbeat && IsDaemon(r) == IsDaemon(e.value);
    }
  }

  /** What `back` brings from the hub levels a peer that had answered it. */
  lemma PeerLevels(held: Option<Node>, init: Option<Node>, recs: set<Node>, hub: Option<Node>, peer: Option<Node>)
    requires Greatest(init, recs, hub) && (held.Some? ==> held.value in recs)
    requires Settled(held, AsSet(hub), peer)
    ensures peer.Some? <==> hub.Some?
    ensures hub.Some? ==> peer.value.heartbeat == hub.value.heartbeat
  {
    if hub.Some? {
      assert hub.value in AsSet(hub);
    }
  }

  /** When a hub has taken the answer of every peer and peer `k` has then taken the hub's, both hold the same
      third parties, each with the greatest heartbeat anybody held for it; so all views agree. */
  lemma {:induction false} HubAgreement(hub: State, pulls: seq<Pull>, k: nat, back: Pull, id: Id)
    requires Inv(hub) && Gathers(hub, pulls) && ThirdParty(hub, pulls, id)
    requires k < |pulls| && Inv(pulls[k].peer)
    requires back.peer == Gather(hub, pulls) && Delivers(back, pulls[k].peer)
    ensures var gathered, peer := Lookup(Gather(hub, pulls).nodes, id), Lookup(Receives(pulls[k].peer, back).nodes, id);
      && Greatest(Lookup(hub.nodes, id), HeldFor(pulls, id), gathered)
      && (peer.Some? <==> gathered.Some?)
      && (peer.Some? ==> peer.value.heartbeat == gathered.value.heartbeat)
  {
    var gathered := Lookup(Gather(hub, pulls).nodes, id);
    GatherSettles(hub, pulls, id);
    SettledIsGreatest(Lookup(hub.nodes, id), HeldFor(pulls, id), gathered);
    HeldAreDaemons(hub, pulls, id);
    PullSettles(pulls[k].peer, back, id);
    PeerLevels(Lookup(pulls[k].peer.nodes, id), Lookup(hub.nodes, id), HeldFor(pulls, id), gathered,
               Lookup(Receives(pulls[k].peer, back).nodes, id));
  }

  lemma {:induction false} HeldAreDaemons(hub: State, pulls: seq<Pull>, id: Id)
    requires ThirdParty(hub, pulls, id)
    requires Greatest(Lookup(hub.nodes, id), HeldFor(pulls, id), Lookup(Gather(hub, pulls).nodes, id))
    ensures id in Gather(hub, pulls).nodes ==> IsDaemon(Gather(hub, pulls).nodes[id])
  {
    var e := Lookup(Gather(hub, pulls).nodes, id);
    if e.Some? && e != Lookup(hub.nodes, id) {
      var r :| r in HeldFor(pulls, id) && r.heartbeat == e.value.heartbeat && IsDaemon(r) == IsDaemon(e.value);
    }
  }

  /** When B has pulled from A and A then pulls from B, both views hold the same third parties with the same
      heartbeats: the greater of the two for each. */
  lemma MutualPullAgrees(a: State, b: State, toB: Pull, toA: Pull, id: Id)
    requires Inv(a) && Inv(b) && OthersAreDaemons(a, b.me.id) && OthersAreDaemons(b, a.me.id)
    requires toB.peer == a && Delivers(toB, b)
    requires toA.peer == Receives(b, toB) && Delivers(toA, a)
    requires id != a.me.id && id != b.me.id
    ensures var atA, atB := Lookup(Receives(a, toA).nodes, id), Lookup(Receives(b, toB).nodes, id);
      && (atA.Some? <==> atB.Some?)
      && (atA.Some? ==> atA.value.heartbeat == atB.value.heartbeat)
      && Greatest(Lookup(b.nodes, id), AsSet(Lookup(a.nodes, id)), atB)
  {
    PullSettles(b, toB, id);
    var atB := Lookup(Receives(b, toB).nodes, id);
    SettledIsGreatest(Lookup(b.nodes, id), AsSet(Lookup(a.nodes, id)), atB);
    assert id in b.nodes ==> IsDaemon(b.nodes[id]);
    assert id in a.nodes ==> IsDaemon(a.nodes[id]);
    PullSettles(a, toA, id);
    PeerLevels(Lookup(a.nodes, id), Lookup(b.nodes, id), AsSet(Lookup(a.nodes, id)), atB,
               Lookup(Receives(a, toA).nodes, id));
  }
}
