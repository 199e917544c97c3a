/** One running daemon. Its methods work in place; each is proved to take the state where the
    function of the same step in `Protocol` does. */
module Daemon {
  import opened Domain
  import opened Effects
  import opened Merge
  import opened Protocol
  import opened Invariant
  import opened Housekeeping
  import opened Storage

  /** The registered management clients. */
  class ClientRegistry {
    var clients: set<Id>

    constructor ()
      ensures clients == {}
    {
      clients := {};
    }
  }

  class Context {
    const me: Node
    const ticket: Ticket
    const storage: NodeTable
    const registry: ClientRegistry
    var nodes: map<Id, Node>
    var trusted: map<Id, Node>

    ghost function View(): State
      reads this, storage, registry
    {
      State(me, ticket, nodes, trusted, registry.clients, storage.table)
    }

    ghost predicate Valid()
      reads this, storage, registry
    {
      Inv(View())
    }

    /** Start-up over a node table that may hold outdated records, with a fresh client registry. */
    constructor (id: Id, stored: Ticket, storage: NodeTable, boot: Boot)
      requires Keyed(storage.table)
      ensures this.storage == storage && fresh(registry)
      ensures View() == Start(id, stored, storage.table, boot)
      ensures IsStarted(storage.table, id, stored, boot, View())
      ensures forall k :: Knows(storage.table, id, boot, View(), k)
      ensures Valid()
    {
      var invitor := if boot.ticket.Some? then boot.ticket.value.invitor.id else id;
      var self := Node(id, invitor, boot.addr, boot.domain, map[], boot.now);
      var known := LoadKnown(storage, id);
      var registry := new ClientRegistry();
      this.me := self;
      this.ticket := if !boot.primary && boot.ticket.Some? then boot.ticket.value else stored.(invitor := self);
      this.storage := storage;
      this.registry := registry;
      var active, trust := known, known;
      if boot.ticket.Some? {
        var peer := boot.ticket.value.invitor;
        if IsDaemon(peer) && peer.id != id {
          trust := trust[peer.id := peer];
        }
        active := active[peer.id := peer];
      }
      this.nodes := active;
      this.trusted := trust;
      new;
      StartIs(id, stored, storage.table, boot, View());
    }

    /** Loads the table and keeps the daemon records of other nodes. */
    static method LoadKnown(storage: NodeTable, id: Id) returns (known: map<Id, Node>)
      requires Keyed(storage.table)
      ensures known == Persisted(storage.table, id)
    {
      var persisted := storage.LoadNodes();
      known := map[];
      var i := 0;
      while i < |persisted|
        invariant 0 <= i <= |persisted|
        invariant forall n :: n in persisted <==> exists id :: id in storage.table && storage.table[id] == n
        invariant forall k :: k in known ==> k in storage.table && known[k] == storage.table[k]
        invariant forall k :: k in known <==>
          k in storage.table && storage.table[k] in persisted[..i] && IsDaemon(storage.table[k]) && k != id
      {
        var node := persisted[i];
        assert node in persisted;
        if IsDaemon(node) && node.id != id {
          known := known[node.id := node];
        }
        assert persisted[..i + 1] == persisted[..i] + [node];
        i := i + 1;
      }
      assert persisted[..i] == persisted;
    }

    // ---- Records ----

    method UpsertActiveNode(node: Node)
      modifies this`nodes
      ensures View() == Upsert(old(View()), node)
    {
      if node.id == me.id {
        return;
      }
      nodes := nodes[node.id := node];
    }

    method TrustDaemonNode(node: Node)
      modifies this`trusted
      ensures View() == TrustDaemon(old(View()), node)
    {
      if node.id == me.id || !IsDaemon(node) {
        return;
      }
      var merged := MergeNode(Lookup(trusted, node.id), node);
      trusted := trusted[merged.id := merged];
    }

    method UntrustNode(id: Id)
      modifies this`trusted
      ensures View() == old(View()).(trusted := old(trusted) - {id})
    {
      trusted := trusted - {id};
    }

    /** Files the observed address of a sender; false if there is none or the sender is not active. */
    method RefreshSenderObservedAddr(from: Id, now: uint64, observed: Option<SocketAddr>) returns (refreshed: bool)
      modifies this`nodes, this`trusted
      ensures refreshed <==> observed.Some? && from in old(nodes)
      ensures View() == if refreshed then Touch(old(View()), from, now, observed) else old(View())
    {
      if observed.None? || from !in nodes {
        return false;
      }
      var merged := nodes[from].(addr := ObservedAddr(from, observed.value), heartbeat := now);
      if from in trusted && IsDaemon(merged) {
        trusted := trusted[from := merged];
      }
      UpsertActiveNode(merged);
      return true;
    }

    method AcceptAnnouncement(from: Id, addr: EndpointAddr, alias: string, services: map<string, uint32>, invitor: Id,
                              now: uint64, observed: Option<SocketAddr>)
      modifies this`nodes, this`trusted
      ensures View() == Announce(old(View()), from, addr, alias, services, invitor, now, observed)
    {
      var incoming := Node(from, invitor, SenderAddr(from, addr, observed), alias, services, now);
      var node := MergeNode(Lookup(nodes, from), incoming);
      TrustDaemonNode(node);
      UpsertActiveNode(node);
    }

    /** The loop over the records of a sync message. */
    method AbsorbRecords(from: Id, observed: Option<SocketAddr>, recs: seq<Node>)
      modifies this`nodes, this`trusted
      ensures View() == AbsorbAll(old(View()), from, observed, recs)
    {
      var i := 0;
      while i < |recs|
        invariant 0 <= i <= |recs|
        invariant View() == AbsorbAll(old(View()), from, observed, recs[..i])
      {
        assert recs[..i + 1][..i] == recs[..i];
        AbsorbRecord(from, observed, recs[i]);
        i := i + 1;
      }
      assert recs[..|recs|] == recs;
    }

    method AbsorbRecord(from: Id, observed: Option<SocketAddr>, rec: Node)
      modifies this`nodes, this`trusted
      ensures View() == Absorb(old(View()), from, observed, rec)
    {
      if rec.id == me.id || !IsDaemon(rec) {
        return;
      }
      var node := rec;
      if node.id == from {
        node := node.(addr := SenderAddr(from, node.addr, observed));
      }
      var existing := Lookup(nodes, node.id);
      if existing.None? || existing.value.heartbeat < node.heartbeat {
        var merged := MergeNode(existing, node);
        TrustDaemonNode(merged);
        UpsertActiveNode(merged);
      }
    }

    // ---- Messages ----

    /** What a passing message does first. */
    method TouchSender(from: Id, now: uint64, observed: Option<SocketAddr>)
      modifies this`nodes, this`trusted
      ensures View() == Touch(old(View()), from, now, observed)
    {
      var refreshed := RefreshSenderObservedAddr(from, now, observed);
      if !refreshed && from in nodes {
        nodes := nodes[from := nodes[from].(heartbeat := now)];
      }
    }

    /** A verified message arrives. A sync request is answered whoever sent it. */
    method ProcessMessage(m: SignedMessage, now: uint64, observed: Option<SocketAddr>, local: EndpointAddr)
      returns (reply: Option<seq<Node>>)
      requires Valid()
      modifies this`nodes, this`trusted
      ensures Valid()
      ensures View() == Process(old(View()), m, now, observed)
      ensures reply.Some? <==> m.body.SyncRequest?
      ensures reply.Some? ==> Answers(View(), SelfRecord(View(), local, now), reply.value)
    {
      ProcessKeeps(View(), m, now, observed);
      reply := None;
      var isFresh := IsFresh(m.timestamp, now);
      var passed := m.from in trusted && isFresh;
      if passed {
        TouchSender(m.from, now, observed);
      }
      HandleMessage(m, passed, isFresh, now, observed);
      if m.body.SyncRequest? {
        var answer := CollectAnswer(now, local);
        reply := Some(answer);
      }
    }

    /** The match over the message variants. */
    method HandleMessage(m: SignedMessage, passed: bool, isFresh: bool, now: uint64, observed: Option<SocketAddr>)
      requires isFresh == IsFresh(m.timestamp, now)
      modifies this`nodes, this`trusted
      ensures View() == Handle(old(View()), passed, m, now, observed)
    {
      match m.body
      case Invited(topic, rnum, addr, alias, services, invitor) =>
        if !isFresh || !ticket.Validates(topic, rnum) {
          return;
        }
        AcceptAnnouncement(m.from, addr, alias, services, invitor, now, observed);
      case AboutMe(addr, alias, services, invitor) =>
        if !passed {
          return;
        }
        AcceptAnnouncement(m.from, addr, alias, services, invitor, now, observed);
      case Introduce(_) =>
      case Heartbeat =>
      case Left =>
        if !passed {
          return;
        }
        nodes := nodes - {m.from};
      case SyncRequest(recs) =>
        if passed {
          AbsorbRecords(m.from, observed, recs);
        }
      case SyncResponse(recs) =>
        if passed {
          AbsorbRecords(m.from, observed, recs);
        }
    }

    method CollectAnswer(now: uint64, local: EndpointAddr) returns (recs: seq<Node>)
      requires Valid()
      ensures Answers(View(), SelfRecord(View(), local, now), recs)
    {
      recs := [];
      var rest := nodes.Keys;
      while rest != {}
        invariant rest <= nodes.Keys
        invariant forall i :: 0 <= i < |recs| ==>
          recs[i].id in nodes && recs[i].id !in rest && IsDaemon(recs[i]) && nodes[recs[i].id] == recs[i]
        invariant forall id :: id in nodes && id !in rest && IsDaemon(nodes[id]) ==> nodes[id] in recs
        invariant DistinctIds(recs)
        decreases rest
      {
        var id :| id in rest;
        if IsDaemon(nodes[id]) {
          recs := recs + [nodes[id]];
        }
        rest := rest - {id};
      }
      ghost var listed := recs;
      recs := recs + [me.(addr := local, heartbeat := now)];
      assert recs[..|recs| - 1] == listed;
    }

    // ---- Housekeeping ----

    /** Drops stale daemons, then all but one entry per domain. `order` is the iteration order met. */
    method Cleanup(now: uint64) returns (ghost order: seq<Id>)
      requires Valid()
      modifies this`nodes
      ensures Valid()
      ensures Lists(order, Aged(old(nodes), now).Keys)
      ensures View() == Next(old(View()), CleanupTick(now, order))
    {
      ghost var before := nodes;
      var stale: seq<Id> := [];
      var rest := nodes.Keys;
      while rest != {}
        invariant rest <= nodes.Keys
        invariant forall id :: id in stale <==> id in nodes && id !in rest && IsStale(nodes[id], now)
        decreases rest
      {
        var id :| id in rest;
        if IsStale(nodes[id], now) {
          stale := stale + [id];
        }
        rest := rest - {id};
      }
      DropAll(stale);
      assert nodes == Aged(before, now);

      var snapshot: seq<Node>;
      snapshot, order := TakeSnapshot();
      var losers := IdsToRemoveForDuplicateDomains(snapshot);
      DropAll(losers);
      assert nodes == Protocol.Cleanup(before, now, order);
      NextKeeps(old(View()), CleanupTick(now, order));
    }

    method DropAll(ids: seq<Id>)
      modifies this`nodes
      ensures nodes == old(nodes) - (set id | id in ids)
    {
      var i := 0;
      while i < |ids|
        invariant 0 <= i <= |ids|
        invariant nodes == old(nodes) - (set id | id in ids[..i])
      {
        nodes := nodes - {ids[i]};
        assert ids[..i + 1] == ids[..i] + [ids[i]];
        i := i + 1;
      }
      assert ids[..i] == ids;
    }

    method TakeSnapshot() returns (snapshot: seq<Node>, ghost order: seq<Id>)
      ensures Lists(order, nodes.Keys)
      ensures snapshot == Snapshot(nodes, order)
    {
      snapshot, order := [], [];
      var rest := nodes.Keys;
      while rest != {}
        invariant rest <= nodes.Keys
        invariant Lists(order, nodes.Keys - rest)
        invariant snapshot == Snapshot(nodes, order)
        decreases rest
      {
        var id :| id in rest;
        assert (order + [id])[..|order|] == order;
        snapshot := snapshot + [nodes[id]];
        order := order + [id];
        rest := rest - {id};
      }
      assert nodes.Keys - rest == nodes.Keys;
    }

    method Save()
      requires Valid()
      modifies storage
      ensures Valid()
      ensures View() == Protocol.Save(old(View()))
    {
      NextKeeps(View(), SaveTick);
      var records := CollectTrusted();
      storage.BatchSaveNodes(records);
    }

    method CollectTrusted() returns (records: seq<Node>)
      requires Valid()
      ensures InsertAll(storage.table, records) == Protocol.Save(View()).table
    {
      records := [];
      ghost var saved: map<Id, Node> := map[];
      var rest := trusted.Keys;
      while rest != {}
        invariant rest <= trusted.Keys
        invariant forall id :: id in saved <==> id in trusted && id !in rest && id != me.id && IsDaemon(trusted[id])
        invariant forall id :: id in saved ==> saved[id] == trusted[id]
        invariant InsertAll(storage.table, records) == storage.table + saved
        decreases rest
      {
        var id :| id in rest;
        var node := trusted[id];
        if id != me.id && IsDaemon(node) {
          assert node.id == id;
          InsertOneMore(storage.table, records, node, saved);
          records := records + [node];
          saved := saved[id := node];
        }
        rest := rest - {id};
      }
      assert saved == map id | id in trusted && id != me.id && IsDaemon(trusted[id]) :: trusted[id];
    }
  }
}
