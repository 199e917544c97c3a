/** The protocol a second time, as relations between the state before and the state after, with address
    sets, heartbeats and clock windows written out. Each step of `Protocol` is proved to be so related. */
module Effects {
  import opened Domain
  import opened Merge
  import opened Protocol
  import opened Invariant
  import Text

  // ---- Records ----

  /** `merged` is what `incoming` makes of the known record of the same node. A newer record wins every
      field, and its address too if that has an IP; an older or equal one only adds its IPs. Otherwise the
      IPs are united, and relays stay only where nobody has an IP. Addresses of different nodes are not
      united: the incoming one stands. */
  ghost predicate Combines(known: Option<Node>, incoming: Node, merged: Node) {
    match known
    case None => merged == incoming
    case Some(k) =>
      var newer := incoming.heartbeat > k.heartbeat;
      && (newer ==> merged == incoming.(addr := merged.addr))
      && (!newer ==> merged == k.(addr := merged.addr))
      && (newer && incoming.addr.ips != {} ==> merged.addr == incoming.addr)
      && (k.addr.id != incoming.addr.id ==> merged.addr == incoming.addr)
      && (k.addr.id == incoming.addr.id && !(newer && incoming.addr.ips != {}) ==>
            && merged.addr.id == incoming.addr.id
            && merged.addr.ips == k.addr.ips + incoming.addr.ips
            && merged.addr.relays == if merged.addr.ips != {} then {} else incoming.addr.relays)
  }

  lemma MergeCombines(known: Option<Node>, incoming: Node)
    ensures Combines(known, incoming, MergeNode(known, incoming))
  {
    if known.Some? {
      AddrUnited(known.value.addr, incoming.addr);
    }
  }

  lemma AddrUnited(known: EndpointAddr, incoming: EndpointAddr)
    ensures known.id != incoming.id ==> MergeAddr(known, incoming) == incoming
    ensures known.id == incoming.id ==>
      var merged := MergeAddr(known, incoming);
      && merged.id == known.id && merged.ips == known.ips + incoming.ips
      && merged.relays == if merged.ips != {} then {} else incoming.relays
  {
  }

  /** Nothing else fits: the relation determines the merged record. */
  lemma CombinesDetermines(known: Option<Node>, incoming: Node, a: Node, b: Node)
    requires Combines(known, incoming, a) && Combines(known, incoming, b)
    ensures a == b
  {
  }

  /** What is known of a node's IPs is not lost to a record without any, however new. */
  lemma KnownIpsSurvive(known: Node, incoming: Node, merged: Node)
    requires Combines(Some(known), incoming, merged)
    requires known.addr.id == incoming.addr.id && incoming.addr.ips == {}
    ensures merged.addr.ips == known.addr.ips
  {
  }

  /** The address a sender is filed under: the observed one alone, else the announced one if it is the
      sender's own, else none. */
  ghost predicate FiledAt(from: Id, announced: EndpointAddr, observed: Option<SocketAddr>, addr: EndpointAddr) {
    && addr.id == from
    && (observed.Some? ==> addr.ips == {observed.value} && addr.relays == {})
    && (observed.None? && announced.id == from ==> addr == announced)
    && (observed.None? && announced.id != from ==> addr.ips == {} && addr.relays == {})
  }

  lemma SenderAddrFiled(from: Id, announced: EndpointAddr, observed: Option<SocketAddr>)
    ensures FiledAt(from, announced, observed, SenderAddr(from, announced, observed))
  {
  }

  /** `t` is `s` after record `n` of another node was taken: it is the active entry of that node, and if it is
      a daemon it is combined with what was trusted of it. Nothing else changes. */
  ghost predicate Takes(s: State, n: Node, t: State) {
    && n.id != s.me.id
    && t == s.(nodes := s.nodes[n.id := n], trusted := t.trusted)
    && (CLIENT_MARKER in n.services ==> t.trusted == s.trusted)
    && (CLIENT_MARKER !in n.services ==>
          && n.id in t.trusted
          && t.trusted == s.trusted[n.id := t.trusted[n.id]]
          && Combines(Lookup(s.trusted, n.id), n, t.trusted[n.id]))
  }

  lemma AcceptTakes(s: State, n: Node)
    requires Inv(s) && n.id != s.me.id
    ensures Takes(s, n, Accept(s, n))
  {
    MergeCombines(Lookup(s.trusted, n.id), n);
    MergeKeepsId(Lookup(s.trusted, n.id), n);
  }

  // ---- Messages ----

  /** A message that is trusted and inside the window from 60 s back to 10 s ahead. */
  ghost predicate Counts(s: State, m: SignedMessage, now: uint64) {
    m.from in s.trusted && now - 60 <= m.timestamp <= now + 10
  }

  /** What a message that counts does first: the sender's entry, if there is one, gets the clock and the
      observed address, and so does what is trusted of a daemon when there is an observed address. */
  ghost predicate Stamps(s: State, from: Id, now: uint64, observed: Option<SocketAddr>, t: State) {
    && t == s.(nodes := t.nodes, trusted := t.trusted)
    && t.nodes.Keys == s.nodes.Keys
    && (forall id :: id in s.nodes && id != from ==> t.nodes[id] == s.nodes[id])
    && (from !in s.nodes ==> t.trusted == s.trusted)
    && (from in s.nodes ==>
          var was, entry := s.nodes[from], t.nodes[from];
          && entry == was.(addr := entry.addr, heartbeat := now)
          && (observed.None? ==> entry.addr == was.addr && t.trusted == s.trusted)
          && (observed.Some? ==> entry.addr == EndpointAddr(from, {observed.value}, {}))
          && (observed.Some? && CLIENT_MARKER in was.services ==> t.trusted == s.trusted)
          && (observed.Some? && CLIENT_MARKER !in was.services ==> t.trusted == s.trusted[from := entry]))
  }

  ghost predicate Begins(s: State, m: SignedMessage, now: uint64, observed: Option<SocketAddr>, t: State) {
    if Counts(s, m, now) then Stamps(s, m.from, now, observed, t) else t == s
  }

  lemma TouchStamps(s: State, from: Id, now: uint64, observed: Option<SocketAddr>)
    requires Inv(s) && from in s.trusted
    ensures Stamps(s, from, now, observed, Touch(s, from, now, observed))
  {
  }

  lemma TouchedBegins(s: State, m: SignedMessage, now: uint64, observed: Option<SocketAddr>) returns (mid: State)
    requires Inv(s)
    ensures Begins(s, m, now, observed, mid) && Inv(mid) && mid.me == s.me && mid.ticket == s.ticket
    ensures mid.trusted.Keys == s.trusted.Keys
    ensures Process(s, m, now, observed) == Handle(mid, Counts(s, m, now), m, now, observed)
  {
    mid := Touched(s, m, now, observed);
    if m.from in s.trusted {
      TouchStamps(s, m.from, now, observed);
    }
    TouchKeeps(s, m.from, now, observed);
  }

  /** Heartbeats and introductions stamp a trusted sender and do nothing more. */
  lemma HeartbeatStamps(s: State, m: SignedMessage, now: uint64, observed: Option<SocketAddr>)
    requires Inv(s) && (m.body.Heartbeat? || m.body.Introduce?)
    ensures Begins(s, m, now, observed, Process(s, m, now, observed))
  {
    var _ := TouchedBegins(s, m, now, observed);
  }

  /** Stamping leaves every other entry, the trusted ids and what is trusted of others, the clients and the
      table as they were. */
  lemma StampsSenderOnly(s: State, from: Id, now: uint64, observed: Option<SocketAddr>, t: State, other: Id)
    requires Inv(s) && from in s.trusted && Stamps(s, from, now, observed, t) && other != from
    ensures Lookup(t.nodes, other) == Lookup(s.nodes, other) && t.nodes.Keys == s.nodes.Keys
    ensures Lookup(t.trusted, other) == Lookup(s.trusted, other) && t.trusted.Keys == s.trusted.Keys
    ensures t.clients == s.clients && t.table == s.table && t.me == s.me && t.ticket == s.ticket
  {
  }

  /** A departure that counts stamps the sender and takes it out of the view; any other changes nothing. */
  lemma LeftRemovesSender(s: State, m: SignedMessage, now: uint64, observed: Option<SocketAddr>) returns (mid: State)
    requires Inv(s) && m.body.Left?
    ensures Begins(s, m, now, observed, mid)
    ensures Process(s, m, now, observed) == if Counts(s, m, now) then mid.(nodes := s.nodes - {m.from}) else s
  {
    mid := TouchedBegins(s, m, now, observed);
    if Counts(s, m, now) {
      DropSame(mid.nodes, s.nodes, m.from);
    }
  }

  lemma DropSame(a: map<Id, Node>, b: map<Id, Node>, id: Id)
    requires a.Keys == b.Keys && forall k :: k in b && k != id ==> a[k] == b[k]
    ensures a - {id} == b - {id}
  {
  }

  /** The message announces its sender: an AboutMe that counts, or an Invited with the ticket inside the window. */
  ghost predicate Announces(s: State, m: SignedMessage, now: uint64) {
    match m.body
    case AboutMe(_, _, _, _) => Counts(s, m, now)
    case Invited(topic, rnum, _, _, _, _) =>
      now - 60 <= m.timestamp <= now + 10 && topic == s.ticket.topic && rnum == s.ticket.rnum
    case _ => false
  }

  /** `n` is what an announcement makes of the sender's entry in `mid`. */
  ghost predicate Announced(mid: State, m: SignedMessage, now: uint64, observed: Option<SocketAddr>, n: Node)
    requires m.body.Invited? || m.body.AboutMe?
  {
    exists addr :: FiledAt(m.from, m.body.addr, observed, addr)
      && Combines(Lookup(mid.nodes, m.from),
                  Node(m.from, m.body.invitor, addr, m.body.alias, m.body.services, now), n)
  }

  lemma AnnounceTakes(mid: State, m: SignedMessage, now: uint64, observed: Option<SocketAddr>) returns (n: Node)
    requires Inv(mid) && (m.body.Invited? || m.body.AboutMe?)
    ensures var t := Announce(mid, m.from, m.body.addr, m.body.alias, m.body.services, m.body.invitor, now, observed);
      if m.from == mid.me.id then t == mid else Announced(mid, m, now, observed, n) && Takes(mid, n, t)
  {
    var addr := SenderAddr(m.from, m.body.addr, observed);
    var incoming := Node(m.from, m.body.invitor, addr, m.body.alias, m.body.services, now);
    n := MergeNode(Lookup(mid.nodes, m.from), incoming);
    SenderAddrFiled(m.from, m.body.addr, observed);
    MergeCombines(Lookup(mid.nodes, m.from), incoming);
    MergeKeepsId(Lookup(mid.nodes, m.from), incoming);
    if m.from != mid.me.id {
      AcceptTakes(mid, n);
    }
  }

  /** An announcement stamps a trusted sender and is then combined with its active entry; the outcome is
      taken. Announcements that are not accepted only stamp, if they count at all. */
  lemma AnnouncementTakes(s: State, m: SignedMessage, now: uint64, observed: Option<SocketAddr>)
    returns (mid: State, n: Node)
    requires Inv(s) && (m.body.Invited? || m.body.AboutMe?)
    ensures Begins(s, m, now, observed, mid)
    ensures !Announces(s, m, now) || m.from == s.me.id ==> Process(s, m, now, observed) == mid
    ensures Announces(s, m, now) && m.from != s.me.id ==>
      Announced(mid, m, now, observed, n) && Takes(mid, n, Process(s, m, now, observed))
  {
    mid := TouchedBegins(s, m, now, observed);
    n := AnnounceTakes(mid, m, now, observed);
  }

  /** `t` is `s` after one record of a sync message from `from`: skipped if it is of this daemon, of a client,
      or not newer than the entry; else combined with the entry, a record of the sender under the address
      the sender is filed at. */
  ghost predicate TakesRecord(s: State, from: Id, observed: Option<SocketAddr>, r: Node, t: State) {
    if r.id == s.me.id || CLIENT_MARKER in r.services
       || (r.id in s.nodes && s.nodes[r.id].heartbeat >= r.heartbeat) then t == s
    else
      exists addr, n ::
        && (if r.id == from then FiledAt(from, r.addr, observed, addr) else addr == r.addr)
        && Combines(Lookup(s.nodes, r.id), r.(addr := addr), n)
        && Takes(s, n, t)
  }

  lemma AbsorbTakesRecord(s: State, from: Id, observed: Option<SocketAddr>, r: Node)
    requires Inv(s)
    ensures TakesRecord(s, from, observed, r, Absorb(s, from, observed, r))
  {
    var addr := if r.id == from then SenderAddr(from, r.addr, observed) else r.addr;
    var rec := r.(addr := addr);
    var n := MergeNode(Lookup(s.nodes, r.id), rec);
    SenderAddrFiled(from, r.addr, observed);
    MergeCombines(Lookup(s.nodes, r.id), rec);
    MergeKeepsId(Lookup(s.nodes, r.id), rec);
    if r.id != s.me.id {
      AcceptTakes(s, n);
    }
  }

  /** `states` leads through the records one by one, in order. */
  ghost predicate LeadsThrough(states: seq<State>, from: Id, observed: Option<SocketAddr>, recs: seq<Node>) {
    && |states| == |recs| + 1
    && forall i :: 0 <= i < |recs| ==> TakesRecord(states[i], from, observed, recs[i], states[i + 1])
  }

  lemma LeadsSnoc(states: seq<State>, from: Id, observed: Option<SocketAddr>, recs: seq<Node>, r: Node, t: State)
    requires LeadsThrough(states, from, observed, recs) && TakesRecord(states[|recs|], from, observed, r, t)
    ensures LeadsThrough(states + [t], from, observed, recs + [r])
  {
    var all, more := states + [t], recs + [r];
    forall i | 0 <= i < |more| ensures TakesRecord(all[i], from, observed, more[i], all[i + 1]) {
      assert all[i] == states[i];
    }
  }

  lemma {:induction false} AbsorbAllLeads(s: State, from: Id, observed: Option<SocketAddr>, recs: seq<Node>)
    returns (states: seq<State>)
    requires Inv(s)
    ensures LeadsThrough(states, from, observed, recs)
    ensures states[0] == s && states[|recs|] == AbsorbAll(s, from, observed, recs)
  {
    if recs == [] {
      return [s];
    }
    var n := |recs| - 1;
    var front, last := recs[..n], recs[n];
    var before := AbsorbAllLeads(s, from, observed, front);
    AbsorbAllKeeps(s, from, observed, front);
    AbsorbTakesRecord(before[n], from, observed, last);
    LeadsSnoc(before, from, observed, front, last, AbsorbAll(s, from, observed, recs));
    assert recs == front + [last];
    states := before + [AbsorbAll(s, from, observed, recs)];
  }

  /** A sync message that counts stamps its sender and then takes its records one by one; any other
      changes nothing. */
  lemma SyncTakesRecords(s: State, m: SignedMessage, now: uint64, observed: Option<SocketAddr>)
    returns (states: seq<State>)
    requires Inv(s) && (m.body.SyncRequest? || m.body.SyncResponse?)
    ensures !Counts(s, m, now) ==> Process(s, m, now, observed) == s
    ensures Counts(s, m, now) ==>
      && LeadsThrough(states, m.from, observed, m.body.nodes)
      && Stamps(s, m.from, now, observed, states[0])
      && states[|m.body.nodes|] == Process(s, m, now, observed)
  {
    var mid := TouchedBegins(s, m, now, observed);
    states := AbsorbAllLeads(mid, m.from, observed, m.body.nodes);
  }

  /** After one sync record without IPs, however new, an active third party keeps its IPs. */
  lemma RecordKeepsKnownIps(s: State, from: Id, observed: Option<SocketAddr>, r: Node)
    requires Inv(s) && r.id in s.nodes && r.id != from
    requires s.nodes[r.id].addr.id == r.addr.id && r.addr.ips == {}
    ensures r.id in Absorb(s, from, observed, r).nodes
    ensures Absorb(s, from, observed, r).nodes[r.id].addr.ips == s.nodes[r.id].addr.ips
  {
    AbsorbTakesRecord(s, from, observed, r);
    var t := Absorb(s, from, observed, r);
    if t != s {
      var addr, n :| addr == r.addr && Combines(Lookup(s.nodes, r.id), r.(addr := addr), n) && Takes(s, n, t);
      KnownIpsSurvive(s.nodes[r.id], r, n);
    }
  }

  /** An answer lists each daemon-flagged active entry exactly once and nothing else, and then the own record:
      as it was made at the start, under the current address, at the current time. */
  lemma AnswerIs(s: State, local: EndpointAddr, now: uint64, recs: seq<Node>)
    requires Inv(s) && Answers(s, SelfRecord(s, local, now), recs)
    ensures var n := |recs| - 1;
      && n >= 0
      && recs[n] == Node(s.me.id, s.me.invitor, local, s.me.domain, s.me.services, now)
      && (forall r :: r in recs[..n] <==> r.id in s.nodes && s.nodes[r.id] == r && CLIENT_MARKER !in r.services)
      && (forall i, j :: 0 <= i < j < n ==> recs[i].id != recs[j].id)
  {
    var n := |recs| - 1;
    forall r ensures r in recs[..n] <==> r.id in s.nodes && s.nodes[r.id] == r && CLIENT_MARKER !in r.services {
      if r in recs[..n] {
        var i :| 0 <= i < n && recs[..n][i] == r;
        assert recs[i] == r;
      }
    }
    forall i, j | 0 <= i < j < n ensures recs[i].id != recs[j].id {
      assert recs[..n][i] == recs[i] && recs[..n][j] == recs[j];
    }
  }

  // ---- Saving and starting ----

  /** A save writes the trusted record of every trusted id over its row and touches no other row. */
  lemma SaveWrites(s: State, id: Id)
    requires Inv(s)
    ensures var t := Next(s, SaveTick);
      && t == s.(table := t.table)
      && Lookup(t.table, id) == if id in s.trusted then Some(s.trusted[id]) else Lookup(s.table, id)
  {
  }

  /** The row holds a daemon record of another node. */
  ghost predicate Starts(table: map<Id, Node>, me: Id, id: Id) {
    id in table && CLIENT_MARKER !in table[id].services && id != me
  }

  /** What a started daemon `t` knows of `id`. Apart from the invitor of its ticket, an id is active and trusted
      if and only if its row holds a daemon record of another node, and both entries are that record. The
      invitor is active with exactly the ticket's record, and trusted with it if that is a daemon record of
      another node. */
  ghost predicate Knows(table: map<Id, Node>, me: Id, b: Boot, t: State, id: Id) {
    var row := if Starts(table, me, id) then Some(table[id]) else None;
    if b.ticket.Some? && id == b.ticket.value.invitor.id then
      var peer := b.ticket.value.invitor;
      && Lookup(t.nodes, id) == Some(peer)
      && Lookup(t.trusted, id) == if CLIENT_MARKER !in peer.services && id != me then Some(peer) else row
    else Lookup(t.nodes, id) == row && Lookup(t.trusted, id) == row
  }

  /** Who a started daemon `t` is, and which network it belongs to: that of the ticket for a daemon that joins,
      else the stored one. No client is registered, and the table is as it was found. */
  ghost predicate IsStarted(table: map<Id, Node>, me: Id, stored: Ticket, b: Boot, t: State) {
    && t.me.id == me && t.me.addr == b.addr && t.me.domain == b.domain
    && t.me.services == map[] && t.me.heartbeat == b.now
    && t.me.invitor == (if b.ticket.Some? then b.ticket.value.invitor.id else me)
    && t.clients == {} && t.table == table
    && (if b.ticket.Some? && !b.primary then t.ticket == b.ticket.value
        else t.ticket.topic == stored.topic && t.ticket.rnum == stored.rnum && t.ticket.invitor == t.me)
  }

  lemma StartIs(me: Id, stored: Ticket, table: map<Id, Node>, b: Boot, t: State)
    requires t == Start(me, stored, table, b)
    ensures IsStarted(table, me, stored, b, t) && forall id :: Knows(table, me, b, t, id)
  {
  }

  /** A restart starts from what a state leaves behind, with or without a ticket. */
  lemma RestartIs(s: State, b: Boot)
    ensures var t := Next(s, Reboot(b));
      IsStarted(s.table, s.me.id, s.ticket, b, t) && forall id :: Knows(s.table, s.me.id, b, t, id)
  {
    StartIs(s.me.id, s.ticket, s.table, b, Next(s, Reboot(b)));
  }

  // ---- Administration ----

  /** The request shows the secret, or need not. */
  ghost predicate Authentic(s: State, req: AuthRequest, mode: AuthMode) {
    || mode == AllowLocalTicketless
    || (req.ticket.Some? && req.ticket.value.topic == s.ticket.topic && req.ticket.value.rnum == s.ticket.rnum)
  }

  /** A login files exactly one entry, for an authentic request under a new key: marked as a client, invited by
      this daemon, without an address, under the given name or one made from the key, at the current time. */
  lemma LoginFiles(s: State, req: AuthRequest, mode: AuthMode, now: uint64)
    ensures var t := Login(s, req, mode, now);
      && (AuthAllowed(s, req, mode) <==> Authentic(s, req, mode))
      && (!Authentic(s, req, mode) || req.client.None? || req.client.value in s.clients ==> t == s)
      && (Authentic(s, req, mode) && req.client.Some? && req.client.value !in s.clients ==>
            var key := req.client.value;
            && key in t.nodes && t == s.(nodes := s.nodes[key := t.nodes[key]], clients := s.clients + {key})
            && t.nodes[key].id == key && t.nodes[key].invitor == s.me.id
            && t.nodes[key].addr == EndpointAddr(key, {}, {})
            && t.nodes[key].domain == (if req.name.Some? then req.name.value else "client-" + key.text)
            && t.nodes[key].services == map["_p2p_ddns_client" := 1] && t.nodes[key].heartbeat == now)
  {
  }

  /** AddNode refuses what is no ticket and what is of another network, and otherwise takes the node the
      ticket names and stores it; of a ticket that names this daemon it only stores the record. */
  lemma AddNodeTakes(s: State, ticket: Option<Ticket>)
    requires Inv(s)
    ensures ticket.None? ==> AddNode(s, ticket) == (s, Rejected(InvalidTicket))
    ensures ticket.Some? && ticket.value.topic != s.ticket.topic ==> AddNode(s, ticket) == (s, Rejected(TopicMismatch))
    ensures ticket.Some? && ticket.value.topic == s.ticket.topic ==>
      var (t, outcome) := AddNode(s, ticket);
      var n := ticket.value.invitor;
      && outcome == Ack && t.table == s.table[n.id := n]
      && (if n.id == s.me.id then t == s.(table := t.table) else Takes(s, n, t.(table := s.table)))
  {
    if ticket.Some? && ticket.value.topic == s.ticket.topic && ticket.value.invitor.id != s.me.id {
      AcceptTakes(s, ticket.value.invitor);
    }
  }

  /** `a` and `b` are the same character up to the case of an ASCII letter. */
  ghost predicate SameLetter(a: char, b: char) {
    || a == b
    || ('A' <= a <= 'Z' && b as int == a as int + 32)
    || ('A' <= b <= 'Z' && a as int == b as int + 32)
  }

  /** A prefix matches the beginning of an id's text, letter by letter. */
  lemma PrefixMatches(id: Id, prefix: string)
    ensures HasPrefix(id, prefix) <==>
      |prefix| <= |id.text| && forall i :: 0 <= i < |prefix| ==> SameLetter(prefix[i], id.text[i])
  {
    var lower, text := Text.ToLower(prefix), Text.ToLower(id.text);
    if HasPrefix(id, prefix) {
      forall i | 0 <= i < |prefix| ensures SameLetter(prefix[i], id.text[i]) {
        assert lower[i] == text[i];
        LowerIsSameLetter(prefix[i], id.text[i]);
      }
    }
    if |prefix| <= |id.text| && forall i :: 0 <= i < |prefix| ==> SameLetter(prefix[i], id.text[i]) {
      forall i | 0 <= i < |prefix| ensures lower[i] == text[i] {
        LowerIsSameLetter(prefix[i], id.text[i]);
      }
      assert lower == text[..|prefix|];
    }
  }

  lemma LowerIsSameLetter(a: char, b: char)
    ensures Text.ToLowerChar(a) == Text.ToLowerChar(b) <==> SameLetter(a, b)
  {
  }
}
