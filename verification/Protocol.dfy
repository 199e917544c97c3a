/** The membership and trust protocol of one daemon, as functions from state to state.
    Class `Daemon` runs the same steps in place and is proved equal to these. */
module Protocol {
  import opened Domain
  import opened Merge
  import Text

  const STALE_NODE_TTL_SECS: uint64 := 90

  /** Everything one daemon remembers. `table` is the part that survives a crash. */
  datatype State = State(
    me: Node,
    ticket: Ticket,
    nodes: map<Id, Node>,
    trusted: map<Id, Node>,
    clients: set<Id>,
    table: map<Id, Node>)

  // ---- Building blocks ----

  function Upsert(s: State, n: Node): State {
    if n.id == s.me.id then s else s.(nodes := s.nodes[n.id := n])
  }

  function TrustDaemon(s: State, n: Node): State {
    if n.id == s.me.id || !IsDaemon(n) then s
    else
      var merged := MergeNode(Lookup(s.trusted, n.id), n);
      s.(trusted := s.trusted[merged.id := merged])
  }

  /** Take a merged record into the trusted set and the active view. */
  function Accept(s: State, n: Node): State {
    Upsert(TrustDaemon(s, n), n)
  }

  function ObservedAddr(from: Id, sock: SocketAddr): EndpointAddr {
    EndpointAddr(from, {sock}, {})
  }

  /** The address to file a sender under: the observed one wins over the announced one. */
  function SenderAddr(from: Id, addr: EndpointAddr, observed: Option<SocketAddr>): EndpointAddr {
    match observed
    case Some(sock) => ObservedAddr(from, sock)
    case None => if addr.id == from then addr else NoAddr(from)
  }

  /** What every passing message does to the entry of its sender. */
  function Touch(s: State, from: Id, now: uint64, observed: Option<SocketAddr>): State {
    if from !in s.nodes then s
    else
      match observed
      case Some(sock) =>
        var merged := s.nodes[from].(addr := ObservedAddr(from, sock), heartbeat := now);
        var s1 := if from in s.trusted && IsDaemon(merged) then s.(trusted := s.trusted[from := merged]) else s;
        Upsert(s1, merged)
      case None =>
        s.(nodes := s.nodes[from := s.nodes[from].(heartbeat := now)])
  }

  /** A peer announcing itself, by Invited or AboutMe. */
  function Announce(s: State, from: Id, addr: EndpointAddr, alias: string, services: map<string, uint32>, invitor: Id,
                    now: uint64, observed: Option<SocketAddr>): State
  {
    var incoming := Node(from, invitor, SenderAddr(from, addr, observed), alias, services, now);
    Accept(s, MergeNode(Lookup(s.nodes, from), incoming))
  }

  /** One record of a sync message. */
  function Absorb(s: State, from: Id, observed: Option<SocketAddr>, r: Node): State {
    if r.id == s.me.id || !IsDaemon(r) then s
    else
      var rec := if r.id == from then r.(addr := SenderAddr(from, r.addr, observed)) else r;
      var existing := Lookup(s.nodes, rec.id);
      if existing.None? || existing.value.heartbeat < rec.heartbeat then
        Accept(s, MergeNode(existing, rec))
      else s
  }

  function AbsorbAll(s: State, from: Id, observed: Option<SocketAddr>, recs: seq<Node>): State {
    if recs == [] then s
    else Absorb(AbsorbAll(s, from, observed, recs[..|recs| - 1]), from, observed, recs[|recs| - 1])
  }

  // ---- Messages ----

  predicate Passes(s: State, m: SignedMessage, now: uint64) {
    m.from in s.trusted && IsFresh(m.timestamp, now)
  }

  predicate ValidInvite(s: State, m: SignedMessage, now: uint64) {
    m.body.Invited? && IsFresh(m.timestamp, now) && s.ticket.Validates(m.body.topic, m.body.rnum)
  }

  /** The sender's entry is touched first, by passing messages only. */
  function Touched(s: State, m: SignedMessage, now: uint64, observed: Option<SocketAddr>): State {
    if Passes(s, m, now) then Touch(s, m.from, now, observed) else s
  }

  /** The variant-specific part; `passed` was decided before the sender was touched. */
  function Handle(s: State, passed: bool, m: SignedMessage, now: uint64, observed: Option<SocketAddr>): State {
    match m.body
    case Invited(_, _, addr, alias, services, invitor) =>
      if !ValidInvite(s, m, now) then s
      else Announce(s, m.from, addr, alias, services, invitor, now, observed)
    case AboutMe(addr, alias, services, invitor) =>
      if !passed then s else Announce(s, m.from, addr, alias, services, invitor, now, observed)
    case Introduce(_) => s
    case Heartbeat => s
    case Left => if !passed then s else s.(nodes := s.nodes - {m.from})
    case SyncRequest(recs) => if passed then AbsorbAll(s, m.from, observed, recs) else s
    case SyncResponse(recs) => if passed then AbsorbAll(s, m.from, observed, recs) else s
  }

  function Process(s: State, m: SignedMessage, now: uint64, observed: Option<SocketAddr>): State {
    Handle(Touched(s, m, now, observed), Passes(s, m, now), m, now, observed)
  }

  /** The daemon's own record as it goes out: current address, current clock. */
  function SelfRecord(s: State, addr: EndpointAddr, now: uint64): Node {
    s.me.(addr := addr, heartbeat := now)
  }

  /** `recs` answers a sync request: the daemon-flagged active entries, each once and in any order,
      then the own record. */
  ghost predicate Answers(s: State, self: Node, recs: seq<Node>) {
    var n := |recs| - 1;
    && n >= 0
    && recs[n] == self
    && (forall i :: 0 <= i < n ==> IsDaemon(recs[i]) && recs[i].id in s.nodes && s.nodes[recs[i].id] == recs[i])
    && (forall id :: id in s.nodes && IsDaemon(s.nodes[id]) ==> s.nodes[id] in recs[..n])
    && DistinctIds(recs[..n])
  }

  // ---- Housekeeping ----

  predicate IsStale(n: Node, now: uint64) {
    IsDaemon(n) && SaturatingSub(now, n.heartbeat) > STALE_NODE_TTL_SECS
  }

  function Aged(nodes: map<Id, Node>, now: uint64): map<Id, Node> {
    map id | id in nodes && !IsStale(nodes[id], now) :: nodes[id]
  }

  /** The entries of a view, listed in the given order. */
  function Snapshot(nodes: map<Id, Node>, order: seq<Id>): seq<Node> {
    if order == [] then []
    else
      var n := |order| - 1;
      Snapshot(nodes, order[..n]) + (if order[n] in nodes then [nodes[order[n]]] else [])
  }

  function Cleanup(nodes: map<Id, Node>, now: uint64, order: seq<Id>): map<Id, Node> {
    var aged := Aged(nodes, now);
    var snapshot := Snapshot(aged, order);
    aged - (set id | id in DomainLosers(snapshot))
  }

  /** Saving adds every trusted daemon record to the table and deletes nothing. */
  function Save(s: State): State {
    s.(table := s.table + map id | id in s.trusted && id != s.me.id && IsDaemon(s.trusted[id]) :: s.trusted[id])
  }

  /** What a start reads back: the stored daemon records of other nodes. */
  function Persisted(table: map<Id, Node>, me: Id): map<Id, Node> {
    map id | id in table && IsDaemon(table[id]) && id != me :: table[id]
  }

  /** The inputs of a start: own name and address, role, and the ticket on the command line. */
  datatype Boot = Boot(domain: string, addr: EndpointAddr, primary: bool, ticket: Option<Ticket>, now: uint64)

  /** The state a start ends in, given the node table, the own id and the stored network secret. */
  function Start(id: Id, stored: Ticket, table: map<Id, Node>, b: Boot): State {
    var invitor := if b.ticket.Some? then b.ticket.value.invitor.id else id;
    var me := Node(id, invitor, b.addr, b.domain, map[], b.now);
    var ticket := if !b.primary && b.ticket.Some? then b.ticket.value else stored.(invitor := me);
    var known := Persisted(table, id);
    match b.ticket
    case None => State(me, ticket, known, known, {}, table)
    case Some(t) =>
      var peer := t.invitor;
      State(me, ticket, known[peer.id := peer],
            if IsDaemon(peer) && peer.id != id then known[peer.id := peer] else known, {}, table)
  }

  /** A start over what survives, after an orderly stop or a crash. */
  function Restart(s: State, b: Boot): State {
    Start(s.me.id, s.ticket, s.table, b)
  }

  // ---- Administration ----

  datatype AuthMode = RequireTicket | AllowLocalTicketless

  datatype AuthRequest = AuthRequest(ticket: Option<Ticket>, client: Option<Id>, name: Option<string>)

  predicate AuthAllowed(s: State, req: AuthRequest, mode: AuthMode) {
    mode.AllowLocalTicketless?
    || (req.ticket.Some? && req.ticket.value.Validates(s.ticket.topic, s.ticket.rnum))
  }

  function ClientNode(s: State, client: Id, name: Option<string>, now: uint64): Node {
    Node(client, s.me.id, NoAddr(client), if name.Some? then name.value else "client-" + client.text,
         map[CLIENT_MARKER := 1], now)
  }

  function Login(s: State, req: AuthRequest, mode: AuthMode, now: uint64): State {
    if !AuthAllowed(s, req, mode) || req.client.None? || req.client.value in s.clients then s
    else
      var client := req.client.value;
      s.(nodes := s.nodes[client := ClientNode(s, client, req.name, now)], clients := s.clients + {client})
  }

  datatype Rejection = InvalidTicket | TopicMismatch | NoMatch | Ambiguous(count: nat) | RefuseSelf

  datatype Outcome = Ack | Rejected(reason: Rejection)

  /** AddNode compares the topic only, not the secret number. */
  function AddNode(s: State, ticket: Option<Ticket>): (State, Outcome) {
    if ticket.None? then (s, Rejected(InvalidTicket))
    else if ticket.value.topic != s.ticket.topic then (s, Rejected(TopicMismatch))
    else
      var n := ticket.value.invitor;
      var s1 := Accept(s, n);
      (s1.(table := s1.table[n.id := n]), Ack)
  }

  predicate HasPrefix(id: Id, prefix: string) {
    Text.ToLower(prefix) <= Text.ToLower(id.text)
  }

  function Matches(s: State, prefix: string): set<Id> {
    (set id | id in s.nodes && id !in s.clients && HasPrefix(id, prefix))
    + (set id | id in s.trusted && HasPrefix(id, prefix))
  }

  function Only(ids: set<Id>): (id: Id)
    requires |ids| == 1
    ensures ids == {id}
  {
    OnlyExists(ids);
    var id :| ids == {id};
    id
  }

  lemma OnlyExists(ids: set<Id>)
    requires |ids| == 1
    ensures exists id :: ids == {id}
  {
    var id :| id in ids;
    assert |ids - {id}| == 0;
    assert ids == {id};
  }

  /** The id a RemoveNode request means: a full id as parsed, or else the one node with that prefix. */
  function Resolve(s: State, text: string, parsed: Option<Id>): Result<Id, Rejection> {
    if parsed.Some? then Ok(parsed.value)
    else
      var found := Matches(s, text);
      if |found| == 0 then Err(NoMatch)
      else if |found| == 1 then Ok(Only(found))
      else Err(Ambiguous(|found|))
  }

  function Forget(s: State, id: Id): State {
    s.(nodes := s.nodes - {id}, trusted := s.trusted - {id}, clients := s.clients - {id}, table := s.table - {id})
  }

  function RemoveNode(s: State, text: string, parsed: Option<Id>): (State, Outcome) {
    match Resolve(s, text, parsed)
    case Err(reason) => (s, Rejected(reason))
    case Ok(id) => if id == s.me.id then (s, Rejected(RefuseSelf)) else (Forget(s, id), Ack)
  }

  // ---- Runs ----

  datatype Step =
    | Receive(msg: SignedMessage, now: uint64, observed: Option<SocketAddr>)
    | CleanupTick(now: uint64, order: seq<Id>)
    | SaveTick
    | ClientLogin(req: AuthRequest, mode: AuthMode, now: uint64)
    | Add(ticket: Option<Ticket>)
    | Remove(text: string, parsed: Option<Id>)
    | Reboot(boot: Boot)

  function Next(s: State, step: Step): State {
    match step
    case Receive(m, now, observed) => Process(s, m, now, observed)
    case CleanupTick(now, order) => s.(nodes := Cleanup(s.nodes, now, order))
    case SaveTick => Save(s)
    case ClientLogin(req, mode, now) => Login(s, req, mode, now)
    case Add(ticket) => AddNode(s, ticket).0
    case Remove(text, parsed) => RemoveNode(s, text, parsed).0
    case Reboot(boot) => Restart(s, boot)
  }

  function Exec(s: State, steps: seq<Step>): State {
    if steps == [] then s
    else Next(Exec(s, steps[..|steps| - 1]), steps[|steps| - 1])
  }
}
