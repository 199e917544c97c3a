/** What every step of a daemon keeps, and how each step can change who is trusted. */
module Invariant {
  import opened Domain
  import opened Merge
  import opened Protocol

  ghost predicate Keyed(m: map<Id, Node>) {
    forall id :: id in m ==> m[id].id == id
  }

  ghost predicate Inv(s: State) {
    && Keyed(s.nodes) && Keyed(s.trusted) && Keyed(s.table)
    && IsDaemon(s.me)
    && (forall id :: id in s.trusted ==> id != s.me.id && IsDaemon(s.trusted[id]))
    && (forall id :: id in s.nodes && id != s.me.id && IsDaemon(s.nodes[id]) ==> id in s.trusted)
    && (forall id :: id in s.table && id != s.me.id && IsDaemon(s.table[id]) ==> id in s.trusted)
  }

  /** `t` differs from `s` only in the active view and in trust; trust has grown at most by `gained`. */
  ghost predicate Grows(s: State, t: State, gained: set<Id>) {
    && t == s.(nodes := t.nodes, trusted := t.trusted)
    && s.trusted.Keys <= t.trusted.Keys <= s.trusted.Keys + gained
  }

  // ---- Accepting records ----

  lemma MergeKeepsId(existing: Option<Node>, n: Node)
    requires existing.Some? ==> existing.value.id == n.id
    ensures MergeNode(existing, n).id == n.id
    ensures existing.Some? && IsDaemon(existing.value) && IsDaemon(n) ==> IsDaemon(MergeNode(existing, n))
  {
  }

  lemma AcceptInv(s: State, n: Node)
    requires Inv(s)
    ensures Inv(Accept(s, n))
  {
    MergeKeepsId(Lookup(s.trusted, n.id), n);
    if n.id == s.me.id {
    } else if IsDaemon(n) {
    } else {
    }
  }

  lemma AcceptGrows(s: State, n: Node)
    requires Inv(s)
    ensures Grows(s, Accept(s, n), {n.id})
    ensures n.id != s.me.id && IsDaemon(n) ==> n.id in Accept(s, n).trusted
    ensures Accept(s, n).nodes == if n.id == s.me.id then s.nodes else s.nodes[n.id := n]
  {
    MergeKeepsId(Lookup(s.trusted, n.id), n);
  }

  lemma TouchKeeps(s: State, from: Id, now: uint64, observed: Option<SocketAddr>)
    requires Inv(s)
    ensures Inv(Touch(s, from, now, observed))
    ensures Grows(s, Touch(s, from, now, observed), {})
  {
    if from in s.nodes && observed.Some? {
      if from in s.trusted && IsDaemon(s.nodes[from]) {
      }
    }
  }

  /** Touching changes at most the address and the heartbeat of the sender's own entry. */
  lemma TouchView(s: State, from: Id, now: uint64, observed: Option<SocketAddr>)
    requires Keyed(s.nodes)
    ensures Touch(s, from, now, observed).nodes.Keys == s.nodes.Keys
    ensures forall id :: id in s.nodes && id != from ==> Touch(s, from, now, observed).nodes[id] == s.nodes[id]
  {
  }

  lemma AnnounceKeeps(s: State, from: Id, addr: EndpointAddr, alias: string, services: map<string, uint32>, invitor: Id,
                      now: uint64, observed: Option<SocketAddr>) returns (n: Node)
    requires Inv(s)
    ensures var t := Announce(s, from, addr, alias, services, invitor, now, observed);
      && Inv(t) && Grows(s, t, {from})
      && n.id == from
      && t.nodes == if from == s.me.id then s.nodes else s.nodes[from := n]
  {
    var incoming := Node(from, invitor, SenderAddr(from, addr, observed), alias, services, now);
    MergeKeepsId(Lookup(s.nodes, from), incoming);
    n := MergeNode(Lookup(s.nodes, from), incoming);
    AcceptInv(s, n);
    AcceptGrows(s, n);
  }

  function Vouches(r: Node): set<Id> {
    if IsDaemon(r) then {r.id} else {}
  }

  /** The ids a list of sync records vouches for. */
  function Vouched(recs: seq<Node>): set<Id> {
    set r | r in recs && IsDaemon(r) :: r.id
  }

  /** One sync record is either skipped or accepted as a merged record of the same node. */
  lemma AbsorbCases(s: State, from: Id, observed: Option<SocketAddr>, r: Node) returns (n: Node)
    requires Inv(s)
    ensures r.id == s.me.id || !IsDaemon(r) ==> Absorb(s, from, observed, r) == s
    ensures r.id != s.me.id && IsDaemon(r) ==>
      && n.id == r.id
      && (Absorb(s, from, observed, r) == Accept(s, n) || (Absorb(s, from, observed, r) == s && r.id in s.nodes))
  {
    var rec := if r.id == from then r.(addr := SenderAddr(from, r.addr, observed)) else r;
    n := MergeNode(Lookup(s.nodes, rec.id), rec);
    MergeKeepsId(Lookup(s.nodes, rec.id), rec);
  }

  lemma AbsorbKeeps(s: State, from: Id, observed: Option<SocketAddr>, r: Node)
    requires Inv(s)
    ensures Inv(Absorb(s, from, observed, r))
    ensures Grows(s, Absorb(s, from, observed, r), Vouches(r))
  {
    var n := AbsorbCases(s, from, observed, r);
    AcceptInv(s, n);
    AcceptGrows(s, n);
  }

  /** A sync record of another daemon leaves that daemon active, and touches no other entry. */
  lemma AbsorbView(s: State, from: Id, observed: Option<SocketAddr>, r: Node)
    requires Inv(s)
    ensures var t := Absorb(s, from, observed, r);
      && t.nodes.Keys == s.nodes.Keys + (Vouches(r) - {s.me.id})
      && (forall id :: id in s.nodes && id != r.id ==> t.nodes[id] == s.nodes[id])
  {
    var n := AbsorbCases(s, from, observed, r);
    AcceptGrows(s, n);
  }

  lemma VouchedSnoc(recs: seq<Node>)
    requires recs != []
    ensures Vouched(recs) == Vouched(recs[..|recs| - 1]) + Vouches(recs[|recs| - 1])
  {
    assert recs == recs[..|recs| - 1] + [recs[|recs| - 1]];
  }

  lemma {:induction false} AbsorbAllKeeps(s: State, from: Id, observed: Option<SocketAddr>, recs: seq<Node>)
    requires Inv(s)
    ensures Inv(AbsorbAll(s, from, observed, recs))
    ensures Grows(s, AbsorbAll(s, from, observed, recs), Vouched(recs))
  {
    if recs != [] {
      var front, last := recs[..|recs| - 1], recs[|recs| - 1];
      AbsorbAllKeeps(s, from, observed, front);
      AbsorbKeeps(AbsorbAll(s, from, observed, front), from, observed, last);
      VouchedSnoc(recs);
    }
  }

  lemma VouchedAdds(base: set<Id>, first: set<Id>, second: set<Id>, me: Id)
    ensures base + (first - {me}) + (second - {me}) == base + (first + second - {me})
  {
  }

  /** After a passing sync message exactly the known and the vouched daemons are active. */
  lemma {:induction false} AbsorbAllView(s: State, from: Id, observed: Option<SocketAddr>, recs: seq<Node>)
    requires Inv(s)
    ensures AbsorbAll(s, from, observed, recs).nodes.Keys == s.nodes.Keys + (Vouched(recs) - {s.me.id})
  {
    if recs != [] {
      var front, last := recs[..|recs| - 1], recs[|recs| - 1];
      var mid := AbsorbAll(s, from, observed, front);
      AbsorbAllView(s, from, observed, front);
      AbsorbAllKeeps(s, from, observed, front);
      AbsorbView(mid, from, observed, last);
      VouchedSnoc(recs);
      VouchedAdds(s.nodes.Keys, Vouched(front), Vouches(last), s.me.id);
    }
  }

  // ---- Messages ----

  /** Whom one message can bring into the trusted set. */
  function Introduced(s: State, m: SignedMessage, now: uint64): set<Id> {
    if ValidInvite(s, m, now) then {m.from}
    else if (m.body.SyncRequest? || m.body.SyncResponse?) && Passes(s, m, now) then Vouched(m.body.nodes)
    else {}
  }

  lemma HandleInv(s: State, passed: bool, m: SignedMessage, now: uint64, observed: Option<SocketAddr>)
    requires Inv(s)
    ensures Inv(Handle(s, passed, m, now, observed))
  {
    if m.body.Invited? || m.body.AboutMe? {
      var _ := AnnounceKeeps(s, m.from, m.body.addr, m.body.alias, m.body.services, m.body.invitor, now, observed);
    } else if m.body.SyncRequest? || m.body.SyncResponse? {
      AbsorbAllKeeps(s, m.from, observed, m.body.nodes);
    } else if m.body.Left? {
      LeftKeeps(s, m.from);
    }
  }

  lemma LeftKeeps(s: State, from: Id)
    requires Inv(s)
    ensures Inv(s.(nodes := s.nodes - {from}))
  {
  }

  lemma HandleGrows(s: State, passed: bool, m: SignedMessage, now: uint64, observed: Option<SocketAddr>)
    requires Inv(s)
    requires passed ==> m.from in s.trusted
    ensures ValidInvite(s, m, now) ==> Grows(s, Handle(s, passed, m, now, observed), {m.from})
    ensures passed && (m.body.SyncRequest? || m.body.SyncResponse?) ==>
      Grows(s, Handle(s, passed, m, now, observed), Vouched(m.body.nodes))
    ensures !ValidInvite(s, m, now) && !(passed && (m.body.SyncRequest? || m.body.SyncResponse?)) ==>
      Grows(s, Handle(s, passed, m, now, observed), {})
  {
    if m.body.Invited? || m.body.AboutMe? {
      var _ := AnnounceKeeps(s, m.from, m.body.addr, m.body.alias, m.body.services, m.body.invitor, now, observed);
    } else if m.body.SyncRequest? || m.body.SyncResponse? {
      AbsorbAllKeeps(s, m.from, observed, m.body.nodes);
    }
  }

  lemma ProcessKeeps(s: State, m: SignedMessage, now: uint64, observed: Option<SocketAddr>)
    requires Inv(s)
    ensures Inv(Process(s, m, now, observed))
    ensures Grows(s, Process(s, m, now, observed), Introduced(s, m, now))
  {
    TouchKeeps(s, m.from, now, observed);
    HandleInv(Touched(s, m, now, observed), Passes(s, m, now), m, now, observed);
    HandleGrows(Touched(s, m, now, observed), Passes(s, m, now), m, now, observed);
  }

  // ---- All steps ----

  lemma CleanupKeeps(s: State, now: uint64, order: seq<Id>)
    requires Inv(s)
    ensures Inv(s.(nodes := Cleanup(s.nodes, now, order)))
  {
  }

  lemma SaveKeeps(s: State)
    requires Inv(s)
    ensures Inv(Save(s))
  {
  }

  lemma LoginKeeps(s: State, req: AuthRequest, mode: AuthMode, now: uint64)
    requires Inv(s)
    ensures Inv(Login(s, req, mode, now))
  {
  }

  lemma AddNodeKeeps(s: State, ticket: Option<Ticket>)
    requires Inv(s)
    ensures Inv(AddNode(s, ticket).0)
  {
    if ticket.Some? && ticket.value.topic == s.ticket.topic {
      AcceptInv(s, ticket.value.invitor);
      AcceptGrows(s, ticket.value.invitor);
    }
  }

  lemma RemoveNodeKeeps(s: State, text: string, parsed: Option<Id>)
    requires Inv(s)
    ensures Inv(RemoveNode(s, text, parsed).0)
  {
    var id := Resolve(s, text, parsed);
    if id.Ok? {
      assert Inv(Forget(s, id.value));
    }
  }

  lemma RestartKeeps(s: State, boot: Boot)
    requires Inv(s)
    ensures Inv(Restart(s, boot))
  {
    if boot.ticket.Some? {
    }
  }

  /** Every step keeps the invariant. */
  lemma NextKeeps(s: State, step: Step)
    requires Inv(s)
    ensures Inv(Next(s, step))
    ensures Next(s, step).me.id == s.me.id
  {
    match step
    case Receive(m, now, observed) => ProcessKeeps(s, m, now, observed);
    case Add(ticket) => AddNodeKeeps(s, ticket);
    case CleanupTick(now, order) => CleanupKeeps(s, now, order);
    case SaveTick => SaveKeeps(s);
    case ClientLogin(req, mode, now) => LoginKeeps(s, req, mode, now);
    case Remove(text, parsed) => RemoveNodeKeeps(s, text, parsed);
    case Reboot(boot) => RestartKeeps(s, boot);
  }

  /** In every reachable state: keys name their records, trusted records are daemons other than self,
      and every daemon record of another node in the view or the table belongs to a trusted id. */
  lemma {:induction false} ReachableInv(s: State, steps: seq<Step>)
    requires Inv(s)
    ensures Inv(Exec(s, steps))
    ensures Exec(s, steps).me.id == s.me.id
  {
    if steps != [] {
      ReachableInv(s, steps[..|steps| - 1]);
      NextKeeps(Exec(s, steps[..|steps| - 1]), steps[|steps| - 1]);
    }
  }

  /** The two steps that file an entry without comparing it to the own id: an allowed first login under
      the own key, and a start with a ticket of its own. */
  predicate FilesSelf(s: State, step: Step) {
    || (step.ClientLogin? && step.req.client == Some(s.me.id)
        && AuthAllowed(s, step.req, step.mode) && s.me.id !in s.clients)
    || (step.Reboot? && step.boot.ticket.Some? && step.boot.ticket.value.invitor.id == s.me.id)
  }

  /** The own id enters the active view exactly by those two steps. */
  lemma SelfStaysOut(s: State, step: Step)
    requires Inv(s) && s.me.id !in s.nodes
    ensures s.me.id in Next(s, step).nodes <==> FilesSelf(s, step)
  {
    match step
    case Receive(m, now, observed) => MessageKeepsSelfOut(s, m, now, observed);
    case Add(ticket) =>
    case CleanupTick(now, order) =>
    case SaveTick =>
    case ClientLogin(req, mode, now) =>
    case Remove(text, parsed) =>
    case Reboot(boot) =>
  }

  /** A daemon without any entries puts itself into its view when a client logs in under its own key
      over a ticketless local connection. */
  lemma SelfCanEnter(me: Node, ticket: Ticket, now: uint64)
    requires IsDaemon(me)
    ensures var s := State(me, ticket, map[], map[], {}, map[]);
      var step := ClientLogin(AuthRequest(None, Some(me.id), None), AllowLocalTicketless, now);
      Inv(s) && me.id in Next(s, step).nodes
  {
    SelfStaysOut(State(me, ticket, map[], map[], {}, map[]),
                 ClientLogin(AuthRequest(None, Some(me.id), None), AllowLocalTicketless, now));
  }

  lemma MessageKeepsSelfOut(s: State, m: SignedMessage, now: uint64, observed: Option<SocketAddr>)
    requires Inv(s) && s.me.id !in s.nodes
    ensures s.me.id !in Process(s, m, now, observed).nodes
  {
    TouchKeeps(s, m.from, now, observed);
    TouchView(s, m.from, now, observed);
    HandleKeepsSelfOut(Touched(s, m, now, observed), Passes(s, m, now), m, now, observed);
  }

  lemma HandleKeepsSelfOut(s: State, passed: bool, m: SignedMessage, now: uint64, observed: Option<SocketAddr>)
    requires Inv(s) && s.me.id !in s.nodes
    ensures s.me.id !in Handle(s, passed, m, now, observed).nodes
  {
    if m.body.Invited? || m.body.AboutMe? {
      var _ := AnnounceKeeps(s, m.from, m.body.addr, m.body.alias, m.body.services, m.body.invitor, now, observed);
    } else if m.body.SyncRequest? || m.body.SyncResponse? {
      AbsorbAllView(s, m.from, observed, m.body.nodes);
    }
  }
}
