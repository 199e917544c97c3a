/** A network of daemons. Messages once sent stay available: any one may be delivered to anybody, in
    any order, any number of times, or never. Outsiders add messages of their own. */
module Network {
  import opened Domain
  import opened Protocol
  import opened Invariant
  import opened Convergence

  datatype Net = Net(daemons: map<Id, State>, sent: set<SignedMessage>)

  datatype NetStep =
    | Deliver(at: Id, msg: SignedMessage, now: uint64, observed: Option<SocketAddr>, reply: Option<SignedMessage>)
    | Local(at: Id, step: Step)
    | Send(msg: SignedMessage)
    | Inject(msg: SignedMessage)

  /** Who belongs, and which (topic, rnum) pairs are kept among those who belong. */
  datatype Circle = Circle(members: set<Id>, secrets: set<(seq<uint8>, seq<uint8>)>)

  /** What a daemon says unasked: its invitation, its own record, a request for records, goodbye. */
  predicate Says(s: State, body: Message) {
    match body
    case Invited(topic, rnum, _, _, _, _) => topic == s.ticket.topic && rnum == s.ticket.rnum
    case AboutMe(_, _, _, _) => true
    case SyncRequest(nodes) => nodes == []
    case Left => true
    case SyncResponse(_) => false
    case Introduce(_) => false
    case Heartbeat => false
  }

  /** The answer to a sync request, trusted or not: the view after the request, and the own record. */
  ghost predicate Replies(s: State, request: SignedMessage, reply: SignedMessage) {
    && request.body.SyncRequest?
    && reply.from == s.me.id
    && reply.body.SyncResponse?
    && exists addr, now :: Answers(s, SelfRecord(s, addr, now), reply.body.nodes)
  }

  /** Outsiders do not hold a secret ticket; members without a modelled daemon vouch for members only. */
  predicate Harmless(c: Circle, m: SignedMessage) {
    if m.from in c.members then IsSync(m.body) ==> Vouched(m.body.nodes) <= c.members
    else m.body.Invited? ==> (m.body.topic, m.body.rnum) !in c.secrets
  }

  /** The administrator's side of the circle: AddNode and start tickets name members. */
  predicate WithinCircle(c: Circle, step: Step) {
    match step
    case Add(Some(t)) => t.invitor.id in c.members
    case Reboot(b) =>
      b.ticket.Some? ==>
        b.ticket.value.invitor.id in c.members && (b.ticket.value.topic, b.ticket.value.rnum) in c.secrets
    case _ => true
  }

  ghost predicate Enabled(c: Circle, g: Net, step: NetStep) {
    match step
    case Deliver(at, m, now, observed, reply) =>
      && at in g.daemons && m in g.sent
      && (reply.Some? ==> Replies(Process(g.daemons[at], m, now, observed), m, reply.value))
    case Local(at, local) => at in g.daemons && !local.Receive? && WithinCircle(c, local)
    case Send(m) => m.from in g.daemons && Says(g.daemons[m.from], m.body)
    case Inject(m) => m.from !in g.daemons && Harmless(c, m)
  }

  function NetNext(g: Net, step: NetStep): Net {
    match step
    case Deliver(at, m, now, observed, reply) =>
      if at !in g.daemons then g
      else
        Net(g.daemons[at := Process(g.daemons[at], m, now, observed)],
            g.sent + if reply.Some? then {reply.value} else {})
    case Local(at, local) => if at !in g.daemons then g else g.(daemons := g.daemons[at := Next(g.daemons[at], local)])
    case Send(m) => g.(sent := g.sent + {m})
    case Inject(m) => g.(sent := g.sent + {m})
  }

  function NetExec(g: Net, steps: seq<NetStep>): Net {
    if steps == [] then g
    else NetNext(NetExec(g, steps[..|steps| - 1]), steps[|steps| - 1])
  }

  ghost predicate Legal(c: Circle, g: Net, steps: seq<NetStep>) {
    forall k :: 0 <= k < |steps| ==> Enabled(c, NetExec(g, steps[..k]), steps[k])
  }

  ghost predicate SafeDaemon(c: Circle, id: Id, s: State) {
    && s.me.id == id && id in c.members
    && Inv(s)
    && s.trusted.Keys <= c.members
    && (s.ticket.topic, s.ticket.rnum) in c.secrets
  }

  ghost predicate Safe(c: Circle, g: Net) {
    && (forall id :: id in g.daemons ==> SafeDaemon(c, id, g.daemons[id]))
    && (forall m :: m in g.sent ==> Harmless(c, m))
  }

  lemma DeliverySafe(c: Circle, id: Id, s: State, m: SignedMessage, now: uint64, observed: Option<SocketAddr>)
    requires SafeDaemon(c, id, s) && Harmless(c, m)
    ensures SafeDaemon(c, id, Process(s, m, now, observed))
  {
    ProcessKeeps(s, m, now, observed);
    assert Introduced(s, m, now) <= c.members;
  }

  /** Every record a daemon of the circle reports is the record of a member. */
  lemma ReplySafe(c: Circle, id: Id, s: State, request: SignedMessage, reply: SignedMessage)
    requires SafeDaemon(c, id, s) && Replies(s, request, reply)
    ensures Vouched(reply.body.nodes) <= c.members
  {
    var recs := reply.body.nodes;
    var addr, now :| Answers(s, SelfRecord(s, addr, now), recs);
    forall r | r in recs ensures r.id in c.members {
      var i :| 0 <= i < |recs| && recs[i] == r;
    }
  }

  lemma LocalSafe(c: Circle, id: Id, s: State, step: Step)
    requires SafeDaemon(c, id, s) && !step.Receive? && WithinCircle(c, step)
    ensures SafeDaemon(c, id, Next(s, step))
  {
    NextKeeps(s, step);
    match step
    case Add(ticket) =>
      if ticket.Some? {
        AcceptGrows(s, ticket.value.invitor);
      }
    case CleanupTick(_, _) =>
    case SaveTick =>
    case ClientLogin(_, _, _) =>
    case Remove(_, _) =>
    case Reboot(_) =>
  }

  lemma StepSafe(c: Circle, g: Net, step: NetStep)
    requires Safe(c, g) && Enabled(c, g, step)
    ensures Safe(c, NetNext(g, step))
  {
    match step
    case Deliver(at, m, now, observed, reply) =>
      DeliverySafe(c, at, g.daemons[at], m, now, observed);
      if reply.Some? {
        ReplySafe(c, at, Process(g.daemons[at], m, now, observed), m, reply.value);
      }
    case Local(at, local) => LocalSafe(c, at, g.daemons[at], local);
    case Send(m) =>
    case Inject(m) =>
  }

  lemma {:induction false} RunSafe(c: Circle, g: Net, steps: seq<NetStep>)
    requires Safe(c, g) && Legal(c, g, steps)
    ensures Safe(c, NetExec(g, steps))
  {
    if steps != [] {
      var n := |steps| - 1;
      var front := steps[..n];
      assert forall k :: 0 <= k < n ==> front[..k] == steps[..k];
      RunSafe(c, g, front);
      assert Enabled(c, NetExec(g, steps[..n]), steps[n]);
      StepSafe(c, NetExec(g, front), steps[n]);
    }
  }

  /** Membership closure. Start from daemons that know nobody but members and hold secret tickets. Then
      along every run, under any loss, duplication and reordering and whatever outsiders send, every
      trusted id, every daemon-flagged active entry and every daemon record a daemon has reported
      belongs to a member. */
  lemma {:induction false} MembershipClosed(c: Circle, start: map<Id, State>, steps: seq<NetStep>, at: Id)
    requires forall id :: id in start ==> SafeDaemon(c, id, start[id])
    requires Legal(c, Net(start, {}), steps)
    ensures var g := NetExec(Net(start, {}), steps);
      && (at in g.daemons ==>
            && g.daemons[at].trusted.Keys <= c.members
            && (forall id :: id in g.daemons[at].nodes && IsDaemon(g.daemons[at].nodes[id]) ==> id in c.members))
      && (forall m :: m in g.sent && m.from in g.daemons && IsSync(m.body) ==> Vouched(m.body.nodes) <= c.members)
  {
    RunSafe(c, Net(start, {}), steps);
  }

  /** The network does move. A daemon that starts from its ticket may announce itself, and when its invitation
      reaches another daemon of the same network in time, that daemon has it active and trusts it. */
  lemma InvitationArrives(c: Circle, g: Net, a: Id, b: Id, addr: EndpointAddr, sentAt: uint64, now: uint64,
                          observed: Option<SocketAddr>)
    requires Safe(c, g) && a in g.daemons && b in g.daemons && a != b
    requires g.daemons[a].ticket.topic == g.daemons[b].ticket.topic
    requires g.daemons[a].ticket.rnum == g.daemons[b].ticket.rnum
    requires now - 60 <= sentAt <= now + 10
    requires a in g.daemons[b].nodes ==> IsDaemon(g.daemons[b].nodes[a])
    ensures var me := g.daemons[a].me;
      var invite := SignedMessage(a, sentAt, Invited(g.daemons[a].ticket.topic, g.daemons[a].ticket.rnum, addr,
                                                     me.domain, me.services, me.invitor));
      var run := [Send(invite), Deliver(b, invite, now, observed, None)];
      && Legal(c, g, run)
      && a in NetExec(g, run).daemons[b].nodes && a in NetExec(g, run).daemons[b].trusted
  {
    var me := g.daemons[a].me;
    var invite := SignedMessage(a, sentAt, Invited(g.daemons[a].ticket.topic, g.daemons[a].ticket.rnum, addr,
                                                   me.domain, me.services, me.invitor));
    var send, deliver := Send(invite), Deliver(b, invite, now, observed, None);
    var run := [send, deliver];
    assert run[..0] == [] && run[..1] == [send] && [send][..0] == [];
    assert NetExec(g, run[..1]) == NetNext(g, send);
    InvitationTrusts(g.daemons[b], invite, now, observed);
  }

  lemma InvitationTrusts(s: State, m: SignedMessage, now: uint64, observed: Option<SocketAddr>)
    requires Inv(s) && ValidInvite(s, m, now) && m.from != s.me.id && CLIENT_MARKER !in m.body.services
    requires m.from in s.nodes ==> IsDaemon(s.nodes[m.from])
    ensures m.from in Process(s, m, now, observed).nodes && m.from in Process(s, m, now, observed).trusted
  {
    TouchKeeps(s, m.from, now, observed);
    TouchView(s, m.from, now, observed);
    var _ := AnnounceKeeps(Touched(s, m, now, observed), m.from, m.body.addr, m.body.alias, m.body.services,
                           m.body.invitor, now, observed);
    ProcessKeeps(s, m, now, observed);
  }
}
