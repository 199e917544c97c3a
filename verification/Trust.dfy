/** Trust over whole runs of one daemon: what messages without standing can do, where trust comes
    from, how long it lasts, and what a crash does to it. */
module Trust {
  import opened Domain
  import opened Merge
  import opened Protocol
  import opened Invariant

  // ---- Freshness ----

  /** The saturating test is the exact window from 60 s back to 10 s ahead, up to both ends of u64. */
  lemma FreshWindow(timestamp: uint64, now: uint64)
    ensures IsFresh(timestamp, now) <==> now - 60 <= timestamp <= now + 10
  {
  }

  /** A message that was fresh at `first` can be replayed with no effect on any daemon after 70 s. */
  lemma ReplayChangesNothing(s: State, m: SignedMessage, first: uint64, now: uint64, observed: Option<SocketAddr>)
    requires IsFresh(m.timestamp, first) && now > first + 70
    ensures Process(s, m, now, observed) == s
  {
    FreshWindow(m.timestamp, first);
    FreshWindow(m.timestamp, now);
  }

  /** A heartbeat from a trusted active peer has an effect exactly while it is fresh: it moves the
      recorded time of the peer. */
  lemma HeartbeatEffect(s: State, m: SignedMessage, now: uint64, observed: Option<SocketAddr>)
    requires Inv(s) && m.body.Heartbeat? && m.from in s.trusted && m.from in s.nodes
    requires s.nodes[m.from].heartbeat != now
    ensures Process(s, m, now, observed) != s <==> IsFresh(m.timestamp, now)
  {
    if IsFresh(m.timestamp, now) {
      TouchEntry(s, m.from, now, observed);
    }
  }

  /** No shorter wait than 70 s is enough, in any such state: a heartbeat stamped 10 s ahead, fresh when it
      first came in, still changes the state 70 s later and no longer after that. */
  lemma ReplayWindowIsTight(s: State, from: Id, first: uint64, now: uint64, observed: Option<SocketAddr>)
    requires Inv(s) && from in s.trusted && from in s.nodes && s.nodes[from].heartbeat != now
    requires first <= now && first + 10 <= U64_MAX
    ensures IsFresh(first + 10, first)
    ensures Process(s, SignedMessage(from, first + 10, Heartbeat), now, observed) != s <==> now <= first + 70
  {
    FreshWindow(first + 10, first);
    FreshWindow(first + 10, now);
    HeartbeatEffect(s, SignedMessage(from, first + 10, Heartbeat), now, observed);
  }

  // ---- Non-interference ----

  /** Messages without standing: stale ones, and untrusted ones other than a fresh invitation with the ticket. */
  predicate Inert(s: State, step: Step) {
    step.Receive? &&
    (!IsFresh(step.msg.timestamp, step.now)
     || (step.msg.from !in s.trusted && !ValidInvite(s, step.msg, step.now)))
  }

  lemma InertChangesNothing(s: State, step: Step)
    requires Inert(s, step)
    ensures Next(s, step) == s
  {
  }

  /** A run without the messages that had no standing when they arrived. */
  function Purge(s: State, steps: seq<Step>): seq<Step> {
    if steps == [] then []
    else
      var n := |steps| - 1;
      Purge(s, steps[..n]) + if Inert(Exec(s, steps[..n]), steps[n]) then [] else [steps[n]]
  }

  /** Deleting every message without standing leaves the final state as it was. */
  lemma {:induction false} NonInterference(s: State, steps: seq<Step>)
    ensures Exec(s, Purge(s, steps)) == Exec(s, steps)
  {
    if steps != [] {
      var n := |steps| - 1;
      var kept := Purge(s, steps[..n]);
      NonInterference(s, steps[..n]);
      if Inert(Exec(s, steps[..n]), steps[n]) {
        InertChangesNothing(Exec(s, steps[..n]), steps[n]);
        assert Purge(s, steps) == kept;
      } else {
        assert Purge(s, steps)[..|kept|] == kept;
      }
    }
  }

  /** Judged along the shortened run itself, every message that is left has standing. */
  lemma {:induction false} PurgeLeavesNoneInert(s: State, steps: seq<Step>, k: nat)
    requires k < |Purge(s, steps)|
    ensures !Inert(Exec(s, Purge(s, steps)[..k]), Purge(s, steps)[k])
  {
    var n := |steps| - 1;
    var kept := Purge(s, steps[..n]);
    if k < |kept| {
      PurgeLeavesNoneInert(s, steps[..n], k);
      assert Purge(s, steps)[..k] == kept[..k];
    } else {
      NonInterference(s, steps[..n]);
      assert Purge(s, steps)[..k] == kept;
    }
  }

  // ---- Provenance ----

  /** Whom one step can bring into the trusted set. */
  function Admitted(s: State, step: Step): set<Id> {
    match step
    case Receive(m, now, _) => Introduced(s, m, now)
    case Add(ticket) =>
      if ticket.Some? && ticket.value.topic == s.ticket.topic then {ticket.value.invitor.id} else {}
    case Reboot(boot) => if boot.ticket.Some? then {boot.ticket.value.invitor.id} else {}
    case CleanupTick(_, _) => {}
    case SaveTick => {}
    case ClientLogin(_, _, _) => {}
    case Remove(_, _) => {}
  }

  lemma TrustGain(s: State, step: Step)
    requires Inv(s)
    ensures Next(s, step).trusted.Keys <= s.trusted.Keys + Admitted(s, step)
  {
    match step
    case Receive(m, now, observed) => ProcessKeeps(s, m, now, observed);
    case Add(ticket) =>
      if ticket.Some? {
        AcceptGrows(s, ticket.value.invitor);
      }
    case CleanupTick(_, _) =>
    case SaveTick =>
    case ClientLogin(_, _, _) =>
    case Remove(_, _) =>
    case Reboot(_) =>
  }

  /** A chain of vouchers. Each link names the step that admitted the id; a voucher continues with
      the warrant of the sender it relied on. */
  datatype Warrant =
    | AtStart
    | ByTicket(at: nat)
    | ByAddNode(at: nat)
    | ByInvitation(at: nat)
    | ByVoucher(at: nat, sender: Warrant)

  /** `w` explains why `id` can be trusted after the first `k` steps. */
  predicate Explains(s: State, steps: seq<Step>, w: Warrant, id: Id, k: nat)
    requires k <= |steps|
    decreases w
  {
    if w.AtStart? then id in s.trusted
    else
      && w.at < k
      && var before, step := Exec(s, steps[..w.at]), steps[w.at];
      match w
      case ByTicket(_) => step.Reboot? && step.boot.ticket.Some? && step.boot.ticket.value.invitor.id == id
      case ByAddNode(_) =>
        step.Add? && step.ticket.Some? && step.ticket.value.topic == before.ticket.topic
        && step.ticket.value.invitor.id == id
      case ByInvitation(_) => step.Receive? && step.msg.from == id && ValidInvite(before, step.msg, step.now)
      case ByVoucher(_, sender) =>
        && step.Receive? && (step.msg.body.SyncRequest? || step.msg.body.SyncResponse?)
        && Passes(before, step.msg, step.now)
        && id in Vouched(step.msg.body.nodes)
        && Explains(s, steps, sender, step.msg.from, w.at)
      case AtStart => true
  }

  /** In every run, whoever is trusted after `k` steps has a finite chain of vouchers back to the start. */
  lemma {:induction false} TrustHasProvenance(s: State, steps: seq<Step>, id: Id, k: nat) returns (w: Warrant)
    requires Inv(s) && k <= |steps| && id in Exec(s, steps[..k]).trusted
    ensures Explains(s, steps, w, id, k)
    decreases k
  {
    if k == 0 {
      return AtStart;
    }
    var at, before, step := k - 1, Exec(s, steps[..k - 1]), steps[k - 1];
    assert steps[..k][..at] == steps[..at];
    ReachableInv(s, steps[..at]);
    TrustGain(before, step);
    if id in before.trusted {
      w := TrustHasProvenance(s, steps, id, at);
      LaterExplains(s, steps, w, id, at, k);
    } else if step.Reboot? {
      w := ByTicket(at);
    } else if step.Add? {
      w := ByAddNode(at);
    } else if ValidInvite(before, step.msg, step.now) {
      w := ByInvitation(at);
    } else {
      var sender := TrustHasProvenance(s, steps, step.msg.from, at);
      w := ByVoucher(at, sender);
    }
  }

  lemma {:induction false} LaterExplains(s: State, steps: seq<Step>, w: Warrant, id: Id, k: nat, later: nat)
    requires k <= later <= |steps| && Explains(s, steps, w, id, k)
    ensures Explains(s, steps, w, id, later)
  {
  }

  // ---- Removal ----

  /** An id a prefix can mean: an unregistered active entry or a trusted node. */
  predicate Candidate(s: State, prefix: string, id: Id) {
    ((id in s.nodes && id !in s.clients) || id in s.trusted) && HasPrefix(id, prefix)
  }

  /** RemoveNode acts exactly when the request means one id, other than the own one. */
  lemma RemoveNodeActs(s: State, text: string, parsed: Option<Id>, id: Id)
    requires parsed == Some(id)
      || (parsed.None? && Candidate(s, text, id) && forall o :: Candidate(s, text, o) ==> o == id)
    ensures id != s.me.id ==> RemoveNode(s, text, parsed) == (Forget(s, id), Ack)
    ensures id == s.me.id ==> RemoveNode(s, text, parsed) == (s, Rejected(RefuseSelf))
  {
    if parsed.None? {
      assert Candidate(s, text, id);
      forall o | o in Matches(s, text) ensures o == id {
        assert Candidate(s, text, o);
      }
      assert Matches(s, text) == {id};
    }
  }

  /** Otherwise it reports how many ids the prefix means and changes nothing. */
  lemma RemoveNodeRefuses(s: State, text: string, found: set<Id>)
    requires forall id :: id in found <==> Candidate(s, text, id)
    requires |found| != 1
    ensures RemoveNode(s, text, None) == (s, Rejected(if found == {} then NoMatch else Ambiguous(|found|)))
  {
    assert Matches(s, text) == found;
  }

  ghost predicate Absent(s: State, id: Id) {
    id !in s.nodes && id !in s.trusted && id !in s.clients && id !in s.table
  }

  /** Removal leaves no trace of the id and every other entry alone. */
  lemma ForgetIsExact(s: State, id: Id, other: Id)
    requires other != id
    ensures Absent(Forget(s, id), id)
    ensures var t := Forget(s, id);
      && Lookup(t.nodes, other) == Lookup(s.nodes, other)
      && Lookup(t.trusted, other) == Lookup(s.trusted, other)
      && Lookup(t.table, other) == Lookup(s.table, other)
      && (other in t.clients <==> other in s.clients)
      && t.me == s.me && t.ticket == s.ticket
  {
  }

  /** The only ways back for an id a daemon has no trace of. */
  predicate Readmits(s: State, step: Step, id: Id) {
    match step
    case Receive(m, now, _) =>
      || (m.from == id && ValidInvite(s, m, now))
      || (Passes(s, m, now) && (m.body.SyncRequest? || m.body.SyncResponse?) && id in Vouched(m.body.nodes))
    case Add(ticket) =>
      ticket.Some? && ticket.value.topic == s.ticket.topic && ticket.value.invitor.id == id
    case ClientLogin(req, mode, _) => AuthAllowed(s, req, mode) && req.client == Some(id)
    case Reboot(boot) => boot.ticket.Some? && boot.ticket.value.invitor.id == id
    case CleanupTick(_, _) => false
    case SaveTick => false
    case Remove(_, _) => false
  }

  lemma HandleViewGain(s: State, passed: bool, m: SignedMessage, now: uint64, observed: Option<SocketAddr>)
    requires Inv(s) && (passed ==> m.from in s.trusted)
    ensures Handle(s, passed, m, now, observed).nodes.Keys <=
      s.nodes.Keys + (s.trusted.Keys * {m.from})
      + (if ValidInvite(s, m, now) then {m.from}
         else if passed && (m.body.SyncRequest? || m.body.SyncResponse?) then Vouched(m.body.nodes) else {})
  {
    if m.body.Invited? || m.body.AboutMe? {
      var _ := AnnounceKeeps(s, m.from, m.body.addr, m.body.alias, m.body.services, m.body.invitor, now, observed);
    } else if m.body.SyncRequest? || m.body.SyncResponse? {
      AbsorbAllView(s, m.from, observed, m.body.nodes);
    }
  }

  lemma MessageKeepsAbsent(s: State, m: SignedMessage, now: uint64, observed: Option<SocketAddr>, id: Id)
    requires Inv(s) && Absent(s, id) && id != s.me.id && !Readmits(s, Receive(m, now, observed), id)
    ensures Absent(Process(s, m, now, observed), id)
  {
    TouchKeeps(s, m.from, now, observed);
    TouchView(s, m.from, now, observed);
    ProcessKeeps(s, m, now, observed);
    HandleViewGain(Touched(s, m, now, observed), Passes(s, m, now), m, now, observed);
  }

  lemma MessageReadmits(s: State, m: SignedMessage, now: uint64, observed: Option<SocketAddr>, id: Id)
    requires Inv(s) && Absent(s, id) && id != s.me.id && Readmits(s, Receive(m, now, observed), id)
    ensures id in Process(s, m, now, observed).nodes
  {
    TouchKeeps(s, m.from, now, observed);
    var s1 := Touched(s, m, now, observed);
    if m.body.Invited? {
      var _ := AnnounceKeeps(s1, m.from, m.body.addr, m.body.alias, m.body.services, m.body.invitor, now, observed);
    } else if m.body.SyncRequest? || m.body.SyncResponse? {
      AbsorbAllView(s1, m.from, observed, m.body.nodes);
    }
  }

  /** One step brings an absent id back if and only if it is one of those ways, and then makes it active. */
  lemma StepReadmits(s: State, step: Step, id: Id)
    requires Inv(s) && Absent(s, id) && id != s.me.id
    ensures Readmits(s, step, id) ==> id in Next(s, step).nodes
    ensures !Readmits(s, step, id) ==> Absent(Next(s, step), id)
  {
    match step
    case Receive(m, now, observed) =>
      if Readmits(s, step, id) {
        MessageReadmits(s, m, now, observed, id);
      } else {
        MessageKeepsAbsent(s, m, now, observed, id);
      }
    case Add(ticket) =>
      if ticket.Some? {
        AcceptGrows(s, ticket.value.invitor);
      }
    case CleanupTick(_, _) =>
    case SaveTick =>
    case ClientLogin(_, _, _) =>
    case Remove(_, _) =>
    case Reboot(_) =>
  }

  /** The id is absent after every number of steps. */
  ghost predicate StaysAbsent(s: State, steps: seq<Step>, id: Id) {
    Absent(Exec(s, steps), id) && (steps != [] ==> StaysAbsent(s, steps[..|steps| - 1], id))
  }

  /** No step of the run readmits the id in the state it meets. */
  predicate NeverReadmitted(s: State, steps: seq<Step>, id: Id) {
    steps != [] ==>
      var n := |steps| - 1;
      NeverReadmitted(s, steps[..n], id) && !Readmits(Exec(s, steps[..n]), steps[n], id)
  }

  /** A removed id stays away along exactly those runs in which no step readmits it; saves,
      cleanups, crashes and restarts included. */
  lemma {:induction false} RemovalLasts(s: State, steps: seq<Step>, id: Id)
    requires Inv(s) && Absent(s, id) && id != s.me.id
    ensures StaysAbsent(s, steps, id) <==> NeverReadmitted(s, steps, id)
  {
    if steps != [] {
      var n := |steps| - 1;
      RemovalLasts(s, steps[..n], id);
      if StaysAbsent(s, steps[..n], id) {
        ReachableInv(s, steps[..n]);
        StepReadmits(Exec(s, steps[..n]), steps[n], id);
      }
    }
  }

  // ---- Persistence ----

  /** The step deletes `id` on request. */
  predicate Deletes(s: State, step: Step, id: Id) {
    step.Remove? && Resolve(s, step.text, step.parsed) == Ok(id) && id != s.me.id
  }

  /** While a daemon runs, trust is lost through RemoveNode only. */
  lemma TrustKept(s: State, step: Step, id: Id)
    requires Inv(s) && id in s.trusted && !Deletes(s, step, id) && !step.Reboot?
    ensures id in Next(s, step).trusted
  {
    match step
    case Receive(m, now, observed) => ProcessKeeps(s, m, now, observed);
    case Add(ticket) =>
      if ticket.Some? {
        AcceptGrows(s, ticket.value.invitor);
      }
    case CleanupTick(_, _) =>
    case SaveTick =>
    case ClientLogin(_, _, _) =>
    case Remove(_, _) =>
  }

  /** Along the run nobody removes the id, and the daemon keeps running. */
  predicate NeverDeleted(s: State, steps: seq<Step>, id: Id) {
    steps != [] ==>
      var n := |steps| - 1;
      NeverDeleted(s, steps[..n], id) && !Deletes(Exec(s, steps[..n]), steps[n], id) && !steps[n].Reboot?
  }

  lemma {:induction false} TrustEndures(s: State, steps: seq<Step>, id: Id)
    requires Inv(s) && id in s.trusted && NeverDeleted(s, steps, id)
    ensures id in Exec(s, steps).trusted
  {
    if steps != [] {
      var n := |steps| - 1;
      TrustEndures(s, steps[..n], id);
      ReachableInv(s, steps[..n]);
      TrustKept(Exec(s, steps[..n]), steps[n], id);
    }
  }

  /** The record of a peer made of nothing but its announcement, under the observed address if there is one. */
  function Announced(m: SignedMessage, now: uint64, observed: Option<SocketAddr>): Node
    requires m.body.Invited? || m.body.AboutMe?
  {
    Node(m.from, m.body.invitor, SenderAddr(m.from, m.body.addr, observed), m.body.alias, m.body.services, now)
  }

  /** What an announcement does to an entry that is already there: the heartbeat moves, the address becomes
      the observed one or else gains the announced IPs, and every other field stays. */
  ghost predicate Refreshed(before: Node, after: Node, m: SignedMessage, now: uint64, observed: Option<SocketAddr>)
    requires m.body.Invited? || m.body.AboutMe?
  {
    && after == before.(heartbeat := now, addr := after.addr)
    && (observed.Some? ==> after.addr == ObservedAddr(m.from, observed.value))
    && (observed.None? && before.addr.id == m.from ==>
          after.addr.ips == before.addr.ips + SenderAddr(m.from, m.body.addr, observed).ips)
  }

  /** One fresh AboutMe from a once-trusted peer makes it active again after any silence: timeouts,
      its own Left messages and other traffic, as long as nobody removed it. An inactive peer
      comes back with exactly what it announced; an active one is refreshed. */
  lemma {:induction false} ResumeAfterSilence(s: State, steps: seq<Step>, m: SignedMessage, now: uint64,
                                              observed: Option<SocketAddr>)
    requires Inv(s) && m.from in s.trusted && NeverDeleted(s, steps, m.from)
    requires m.body.AboutMe? && IsFresh(m.timestamp, now)
    ensures var before := Exec(s, steps);
      var after := Process(before, m, now, observed);
      && m.from in after.nodes
      && (m.from !in before.nodes ==> after.nodes[m.from] == Announced(m, now, observed))
      && (m.from in before.nodes ==> Refreshed(before.nodes[m.from], after.nodes[m.from], m, now, observed))
  {
    TrustEndures(s, steps, m.from);
    ReachableInv(s, steps);
    AboutMeEntry(Exec(s, steps), m, now, observed);
  }

  lemma AboutMeEntry(s: State, m: SignedMessage, now: uint64, observed: Option<SocketAddr>)
    requires Inv(s) && m.from in s.trusted && m.body.AboutMe? && IsFresh(m.timestamp, now)
    ensures m.from in Process(s, m, now, observed).nodes
    ensures m.from !in s.nodes ==> Process(s, m, now, observed).nodes[m.from] == Announced(m, now, observed)
    ensures m.from in s.nodes ==>
      Refreshed(s.nodes[m.from], Process(s, m, now, observed).nodes[m.from], m, now, observed)
  {
    var s1 := Touched(s, m, now, observed);
    TouchKeeps(s, m.from, now, observed);
    AcceptGrows(s1, MergeNode(Lookup(s1.nodes, m.from), Announced(m, now, observed)));
    if m.from in s.nodes {
      TouchEntry(s, m.from, now, observed);
      MergeSameAge(s1.nodes[m.from], Announced(m, now, observed));
    }
  }

  /** The entry of the sender after a passing message: stamped, and at the observed address if any. */
  lemma TouchEntry(s: State, from: Id, now: uint64, observed: Option<SocketAddr>)
    requires Inv(s) && from in s.nodes && from != s.me.id
    ensures from in Touch(s, from, now, observed).nodes
    ensures Touch(s, from, now, observed).nodes[from] ==
      s.nodes[from].(heartbeat := now,
                     addr := if observed.Some? then ObservedAddr(from, observed.value) else s.nodes[from].addr)
  {
  }

  lemma MergeSameAge(known: Node, incoming: Node)
    requires known.heartbeat == incoming.heartbeat
    ensures MergeNode(Some(known), incoming) == known.(addr := MergeAddr(known.addr, incoming.addr))
  {
  }

  /** A valid invitation admits its sender, trusted before or not: a newcomer with exactly what it announced
      (and trusted, if it is a daemon), a trusted active peer as after an AboutMe. */
  lemma InvitationAdmits(s: State, m: SignedMessage, now: uint64, observed: Option<SocketAddr>)
    requires Inv(s) && ValidInvite(s, m, now) && m.from != s.me.id
    ensures var after := Process(s, m, now, observed);
      && m.from in after.nodes
      && (m.from !in s.nodes ==>
            && after.nodes[m.from] == Announced(m, now, observed)
            && (CLIENT_MARKER !in m.body.services ==> m.from in after.trusted))
      && (m.from in s.nodes && m.from in s.trusted ==>
            Refreshed(s.nodes[m.from], after.nodes[m.from], m, now, observed))
  {
    var s1 := Touched(s, m, now, observed);
    TouchKeeps(s, m.from, now, observed);
    AcceptGrows(s1, MergeNode(Lookup(s1.nodes, m.from), Announced(m, now, observed)));
    if m.from in s.nodes && m.from in s.trusted {
      TouchEntry(s, m.from, now, observed);
      MergeSameAge(s1.nodes[m.from], Announced(m, now, observed));
    }
  }

  /** AddNode accepts a ticket if and only if the topic matches, whatever its secret number, and a
      refusal changes nothing. */
  lemma AddNodeComparesTopic(s: State, ticket: Ticket, rnum: seq<uint8>)
    ensures AddNode(s, Some(ticket)).1 == Ack <==> ticket.topic == s.ticket.topic
    ensures AddNode(s, Some(ticket)).1 != Ack ==> AddNode(s, Some(ticket)).0 == s
    ensures AddNode(s, Some(ticket.(rnum := rnum))) == AddNode(s, Some(ticket))
  {
  }

  /** Removing a node right after adding it gives back the state from before, if there was no trace of it. */
  lemma RemoveUndoesAdd(s: State, ticket: Ticket, text: string)
    requires Inv(s) && Absent(s, ticket.invitor.id) && ticket.invitor.id != s.me.id
    requires ticket.topic == s.ticket.topic
    ensures RemoveNode(AddNode(s, Some(ticket)).0, text, Some(ticket.invitor.id)) == (s, Ack)
  {
    AddedOnly(s, ticket);
    DropUndoesInsert(s.nodes, ticket.invitor);
    DropUndoesInsert(s.table, ticket.invitor);
    DropUndoesInsert(s.trusted, ticket.invitor);
    assert s.clients - {ticket.invitor.id} == s.clients;
  }

  lemma DropUndoesInsert(m: map<Id, Node>, n: Node)
    requires n.id !in m
    ensures m[n.id := n] - {n.id} == m && m - {n.id} == m
  {
  }

  lemma AddedOnly(s: State, ticket: Ticket)
    requires Inv(s) && Absent(s, ticket.invitor.id) && ticket.invitor.id != s.me.id
    requires ticket.topic == s.ticket.topic
    ensures var t, n := AddNode(s, Some(ticket)).0, ticket.invitor;
      t == s.(nodes := s.nodes[n.id := n], table := s.table[n.id := n],
              trusted := if IsDaemon(n) then s.trusted[n.id := n] else s.trusted)
  {
  }

  /** Removing a client right after its first login gives back the state from before. */
  lemma RemoveUndoesLogin(s: State, req: AuthRequest, mode: AuthMode, now: uint64, text: string)
    requires req.client.Some? && Absent(s, req.client.value) && req.client.value != s.me.id
    requires AuthAllowed(s, req, mode)
    ensures RemoveNode(Login(s, req, mode, now), text, req.client) == (s, Ack)
  {
    var id := req.client.value;
    var t := Login(s, req, mode, now);
    assert t.nodes - {id} == s.nodes && t.clients - {id} == s.clients;
    assert t.trusted - {id} == s.trusted && t.table - {id} == s.table;
  }

  /** AddNode with a ticket of this network makes the node it names active and stores it, exactly as the
      ticket has it, trusts it if it is a daemon, and changes nothing for anybody else. */
  lemma AddNodeAdmits(s: State, ticket: Ticket, other: Id)
    requires Inv(s) && ticket.topic == s.ticket.topic && ticket.invitor.id != s.me.id && other != ticket.invitor.id
    ensures AddNode(s, Some(ticket)).1 == Ack
    ensures var t, n := AddNode(s, Some(ticket)).0, ticket.invitor;
      && Lookup(t.nodes, n.id) == Some(n) && Lookup(t.table, n.id) == Some(n)
      && (IsDaemon(n) ==> n.id in t.trusted)
      && Lookup(t.nodes, other) == Lookup(s.nodes, other)
      && Lookup(t.table, other) == Lookup(s.table, other)
      && (other in t.trusted <==> other in s.trusted)
      && t.clients == s.clients && t.me == s.me && t.ticket == s.ticket
  {
    AcceptGrows(s, ticket.invitor);
  }

  /** A client's first login files a marked entry and nothing else: it earns no trust, is not stored, cannot
      be named by a RemoveNode prefix unless trusted before, and any later login of the same key is a no-op. */
  lemma LoginFilesClient(s: State, req: AuthRequest, mode: AuthMode, now: uint64, client: Id, other: Id, prefix: string,
                         again: AuthRequest, later: uint64)
    requires AuthAllowed(s, req, mode) && req.client == Some(client) && client !in s.clients && other != client
    requires again.client == Some(client)
    ensures var t := Login(s, req, mode, now);
      && client in t.nodes && !IsDaemon(t.nodes[client]) && t.nodes[client].id == client && client in t.clients
      && t.trusted == s.trusted && t.table == s.table && t.me == s.me && t.ticket == s.ticket
      && Lookup(t.nodes, other) == Lookup(s.nodes, other) && (other in t.clients <==> other in s.clients)
      && (Candidate(t, prefix, client) ==> client in s.trusted)
      && Login(t, again, mode, later) == t
  {
    var t := Login(s, req, mode, now);
    assert t.nodes[client].services == map[CLIENT_MARKER := 1];
  }

  // ---- Crash recovery ----

  /** Right after a save, a ticketless start would trust exactly who is trusted now. */
  lemma SaveCapturesTrust(s: State)
    requires Inv(s)
    ensures Persisted(Save(s).table, s.me.id) == s.trusted
  {
  }

  /** At any point, a ticketless start trusts only ids that are trusted now. */
  lemma {:induction false} CrashRevivesNobody(s: State, steps: seq<Step>, boot: Boot)
    requires Inv(s) && boot.ticket.None?
    ensures Restart(Exec(s, steps), boot).trusted.Keys <= Exec(s, steps).trusted.Keys
  {
    ReachableInv(s, steps);
  }

  /** The step files a client record under `id` in the table. */
  predicate MasksStored(step: Step, id: Id) {
    step.Add? && step.ticket.Some? && step.ticket.value.invitor.id == id && !IsDaemon(step.ticket.value.invitor)
  }

  ghost predicate StoredDaemon(s: State, id: Id) {
    id in s.table && IsDaemon(s.table[id]) && id != s.me.id
  }

  lemma StoredKept(s: State, step: Step, id: Id)
    requires Inv(s) && StoredDaemon(s, id) && !Deletes(s, step, id) && !MasksStored(step, id)
    ensures StoredDaemon(Next(s, step), id)
  {
    match step
    case Receive(m, now, observed) => ProcessKeeps(s, m, now, observed);
    case Add(ticket) =>
      if ticket.Some? {
        AcceptGrows(s, ticket.value.invitor);
      }
    case CleanupTick(_, _) =>
    case SaveTick =>
    case ClientLogin(_, _, _) =>
    case Remove(_, _) =>
    case Reboot(_) =>
  }

  /** Along the run nobody removes the id or files a client record under it; restarts are allowed. */
  predicate StoredUndisturbed(s: State, steps: seq<Step>, id: Id) {
    steps != [] ==>
      var n := |steps| - 1;
      StoredUndisturbed(s, steps[..n], id) && !Deletes(Exec(s, steps[..n]), steps[n], id) && !MasksStored(steps[n], id)
  }

  lemma {:induction false} StoredEndures(s: State, steps: seq<Step>, id: Id)
    requires Inv(s) && StoredDaemon(s, id) && StoredUndisturbed(s, steps, id)
    ensures StoredDaemon(Exec(s, steps), id)
  {
    if steps != [] {
      var n := |steps| - 1;
      StoredEndures(s, steps[..n], id);
      ReachableInv(s, steps[..n]);
      StoredKept(Exec(s, steps[..n]), steps[n], id);
    }
  }

  /** Whoever was trusted at a save and not removed since is trusted again after a crash at any later
      point, whatever else happened in between, further restarts included. */
  lemma {:induction false} CrashKeepsSaved(s: State, steps: seq<Step>, boot: Boot, id: Id)
    requires Inv(s) && id in s.trusted && StoredUndisturbed(Save(s), steps, id)
    ensures id in Restart(Exec(Save(s), steps), boot).trusted
  {
    NextKeeps(s, SaveTick);
    StoredEndures(Save(s), steps, id);
    ReachableInv(Save(s), steps);
  }
}
