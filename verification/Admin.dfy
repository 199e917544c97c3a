/** Administration of a running daemon: client login, AddNode and RemoveNode. */
module Admin {
  import opened Domain
  import opened Protocol
  import opened Invariant
  import opened Daemon

  /** Authenticates a request and, for a new client key, files the client as a marked entry. */
  method AuthenticateAndRegister(ctx: Context, req: AuthRequest, mode: AuthMode, now: uint64)
    returns (success: bool, client: Option<Id>)
    requires ctx.Valid()
    modifies ctx`nodes, ctx.registry
    ensures ctx.Valid()
    ensures ctx.View() == Login(old(ctx.View()), req, mode, now)
    ensures success == AuthAllowed(old(ctx.View()), req, mode)
    ensures client == if success then req.client else None
  {
    NextKeeps(ctx.View(), ClientLogin(req, mode, now));
    var ticketValid := req.ticket.Some? && req.ticket.value.Validates(ctx.ticket.topic, ctx.ticket.rnum);
    if !(ticketValid || mode == AllowLocalTicketless) {
      return false, None;
    }
    if req.client.Some? {
      var pk := req.client.value;
      if pk in ctx.registry.clients {
        return true, Some(pk);
      }
      var name := if req.name.Some? then req.name.value else "client-" + pk.text;
      ctx.nodes := ctx.nodes[pk := Node(pk, ctx.me.id, NoAddr(pk), name, map[CLIENT_MARKER := 1], now)];
      ctx.registry.clients := ctx.registry.clients + {pk};
    }
    return true, req.client;
  }

  method FileNode(ctx: Context, node: Node)
    modifies ctx`nodes, ctx`trusted, ctx.storage
    ensures var accepted := Accept(old(ctx.View()), node);
      ctx.View() == accepted.(table := accepted.table[node.id := node])
  {
    ctx.TrustDaemonNode(node);
    ctx.UpsertActiveNode(node);
    ctx.storage.SaveNode(node);
  }

  /** Trusts, activates and stores the node a ticket of this network names. */
  method HandleAddNode(ctx: Context, ticket: Option<Ticket>) returns (outcome: Outcome)
    requires ctx.Valid()
    modifies ctx`nodes, ctx`trusted, ctx.storage
    ensures ctx.Valid()
    ensures (ctx.View(), outcome) == AddNode(old(ctx.View()), ticket)
  {
    AddNodeKeeps(ctx.View(), ticket);
    if ticket.None? {
      return Rejected(InvalidTicket);
    }
    if ticket.value.topic != ctx.ticket.topic {
      return Rejected(TopicMismatch);
    }
    FileNode(ctx, ticket.value.invitor);
    return Ack;
  }

  ghost predicate NoDuplicates(ids: seq<Id>) {
    forall i, j :: 0 <= i < j < |ids| ==> ids[i] != ids[j]
  }

  /** Ids of trusted nodes with a prefix, each once. */
  method TrustedNodeIdsWithPrefix(ctx: Context, prefix: string) returns (ids: seq<Id>)
    ensures NoDuplicates(ids)
    ensures forall id :: id in ids <==> id in ctx.trusted && HasPrefix(id, prefix)
  {
    ids := [];
    var rest := ctx.trusted.Keys;
    while rest != {}
      invariant rest <= ctx.trusted.Keys
      invariant NoDuplicates(ids)
      invariant forall id :: id in ids <==> id in ctx.trusted && id !in rest && HasPrefix(id, prefix)
      decreases rest
    {
      var id :| id in rest;
      if HasPrefix(id, prefix) {
        ids := ids + [id];
      }
      rest := rest - {id};
    }
  }

  method ActiveNodeIdsWithPrefix(ctx: Context, prefix: string) returns (ids: seq<Id>)
    ensures NoDuplicates(ids)
    ensures forall id :: id in ids <==> id in ctx.nodes && id !in ctx.registry.clients && HasPrefix(id, prefix)
  {
    ids := [];
    var rest := ctx.nodes.Keys;
    while rest != {}
      invariant rest <= ctx.nodes.Keys
      invariant NoDuplicates(ids)
      invariant forall id :: id in ids <==>
        id in ctx.nodes && id !in ctx.registry.clients && id !in rest && HasPrefix(id, prefix)
      decreases rest
    {
      var id :| id in rest;
      if id !in ctx.registry.clients && HasPrefix(id, prefix) {
        ids := ids + [id];
      }
      rest := rest - {id};
    }
  }

  lemma {:induction false} CountsItsSet(ids: seq<Id>, all: set<Id>)
    requires NoDuplicates(ids) && forall id :: id in ids <==> id in all
    ensures |ids| == |all|
  {
    if ids == [] {
      assert all == {};
    } else {
      var n := |ids| - 1;
      assert ids[n] in all;
      forall id ensures id in ids[..n] <==> id in all - {ids[n]} {
        assert id in all - {ids[n]} ==> id in ids;
      }
      CountsItsSet(ids[..n], all - {ids[n]});
    }
  }

  /** Prefix search: candidates from the active view first, then trusted ids not among them yet. */
  method ResolveId(ctx: Context, text: string, parsed: Option<Id>) returns (r: Result<Id, Rejection>)
    ensures r == Resolve(ctx.View(), text, parsed)
  {
    if parsed.Some? {
      return Ok(parsed.value);
    }
    var matches := ActiveNodeIdsWithPrefix(ctx, text);
    ghost var active := matches;
    var trusted := TrustedNodeIdsWithPrefix(ctx, text);
    var i := 0;
    while i < |trusted|
      invariant 0 <= i <= |trusted|
      invariant NoDuplicates(matches)
      invariant forall id :: id in matches <==> id in active || id in trusted[..i]
    {
      assert trusted[..i + 1] == trusted[..i] + [trusted[i]];
      if trusted[i] !in matches {
        matches := matches + [trusted[i]];
      }
      i := i + 1;
    }
    assert trusted[..i] == trusted;
    CountsItsSet(matches, Matches(ctx.View(), text));
    if |matches| == 0 {
      return Err(NoMatch);
    } else if |matches| == 1 {
      assert matches[0] in Matches(ctx.View(), text);
      return Ok(matches[0]);
    } else {
      return Err(Ambiguous(|matches|));
    }
  }

  /** Deletes one node everywhere, unless it is this daemon. */
  method HandleRemoveNode(ctx: Context, text: string, parsed: Option<Id>) returns (outcome: Outcome)
    requires ctx.Valid()
    modifies ctx`nodes, ctx`trusted, ctx.registry, ctx.storage
    ensures ctx.Valid()
    ensures (ctx.View(), outcome) == RemoveNode(old(ctx.View()), text, parsed)
  {
    NextKeeps(ctx.View(), Remove(text, parsed));
    var resolved := ResolveId(ctx, text, parsed);
    if resolved.Err? {
      return Rejected(resolved.error);
    }
    var id := resolved.value;
    if id == ctx.me.id {
      return Rejected(RefuseSelf);
    }
    ctx.registry.clients := ctx.registry.clients - {id};
    ctx.nodes := ctx.nodes - {id};
    ctx.UntrustNode(id);
    ctx.storage.RemoveNode(id);
    return Ack;
  }
}
