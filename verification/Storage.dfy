/** The node table. Each write is one transaction, so a crash leaves the table of the last one. */
module Storage {
  import opened Domain

  function InsertAll(table: map<Id, Node>, nodes: seq<Node>): map<Id, Node> {
    if nodes == [] then table
    else
      var last := nodes[|nodes| - 1];
      InsertAll(table, nodes[..|nodes| - 1])[last.id := last]
  }

  lemma {:induction false} InsertOneMore(table: map<Id, Node>, nodes: seq<Node>, n: Node, saved: map<Id, Node>)
    requires InsertAll(table, nodes) == table + saved
    ensures InsertAll(table, nodes + [n]) == table + saved[n.id := n]
  {
    assert (nodes + [n])[..|nodes|] == nodes;
  }

  /** A batch leaves the rows of the ids it does not hold alone. */
  lemma {:induction false} InsertAllKeeps(table: map<Id, Node>, nodes: seq<Node>, id: Id)
    requires forall i :: 0 <= i < |nodes| ==> nodes[i].id != id
    ensures Lookup(InsertAll(table, nodes), id) == Lookup(table, id)
  {
    if nodes != [] {
      InsertAllKeeps(table, nodes[..|nodes| - 1], id);
    }
  }

  /** The row of an id it does hold becomes its last record for that id. */
  lemma {:induction false} InsertAllLast(table: map<Id, Node>, nodes: seq<Node>, i: nat)
    requires i < |nodes| && forall j :: i < j < |nodes| ==> nodes[j].id != nodes[i].id
    ensures Lookup(InsertAll(table, nodes), nodes[i].id) == Some(nodes[i])
  {
    if i < |nodes| - 1 {
      InsertAllLast(table, nodes[..|nodes| - 1], i);
    }
  }

  class NodeTable {
    var table: map<Id, Node>

    constructor ()
      ensures table == map[]
    {
      table := map[];
    }

    /** All records, in some order. */
    method LoadNodes() returns (nodes: seq<Node>)
      ensures forall n :: n in nodes <==> exists id :: id in table && table[id] == n
    {
      nodes := [];
      var rest := table.Keys;
      while rest != {}
        invariant rest <= table.Keys
        invariant forall n :: n in nodes <==> exists id :: id in table && id !in rest && table[id] == n
        decreases rest
      {
        var id :| id in rest;
        ghost var before := nodes;
        nodes := nodes + [table[id]];
        rest := rest - {id};
        forall n ensures n in nodes <==> exists k :: k in table && k !in rest && table[k] == n {
          if n in before {
            var k :| k in table && k !in rest + {id} && table[k] == n;
            assert k !in rest;
          } else if n == table[id] {
            assert id !in rest;
          }
        }
      }
    }

    method SaveNode(node: Node)
      modifies this
      ensures table == old(table)[node.id := node]
    {
      table := table[node.id := node];
    }

    method BatchSaveNodes(nodes: seq<Node>)
      modifies this
      ensures table == InsertAll(old(table), nodes)
    {
      var written := table;
      var i := 0;
      while i < |nodes|
        invariant 0 <= i <= |nodes|
        invariant written == InsertAll(old(table), nodes[..i])
      {
        assert nodes[..i + 1][..i] == nodes[..i];
        written := written[nodes[i].id := nodes[i]];
        i := i + 1;
      }
      assert nodes[..|nodes|] == nodes;
      table := written;
    }

    method RemoveNode(id: Id)
      modifies this
      ensures table == old(table) - {id}
    {
      table := table - {id};
    }
  }
}
