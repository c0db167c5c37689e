/** The `easy_connect!` macro of src/helpers.rs: every listed node is linked,
    in list order, to every other listed node. Handles are positions in the
    arena, so the pointer comparison of the source is a comparison of
    positions. */
module Helpers {
  import opened Types
  import opened Protocol
  import opened Raft

  /** The entries of `list` other than `a`, in order. */
  function Others(list: seq<nat>, a: nat): (others: seq<nat>)
    ensures |others| <= |list|
    ensures forall x :: x in others <==> x in list && x != a
  {
    if list == [] then []
    else
      var last := list[|list| - 1];
      Others(list[..|list| - 1], a) + (if last != a then [last] else [])
  }

  /** The arena once the first `n` entries of `list` have each been linked to
      the others of `list`. */
  function Mesh(nodes: seq<Node>, list: seq<nat>, n: nat): (r: seq<Node>)
    requires n <= |list| && ValidTargets(nodes, list)
    ensures |r| == |nodes|
  {
    if n == 0 then nodes
    else
      var m := Mesh(nodes, list, n - 1);
      var a := list[n - 1];
      m[a := m[a].(edges := m[a].edges + Others(list, a))]
  }

  /** `easy_connect!(list)`: for each listed node in turn, collects every
      other listed node and connects it to them. */
  method EasyConnect(c: Cluster, list: seq<nat>)
    requires c.Valid() && ValidTargets(c.nodes, list)
    modifies c
    ensures c.nodes == Mesh(old(c.nodes), list, |list|)
    ensures c.Valid()
  {
    var i := 0;
    while i < |list|
      invariant 0 <= i <= |list|
      invariant c.Valid() && c.nodes == Mesh(old(c.nodes), list, i)
    {
      var node := list[i];
      var connectedNodes := CollectOthers(list, node);
      forall k | 0 <= k < |connectedNodes|
        ensures connectedNodes[k] < |c.nodes|
      {
        assert connectedNodes[k] in list;
      }
      c.ConnectNodes(node, connectedNodes);
      i := i + 1;
    }
  }

  /** The inner loop of the macro: the listed nodes other than `node`, in
      list order. */
  method CollectOthers(list: seq<nat>, node: nat) returns (connectedNodes: seq<nat>)
    ensures connectedNodes == Others(list, node)
  {
    connectedNodes := [];
    var j := 0;
    while j < |list|
      invariant 0 <= j <= |list|
      invariant connectedNodes == Others(list[..j], node)
    {
      assert list[..j + 1][..j] == list[..j];
      var otherNode := list[j];
      if otherNode != node {
        connectedNodes := connectedNodes + [otherNode];
      }
      j := j + 1;
    }
    assert list[..j] == list;
  }

  /** No node is ever linked to itself by the macro, whatever the list
      (duplicates included). */
  lemma {:induction false} MeshNoSelfLinks(nodes: seq<Node>, list: seq<nat>, n: nat)
    requires n <= |list| && ValidTargets(nodes, list)
    requires forall i :: 0 <= i < |nodes| ==> i !in nodes[i].edges
    ensures forall i :: 0 <= i < |nodes| ==> i !in Mesh(nodes, list, n)[i].edges
  {
    if n > 0 {
      MeshNoSelfLinks(nodes, list, n - 1);
    }
  }

  /** After the macro, every listed node is linked to every other listed node,
      and the nodes not listed are left as they were. */
  lemma {:induction false} MeshLinksEveryPair(nodes: seq<Node>, list: seq<nat>, n: nat)
    requires n <= |list| && ValidTargets(nodes, list)
    ensures forall k, x :: 0 <= k < n && x in list && x != list[k] ==> x in Mesh(nodes, list, n)[list[k]].edges
    ensures forall i :: 0 <= i < |nodes| && i !in list[..n] ==> Mesh(nodes, list, n)[i] == nodes[i]
  {
    if n > 0 {
      MeshLinksEveryPair(nodes, list, n - 1);
      assert forall i :: i in list[..n - 1] ==> i in list[..n];
    }
  }

  /** With no node listed twice, each listed node gains exactly the other
      listed nodes, in list order. */
  lemma {:induction false} MeshDistinct(nodes: seq<Node>, list: seq<nat>, n: nat)
    requires n <= |list| && ValidTargets(nodes, list) && Distinct(list)
    ensures forall k :: 0 <= k < n ==>
              Mesh(nodes, list, n)[list[k]] == nodes[list[k]].(edges := nodes[list[k]].edges + Others(list, list[k]))
  {
    if n > 0 {
      var m := Mesh(nodes, list, n - 1);
      var a := list[n - 1];
      MeshDistinct(nodes, list, n - 1);
      MeshLinksEveryPair(nodes, list, n - 1);
      assert a !in list[..n - 1];
      assert m[a] == nodes[a];
      forall k | 0 <= k < n - 1
        ensures Mesh(nodes, list, n)[list[k]] == m[list[k]]
      {
        assert list[k] != a;
      }
    }
  }
}
