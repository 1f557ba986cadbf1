/** The topological ordering that `backward` builds before propagating
    gradients: a depth-first post-order over operand sets, with a visited set. */
module Topo {
  import opened Values

  /** The handles that occur in a sequence. */
  function Elems(s: seq<Handle>): (r: set<Handle>)
    ensures forall i :: 0 <= i < |s| ==> s[i] in r
    ensures forall x :: x in r ==> x in s
  {
    set x | x in s
  }

  /** The nodes reachable from `v` through operands, `v` included. */
  ghost function Reach(nodes: seq<Node>, v: Handle): (r: set<Handle>)
    requires WellFormed(nodes) && v < |nodes|
    ensures v in r
    ensures forall u :: u in r ==> u <= v
    decreases v
  {
    {v} + (set c, u | c in Operands(nodes[v].op) && u in Reach(nodes, c) :: u)
  }

  /** An operand's reachable nodes are reachable from its consumer. */
  lemma ReachOperand(nodes: seq<Node>, v: Handle, c: Handle)
    requires WellFormed(nodes) && v < |nodes| && c in Operands(nodes[v].op)
    ensures c < v && Reach(nodes, c) <= Reach(nodes, v)
  {
  }

  /** A set closed under taking operands holds everything reachable from its members. */
  lemma {:induction false} ClosedContainsReach(nodes: seq<Node>, s: set<Handle>, v: Handle)
    requires WellFormed(nodes)
    requires forall x :: x in s ==> x < |nodes| && Operands(nodes[x].op) <= s
    requires v in s
    ensures Reach(nodes, v) <= s
    decreases v
  {
    forall c | c in Operands(nodes[v].op) {
      ClosedContainsReach(nodes, s, c);
    }
  }

  /** All entries of `topo` are distinct node handles. */
  ghost predicate Distinct(topo: seq<Handle>) {
    forall i, j :: 0 <= i < j < |topo| ==> topo[i] != topo[j]
  }

  /** `topo` lists nodes of the arena and never lists an operand at or after
      the position of its consumer. */
  ghost predicate NoLaterOperand(nodes: seq<Node>, topo: seq<Handle>) {
    (forall i :: 0 <= i < |topo| ==> topo[i] < |nodes|)
    && (forall i, j :: 0 <= i <= j < |topo| ==> topo[j] !in Operands(nodes[topo[i]].op))
  }

  /** `topo` lists distinct nodes, holds the operands of each of its entries and
      never lists an operand at or after the position of its consumer. */
  ghost predicate IsTopoPrefix(nodes: seq<Node>, topo: seq<Handle>) {
    NoLaterOperand(nodes, topo)
    && Distinct(topo)
    && (forall i :: 0 <= i < |topo| ==> Operands(nodes[topo[i]].op) <= Elems(topo))
  }

  /** The ordering guarantee in its plain form: every operand of an entry
      occurs in `topo` strictly before that entry. */
  lemma OperandsComeFirst(nodes: seq<Node>, topo: seq<Handle>, i: nat, c: Handle)
    requires IsTopoPrefix(nodes, topo)
    requires i < |topo| && c in Operands(nodes[topo[i]].op)
    ensures exists j :: 0 <= j < i && topo[j] == c
  {
    assert c in Elems(topo);
    var j :| 0 <= j < |topo| && topo[j] == c;
    assert !(i <= j);
  }

  /** The operands of a listed node are listed. */
  lemma OperandListed(nodes: seq<Node>, topo: seq<Handle>, x: Handle, c: Handle)
    requires IsTopoPrefix(nodes, topo) && x in Elems(topo) && x < |nodes|
    requires c in Operands(nodes[x].op)
    ensures c in Elems(topo)
  {
    var i :| 0 <= i < |topo| && topo[i] == x;
    assert Operands(nodes[topo[i]].op) <= Elems(topo);
  }

  /** Appending a new node whose operands are all listed extends a topological prefix. */
  lemma AppendToTopo(nodes: seq<Node>, topo: seq<Handle>, v: Handle)
    requires WellFormed(nodes) && v < |nodes|
    requires IsTopoPrefix(nodes, topo)
    requires v !in Elems(topo) && Operands(nodes[v].op) <= Elems(topo)
    ensures IsTopoPrefix(nodes, topo + [v])
    ensures Elems(topo + [v]) == Elems(topo) + {v}
  {
    var t := topo + [v];
    assert forall i :: 0 <= i < |topo| ==> t[i] == topo[i];
    assert Elems(t) == Elems(topo) + {v};
    forall i, j | 0 <= i <= j < |t| ensures t[j] !in Operands(nodes[t[i]].op) {
      if j == |topo| {
        if i < |topo| {
          assert Operands(nodes[topo[i]].op) <= Elems(topo);
        } else {
          assert OperandsBelow(nodes[v].op, v);
        }
      }
    }
  }

  /** Once every operand of `v` is listed, appending `v` completes its visit. */
  lemma FinishVisit(nodes: seq<Node>, v: Handle, topo: seq<Handle>, cur: seq<Handle>)
    requires WellFormed(nodes) && v < |nodes|
    requires IsTopoPrefix(nodes, cur) && topo <= cur
    requires v !in Elems(topo)
    requires Elems(topo) <= Elems(cur) <= Elems(topo) + (Reach(nodes, v) - {v})
    requires Operands(nodes[v].op) <= Elems(cur)
    ensures IsTopoPrefix(nodes, cur + [v]) && topo <= cur + [v]
    ensures Elems(cur + [v]) == Elems(topo) + Reach(nodes, v)
    ensures Elems(cur + [v]) == Elems(cur) + {v}
  {
    AppendToTopo(nodes, cur, v);
    ClosedContainsReach(nodes, Elems(cur + [v]), v);
  }

  /** The recursive call on an operand `c` of `v` meets the traversal's
      requirements: every visit still in progress is above `c`, and every
      visited node is in the arena. */
  lemma OperandCallAllowed(nodes: seq<Node>, v: Handle, c: Handle, visited: set<Handle>, topo: seq<Handle>,
                           visited': set<Handle>, cur: seq<Handle>)
    requires WellFormed(nodes) && v < |nodes| && c in Operands(nodes[v].op)
    requires Elems(topo) <= visited && forall u :: u in visited ==> u < |nodes|
    requires forall u :: u in visited - Elems(topo) ==> v < u
    requires visited' == visited + {v} + Elems(cur)
    requires Elems(topo) <= Elems(cur) <= Elems(topo) + (Reach(nodes, v) - {v})
    ensures forall u :: u in visited' - Elems(cur) ==> c < u
    ensures forall u :: u in visited' ==> u < |nodes|
  {
    ReachOperand(nodes, v, c);
    forall u | u in visited' - Elems(cur) ensures c < u {
      if u != v {
        assert u in visited - Elems(topo);
      }
    }
    forall u | u in visited' ensures u < |nodes| {
      if u !in visited && u != v {
        assert u in Reach(nodes, v);
      }
    }
  }

  /** After the visit of an operand `c` of `v`, the listed nodes are still
      the earlier ones plus nodes reachable from `v` other than `v`. */
  lemma OperandVisited(nodes: seq<Node>, v: Handle, c: Handle, topo: seq<Handle>, cur: seq<Handle>, next: seq<Handle>)
    requires WellFormed(nodes) && v < |nodes| && c in Operands(nodes[v].op)
    requires Elems(topo) <= Elems(cur) <= Elems(topo) + (Reach(nodes, v) - {v})
    requires Elems(next) == Elems(cur) + Reach(nodes, c)
    ensures Elems(topo) <= Elems(next) <= Elems(topo) + (Reach(nodes, v) - {v})
  {
    ReachOperand(nodes, v, c);
  }

  /** `build_topo(v)`: visit `v` unless it was visited, then visit its operands
      in whatever order the operand set yields them, and append `v` after them.
      `visited - Elems(topo)` are the nodes whose visit is still in progress;
      all of them are consumers (direct or not) of `v`, hence above `v`. */
  method BuildTopo(nodes: seq<Node>, v: Handle, visited: set<Handle>, topo: seq<Handle>)
    returns (visited': set<Handle>, topo': seq<Handle>)
    requires WellFormed(nodes) && v < |nodes|
    requires IsTopoPrefix(nodes, topo)
    requires Elems(topo) <= visited
    requires forall u :: u in visited ==> u < |nodes|
    requires forall u :: u in visited - Elems(topo) ==> v < u
    ensures IsTopoPrefix(nodes, topo')
    ensures topo <= topo'
    ensures Elems(topo') == Elems(topo) + Reach(nodes, v)
    ensures visited' == visited + Elems(topo')
    ensures v in visited ==> visited' == visited && topo' == topo
    ensures v !in visited ==> |topo'| > 0 && topo'[|topo'| - 1] == v
    decreases v
  {
    if v in visited {
      assert v !in visited - Elems(topo);
      ClosedContainsReach(nodes, Elems(topo), v);
      return visited, topo;
    }
    visited' := visited + {v};
    topo' := topo;
    var rest := Operands(nodes[v].op);
    while rest != {}
      invariant rest <= Operands(nodes[v].op)
      invariant IsTopoPrefix(nodes, topo')
      invariant topo <= topo'
      invariant Elems(topo) <= Elems(topo') <= Elems(topo) + (Reach(nodes, v) - {v})
      invariant forall c :: c in Operands(nodes[v].op) - rest ==> c in Elems(topo')
      invariant visited' == visited + {v} + Elems(topo')
      decreases rest
    {
      var c :| c in rest;
      OperandCallAllowed(nodes, v, c, visited, topo, visited', topo');
      ghost var cur := topo';
      assert c < v by { ReachOperand(nodes, v, c); }
      visited', topo' := BuildTopo(nodes, c, visited', topo');
      OperandVisited(nodes, v, c, topo, cur, topo');
      rest := rest - {c};
    }
    FinishVisit(nodes, v, topo, topo');
    topo' := topo' + [v];
  }
}
