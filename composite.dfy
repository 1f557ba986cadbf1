/** The derived operators build small graphs of primitives. These are the
    nodes they append, and the gradients their rules pass back: those of
    negation, subtraction and division. */
module Composite {
  import opened Values
  import opened Gradients

  /** What `-v` appends: the leaf -1 and `v * -1`. */
  function NegNodes(base: seq<Node>, v: Handle): seq<Node>
    requires v < |base|
  {
    base + [Node(-1.0, Leaf), Node(Product(base[v].data, -1.0), MulOp(v, |base|))]
  }

  /** What `a - b` appends for a node `b`: `-b`, then `a + (-b)`. */
  function SubNodes(base: seq<Node>, a: Handle, b: Handle): seq<Node>
    requires a < |base| && b < |base|
  {
    base + [Node(-1.0, Leaf), Node(Product(base[b].data, -1.0), MulOp(b, |base|)),
            Node(base[a].data + Product(base[b].data, -1.0), AddOp(a, |base| + 1))]
  }

  /** What `c - v` appends: `-v`, the leaf c, then `(-v) + c`. */
  function RSubNodes(base: seq<Node>, v: Handle, c: real): seq<Node>
    requires v < |base|
  {
    base + [Node(-1.0, Leaf), Node(Product(base[v].data, -1.0), MulOp(v, |base|)),
            Node(c, Leaf), Node(Product(base[v].data, -1.0) + c, AddOp(|base| + 1, |base| + 2))]
  }

  /** What `a / b` appends for a node `b` whose value is not zero:
      `b ** -1`, then `a * b**-1`. */
  function DivNodes(base: seq<Node>, a: Handle, b: Handle): seq<Node>
    requires a < |base| && b < |base| && base[b].data != 0.0
  {
    base + [Node(IntPow(base[b].data, -1), PowOp(b, -1)),
            Node(Product(base[a].data, IntPow(base[b].data, -1)), MulOp(a, |base|))]
  }

  /** What `c / v` appends for a node `v` whose value is not zero:
      `v ** -1`, the leaf c, then `v**-1 * c`. */
  function RDivNodes(base: seq<Node>, v: Handle, c: real): seq<Node>
    requires v < |base| && base[v].data != 0.0
  {
    base + [Node(IntPow(base[v].data, -1), PowOp(v, -1)), Node(c, Leaf),
            Node(Product(IntPow(base[v].data, -1), c), MulOp(|base|, |base| + 1))]
  }

  /** The positions of the appended nodes, in creation order. */
  function Fresh(base: seq<Node>, k: nat): (s: seq<Handle>)
    ensures |s| == k && forall i :: 0 <= i < k ==> s[i] == |base| + i
  {
    seq(k, i => |base| + i)
  }

  /** A quotient, named for the same reason as `Product`. Its divisor is
      not zero when it is a product of non-zero factors. */
  function Quotient(x: real, y: real): real
    requires y != 0.0
  {
    x / y
  }

  /** `x ** -2` is one over the square. */
  lemma ReciprocalSquare(x: real)
    requires x != 0.0
    ensures IntPow(x, -2) == 1.0 / (x * x)
  {
    assert Power(x, 2) == x * Power(x, 1);
    assert Power(x, 1) == x * Power(x, 0);
  }

  /** The arithmetic of the quotient rule. */
  lemma QuotientArith(x: real, y: real, d: real)
    requires y != 0.0
    ensures (1.0 / y) * d == Quotient(d, y)
    ensures Product(y, y) != 0.0
    ensures -1 as real * IntPow(y, -2) * (x * d) == -Quotient(Product(x, d), Product(y, y))
  {
    ReciprocalSquare(y);
  }

  /** The rules of two entries run last one first. */
  lemma RunTwo(nodes: seq<Node>, g: seq<real>, p: Handle, q: Handle)
    requires WellFormed(nodes) && |g| == |nodes| && p < |nodes| && q < |nodes|
    requires RuleDefined(nodes, p) && RuleDefined(nodes, q)
    ensures AllDefined(nodes, [p, q])
    ensures ApplyInReverse(nodes, g, [p, q]) == LocalBackward(nodes, LocalBackward(nodes, g, q), p)
  {
    assert [p, q][1..] == [q] && [q][1..] == [];
    assert ApplyInReverse(nodes, g, [q]) == LocalBackward(nodes, g, q);
  }

  /** The rules of three entries run last one first. */
  lemma RunThree(nodes: seq<Node>, g: seq<real>, p: Handle, q: Handle, r: Handle)
    requires WellFormed(nodes) && |g| == |nodes| && p < |nodes| && q < |nodes| && r < |nodes|
    requires RuleDefined(nodes, p) && RuleDefined(nodes, q) && RuleDefined(nodes, r)
    ensures AllDefined(nodes, [p, q, r])
    ensures ApplyInReverse(nodes, g, [p, q, r])
         == LocalBackward(nodes, LocalBackward(nodes, LocalBackward(nodes, g, r), q), p)
  {
    assert [p, q, r][1..] == [q, r];
    RunTwo(nodes, g, q, r);
  }

  /** The rules of four entries run last one first. */
  lemma RunFour(nodes: seq<Node>, g: seq<real>, p: Handle, q: Handle, r: Handle, s: Handle)
    requires WellFormed(nodes) && |g| == |nodes| && p < |nodes| && q < |nodes| && r < |nodes| && s < |nodes|
    requires RuleDefined(nodes, p) && RuleDefined(nodes, q) && RuleDefined(nodes, r) && RuleDefined(nodes, s)
    ensures AllDefined(nodes, [p, q, r, s])
    ensures ApplyInReverse(nodes, g, [p, q, r, s])
         == LocalBackward(nodes, LocalBackward(nodes, LocalBackward(nodes, LocalBackward(nodes, g, s), r), q), p)
  {
    assert [p, q, r, s][1..] == [q, r, s];
    RunThree(nodes, g, q, r, s);
  }

  /** Nodes appended after a well-formed arena, each with older operands only. */
  lemma ExtendWellFormed(base: seq<Node>, nodes: seq<Node>)
    requires WellFormed(base) && base <= nodes
    requires forall w :: |base| <= w < |nodes| ==> OperandsBelow(nodes[w].op, w)
    ensures WellFormed(nodes)
  {
    forall w | 0 <= w < |nodes| ensures OperandsBelow(nodes[w].op, w) {
      if w < |base| { assert nodes[w] == base[w]; }
    }
  }

  /** Backward through `-v`: the rules of the appended nodes pass minus the
      output's gradient to `v`. */
  lemma NegGradient(base: seq<Node>, g: seq<real>, v: Handle)
    requires WellFormed(base) && v < |base|
    requires |g| == |base| + 2
    ensures WellFormed(NegNodes(base, v)) && AllDefined(NegNodes(base, v), Fresh(base, 2))
    ensures ApplyInReverse(NegNodes(base, v), g, Fresh(base, 2))[v] == g[v] - g[|base| + 1]
  {
    var nodes, n := NegNodes(base, v), |base|;
    assert WellFormed(nodes) by {
      forall w | 0 <= w < |nodes| ensures OperandsBelow(nodes[w].op, w) {
        if w < n { assert nodes[w] == base[w]; }
      }
    }
    var order := Fresh(base, 2);
    assert order == [n, n + 1];
    assert order[1..] == [n + 1] && order[1..][1..] == [];
    var g1 := LocalBackward(nodes, g, n + 1);
    assert ApplyInReverse(nodes, g, order[1..]) == g1;
    assert g1[v] == g[v] + -1.0 * g[n + 1];
    LeafBackwardIsNoOp(nodes, g1, n);
  }

  /** The three rules of `a - b`, last node first, in an arena where the
      appended nodes sit at `n`, `n + 1`, `n + 2`. */
  lemma SubSteps(nodes: seq<Node>, g: seq<real>, n: Handle, a: Handle, b: Handle)
    requires WellFormed(nodes) && |g| == |nodes| && n + 2 < |nodes| && a < n && b < n && a != b
    requires nodes[n] == Node(-1.0, Leaf) && nodes[n + 1].op == MulOp(b, n) && nodes[n + 2].op == AddOp(a, n + 1)
    requires g[n + 1] == 0.0
    ensures var g1 := LocalBackward(nodes, g, n + 2);
      var g2 := LocalBackward(nodes, g1, n + 1);
      var g3 := LocalBackward(nodes, g2, n);
      g3[a] == g[a] + g[n + 2] && g3[b] == g[b] - g[n + 2]
  {
    var g1 := LocalBackward(nodes, g, n + 2);
    AddRule(nodes, g, n + 2, b);
    var g2 := LocalBackward(nodes, g1, n + 1);
    MulRule(nodes, g1, n + 1, a);
    LeafBackwardIsNoOp(nodes, g2, n);
    assert g1[n + 1] == g[n + 2];
    assert g2[b] == g1[b] + -1.0 * g1[n + 1];
  }

  /** Backward through `a - b` for distinct nodes: the output's gradient
      reaches `a` unchanged and `b` negated. */
  lemma SubGradient(base: seq<Node>, g: seq<real>, a: Handle, b: Handle)
    requires WellFormed(base) && a < |base| && b < |base| && a != b
    requires |g| == |base| + 3 && g[|base| + 1] == 0.0
    ensures WellFormed(SubNodes(base, a, b)) && AllDefined(SubNodes(base, a, b), Fresh(base, 3))
    ensures var g' := ApplyInReverse(SubNodes(base, a, b), g, Fresh(base, 3));
      g'[a] == g[a] + g[|base| + 2] && g'[b] == g[b] - g[|base| + 2]
  {
    var nodes, n := SubNodes(base, a, b), |base|;
    assert nodes[n] == Node(-1.0, Leaf) && nodes[n + 1].op == MulOp(b, n) && nodes[n + 2].op == AddOp(a, n + 1);
    ExtendWellFormed(base, nodes);
    assert Fresh(base, 3) == [n, n + 1, n + 2];
    RunThree(nodes, g, n, n + 1, n + 2);
    SubSteps(nodes, g, n, a, b);
  }

  /** The four rules of `c - v`, last node first, in an arena where the
      appended nodes sit at `n` to `n + 3`. */
  lemma RSubSteps(nodes: seq<Node>, g: seq<real>, n: Handle, v: Handle)
    requires WellFormed(nodes) && |g| == |nodes| && n + 3 < |nodes| && v < n
    requires nodes[n] == Node(-1.0, Leaf) && nodes[n + 1] == Node(Product(nodes[v].data, -1.0), MulOp(v, n))
    requires nodes[n + 2].op == Leaf && nodes[n + 3].op == AddOp(n + 1, n + 2)
    requires g[n + 1] == 0.0
    ensures var g4 := LocalBackward(nodes, LocalBackward(nodes,
      LocalBackward(nodes, LocalBackward(nodes, g, n + 3), n + 2), n + 1), n);
      g4[v] == g[v] - g[n + 3]
  {
    var g1 := LocalBackward(nodes, g, n + 3);
    AddRule(nodes, g, n + 3, n + 1);
    var g2 := LocalBackward(nodes, g1, n + 2);
    LeafBackwardIsNoOp(nodes, g1, n + 2);
    var g3 := LocalBackward(nodes, g2, n + 1);
    MulRule(nodes, g2, n + 1, v);
    LeafBackwardIsNoOp(nodes, g3, n);
    assert g2[n + 1] == g[n + 3];
    assert g3[v] == g2[v] + nodes[n].data * g2[n + 1];
  }

  /** Backward through `c - v`: the output's gradient reaches `v` negated. */
  lemma RSubGradient(base: seq<Node>, g: seq<real>, v: Handle, c: real)
    requires WellFormed(base) && v < |base|
    requires |g| == |base| + 4 && g[|base| + 1] == 0.0
    ensures WellFormed(RSubNodes(base, v, c)) && AllDefined(RSubNodes(base, v, c), Fresh(base, 4))
    ensures ApplyInReverse(RSubNodes(base, v, c), g, Fresh(base, 4))[v] == g[v] - g[|base| + 3]
  {
    var nodes, n := RSubNodes(base, v, c), |base|;
    assert nodes[n] == Node(-1.0, Leaf) && nodes[n + 1] == Node(Product(nodes[v].data, -1.0), MulOp(v, n));
    assert nodes[n + 2].op == Leaf && nodes[n + 3].op == AddOp(n + 1, n + 2);
    ExtendWellFormed(base, nodes);
    assert Fresh(base, 4) == [n, n + 1, n + 2, n + 3];
    RunFour(nodes, g, n, n + 1, n + 2, n + 3);
    RSubSteps(nodes, g, n, v);
  }

  /** The two rules of `a / b`, last node first, in an arena where the
      appended nodes sit at `n` and `n + 1`. */
  lemma DivSteps(nodes: seq<Node>, g: seq<real>, n: Handle, a: Handle, b: Handle, x: real, y: real)
    requires WellFormed(nodes) && |g| == |nodes| && n + 1 < |nodes| && a < n && b < n && a != b
    requires x == nodes[a].data && y == nodes[b].data && y != 0.0
    requires nodes[n] == Node(IntPow(y, -1), PowOp(b, -1)) && nodes[n + 1].op == MulOp(a, n) && g[n] == 0.0
    ensures var g2 := LocalBackward(nodes, LocalBackward(nodes, g, n + 1), n);
      g2[a] == g[a] + Quotient(g[n + 1], y) && g2[b] == g[b] - Quotient(Product(x, g[n + 1]), Product(y, y))
  {
    var d := g[n + 1];
    var g1 := LocalBackward(nodes, g, n + 1);
    MulRule(nodes, g, n + 1, b);
    PowRule(nodes, g1, n, a);
    Reciprocal(y);
    ReciprocalSquare(y);
    QuotientArith(x, y, d);
    assert g1[a] == g[a] + (1.0 / y) * d;
    assert g1[n] == x * d;
  }

  /** Backward through `a / b` for distinct nodes: `a` receives the output's
      gradient over `b`, and `b` minus `a` times it over `b` squared. */
  lemma DivGradient(base: seq<Node>, g: seq<real>, a: Handle, b: Handle)
    requires WellFormed(base) && a < |base| && b < |base| && a != b && base[b].data != 0.0
    requires |g| == |base| + 2 && g[|base|] == 0.0
    ensures WellFormed(DivNodes(base, a, b)) && AllDefined(DivNodes(base, a, b), Fresh(base, 2))
    ensures var g', x, y := ApplyInReverse(DivNodes(base, a, b), g, Fresh(base, 2)), base[a].data, base[b].data;
      g'[a] == g[a] + Quotient(g[|base| + 1], y) && g'[b] == g[b] - Quotient(Product(x, g[|base| + 1]), Product(y, y))
  {
    var nodes, n := DivNodes(base, a, b), |base|;
    assert nodes[n] == Node(IntPow(nodes[b].data, -1), PowOp(b, -1)) && nodes[n + 1].op == MulOp(a, n);
    assert nodes[a] == base[a] && nodes[b] == base[b];
    ExtendWellFormed(base, nodes);
    assert Fresh(base, 2) == [n, n + 1];
    RunTwo(nodes, g, n, n + 1);
    DivSteps(nodes, g, n, a, b, base[a].data, base[b].data);
  }

  /** The three rules of `c / v`, last node first, in an arena where the
      appended nodes sit at `n`, `n + 1`, `n + 2`. */
  lemma RDivSteps(nodes: seq<Node>, g: seq<real>, n: Handle, v: Handle, c: real)
    requires WellFormed(nodes) && |g| == |nodes| && n + 2 < |nodes| && v < n
    requires nodes[v].data != 0.0 && nodes[n] == Node(IntPow(nodes[v].data, -1), PowOp(v, -1))
    requires nodes[n + 1] == Node(c, Leaf) && nodes[n + 2].op == MulOp(n, n + 1)
    requires g[n] == 0.0
    ensures var g3 := LocalBackward(nodes, LocalBackward(nodes, LocalBackward(nodes, g, n + 2), n + 1), n);
      var x := nodes[v].data;
      g3[v] == g[v] - Quotient(Product(c, g[n + 2]), Product(x, x))
  {
    var x, d := nodes[v].data, g[n + 2];
    var g1 := LocalBackward(nodes, g, n + 2);
    MulRule(nodes, g, n + 2, v);
    LeafBackwardIsNoOp(nodes, g1, n + 1);
    PowRule(nodes, g1, n, v);
    ReciprocalSquare(x);
    QuotientArith(c, x, d);
    assert g1[n] == c * d;
  }

  /** Backward through `c / v`: `v` receives minus `c` times the output's
      gradient over `v` squared. */
  lemma RDivGradient(base: seq<Node>, g: seq<real>, v: Handle, c: real)
    requires WellFormed(base) && v < |base| && base[v].data != 0.0
    requires |g| == |base| + 3 && g[|base|] == 0.0
    ensures WellFormed(RDivNodes(base, v, c)) && AllDefined(RDivNodes(base, v, c), Fresh(base, 3))
    ensures var g', x := ApplyInReverse(RDivNodes(base, v, c), g, Fresh(base, 3)), base[v].data;
      g'[v] == g[v] - Quotient(Product(c, g[|base| + 2]), Product(x, x))
  {
    var nodes, n := RDivNodes(base, v, c), |base|;
    assert nodes[n] == Node(IntPow(nodes[v].data, -1), PowOp(v, -1)) && nodes[n + 1] == Node(c, Leaf);
    assert nodes[n + 2].op == MulOp(n, n + 1) && nodes[v] == base[v];
    ExtendWellFormed(base, nodes);
    assert Fresh(base, 3) == [n, n + 1, n + 2];
    RunThree(nodes, g, n, n + 1, n + 2);
    RDivSteps(nodes, g, n, v, c);
  }
}
