/** The worked example of the module's entry point: one neuron
    `o = tanh(x1*w1 + x2*w2 + b)` and `o.backward()`. */
module Example {
  import opened Values
  import opened Topo
  import opened Gradients
  import opened Engine

  /** The bias of the example. */
  const Bias: real := 6.88137358701954

  /** The arena after the forward pass, for a tanh value `t`: the five inputs
      x1, x2, w1, w2, b, then x1*w1, x2*w2, their sum, n and o. */
  function Neuron(t: real): (nodes: seq<Node>)
    ensures |nodes| == 10
  {
    [Node(2.0, Leaf), Node(0.0, Leaf), Node(-3.0, Leaf), Node(1.0, Leaf), Node(Bias, Leaf),
     Node(-6.0, MulOp(0, 2)), Node(0.0, MulOp(1, 3)), Node(-6.0, AddOp(5, 6)),
     Node(Bias - 6.0, AddOp(7, 4)), Node(t, TanhOp(8, t))]
  }

  /** The node that consumes `u` in the neuron. */
  function ConsumerOf(u: Handle): Handle
    requires u < 9
  {
    if u == 0 || u == 2 then 5
    else if u == 1 || u == 3 then 6
    else if u == 5 || u == 6 then 7
    else if u == 7 || u == 4 then 8
    else 9
  }

  /** Every node of the neuron but o has exactly one consumer, o has none,
      and no node is a power. */
  lemma NeuronShape(t: real, x: Handle, u: Handle)
    requires x < 10
    ensures OperandsBelow(Neuron(t)[x].op, x)
    ensures !Neuron(t)[x].op.PowOp?
    ensures u in Operands(Neuron(t)[x].op) <==> u < 9 && x == ConsumerOf(u)
  {
    var n := Neuron(t);
    if x == 0 { assert n[0].op == Leaf; }
    else if x == 1 { assert n[1].op == Leaf; }
    else if x == 2 { assert n[2].op == Leaf; }
    else if x == 3 { assert n[3].op == Leaf; }
    else if x == 4 { assert n[4].op == Leaf; }
    else if x == 5 { assert n[5].op == MulOp(0, 2); }
    else if x == 6 { assert n[6].op == MulOp(1, 3); }
    else if x == 7 { assert n[7].op == AddOp(5, 6); }
    else if x == 8 { assert n[8].op == AddOp(7, 4); }
    else { assert n[9].op == TanhOp(8, t); }
  }

  lemma NeuronWellFormed(t: real)
    ensures WellFormed(Neuron(t))
  {
    forall v | 0 <= v < 10 ensures OperandsBelow(Neuron(t)[v].op, v) {
      NeuronShape(t, v, 0);
    }
  }

  /** The setting of the gradient lemmas below: `topo` is an order the
      traversal from o can build; all rules of the neuron are defined. */
  lemma NeuronOrder(t: real, topo: seq<Handle>)
    requires IsTopoPrefix(Neuron(t), topo)
    ensures WellFormed(Neuron(t)) && AllDefined(Neuron(t), topo)
  {
    NeuronWellFormed(t);
    forall k | 0 <= k < |topo| ensures topo[k] < 10 && RuleDefined(Neuron(t), topo[k]) {
      NeuronShape(t, topo[k], 0);
    }
  }

  /** With o's gradient seeded to 1 and all others 0, the gradient of a node
      of the neuron is what its only consumer passes back; o's stays 1. */
  lemma NeuronAdjoint(t: real, topo: seq<Handle>, u: Handle)
    requires IsTopoPrefix(Neuron(t), topo) && u < 10
    requires u < 9 ==> ConsumerOf(u) in Elems(topo)
    ensures WellFormed(Neuron(t)) && AllDefined(Neuron(t), topo)
    ensures var g := ApplyInReverse(Neuron(t), Zeros(10)[9 := 1.0], topo);
      if u < 9 then g[u] == LocalDerivative(Neuron(t), ConsumerOf(u), u) * g[ConsumerOf(u)]
      else g[u] == 1.0
  {
    NeuronOrder(t, topo);
    var nodes, g0 := Neuron(t), Zeros(10)[9 := 1.0];
    var g := ApplyInReverse(nodes, g0, topo);
    Adjoint(nodes, g0, topo, u);
    if u < 9 {
      var w := ConsumerOf(u);
      forall k | 0 <= k < |topo| && topo[k] != w ensures u !in Operands(nodes[topo[k]].op) {
        NeuronShape(t, topo[k], u);
      }
      SoleConsumer(nodes, g, topo, u, w);
    } else {
      forall k | 0 <= k < |topo| ensures u !in Operands(nodes[topo[k]].op) {
        NeuronShape(t, topo[k], u);
      }
      NoConsumer(nodes, g, topo, u);
    }
  }

  /** The local derivatives along the neuron's edges. */
  lemma NeuronDerivatives(t: real)
    ensures WellFormed(Neuron(t))
    ensures LocalDerivative(Neuron(t), 9, 8) == 1.0 - t * t
    ensures LocalDerivative(Neuron(t), 8, 7) == 1.0 && LocalDerivative(Neuron(t), 8, 4) == 1.0
    ensures LocalDerivative(Neuron(t), 7, 5) == 1.0 && LocalDerivative(Neuron(t), 7, 6) == 1.0
    ensures LocalDerivative(Neuron(t), 5, 0) == -3.0 && LocalDerivative(Neuron(t), 5, 2) == 2.0
    ensures LocalDerivative(Neuron(t), 6, 1) == 1.0 && LocalDerivative(Neuron(t), 6, 3) == 0.0
  {
    NeuronWellFormed(t);
  }

  /** `o` keeps its seed and `n` receives the tanh rule's factor. */
  lemma NeuronTop(t: real, topo: seq<Handle>)
    requires IsTopoPrefix(Neuron(t), topo) && 9 in Elems(topo)
    ensures WellFormed(Neuron(t)) && AllDefined(Neuron(t), topo)
    ensures var g := ApplyInReverse(Neuron(t), Zeros(10)[9 := 1.0], topo);
      g[9] == 1.0 && g[8] == 1.0 - t * t
  {
    NeuronOrder(t, topo);
    NeuronAdjoint(t, topo, 9);
    NeuronAdjoint(t, topo, 8);
    NeuronDerivatives(t);
  }

  /** The second addition passes `n`'s gradient to both its operands. */
  lemma NeuronUpper(t: real, topo: seq<Handle>)
    requires IsTopoPrefix(Neuron(t), topo) && 9 in Elems(topo)
    ensures WellFormed(Neuron(t)) && AllDefined(Neuron(t), topo)
    ensures var g := ApplyInReverse(Neuron(t), Zeros(10)[9 := 1.0], topo);
      g[7] == g[8] && g[4] == g[8]
  {
    NeuronOrder(t, topo);
    OperandListed(Neuron(t), topo, 9, 8);
    NeuronAdjoint(t, topo, 7);
    NeuronAdjoint(t, topo, 4);
    NeuronDerivatives(t);
  }

  /** The first addition passes its gradient to both products. */
  lemma NeuronMiddle(t: real, topo: seq<Handle>)
    requires IsTopoPrefix(Neuron(t), topo) && 9 in Elems(topo)
    ensures WellFormed(Neuron(t)) && AllDefined(Neuron(t), topo)
    ensures var g := ApplyInReverse(Neuron(t), Zeros(10)[9 := 1.0], topo);
      g[5] == g[7] && g[6] == g[7]
  {
    NeuronOrder(t, topo);
    OperandListed(Neuron(t), topo, 9, 8);
    OperandListed(Neuron(t), topo, 8, 7);
    NeuronAdjoint(t, topo, 5);
    NeuronAdjoint(t, topo, 6);
    NeuronDerivatives(t);
  }

  /** Each input receives the other factor's value times its product's
      gradient. */
  lemma NeuronLower(t: real, topo: seq<Handle>)
    requires IsTopoPrefix(Neuron(t), topo) && 9 in Elems(topo)
    ensures WellFormed(Neuron(t)) && AllDefined(Neuron(t), topo)
    ensures var g := ApplyInReverse(Neuron(t), Zeros(10)[9 := 1.0], topo);
      g[0] == -3.0 * g[5] && g[2] == 2.0 * g[5] && g[1] == g[6] && g[3] == 0.0
  {
    NeuronOrder(t, topo);
    OperandListed(Neuron(t), topo, 9, 8);
    OperandListed(Neuron(t), topo, 8, 7);
    OperandListed(Neuron(t), topo, 7, 5);
    OperandListed(Neuron(t), topo, 7, 6);
    NeuronAdjoint(t, topo, 0);
    NeuronAdjoint(t, topo, 2);
    NeuronAdjoint(t, topo, 1);
    NeuronAdjoint(t, topo, 3);
    NeuronDerivatives(t);
  }

  /** After `o.backward()` over any order the traversal may build, the
      gradients are those of the chain rule: o.grad is 1, n.grad is
      1 - t*t, and each input's gradient is the other factor's value times
      its product's gradient (w2's is 0 because x2 is 0). */
  lemma NeuronGradients(t: real, topo: seq<Handle>)
    requires IsTopoPrefix(Neuron(t), topo) && 9 in Elems(topo)
    ensures WellFormed(Neuron(t)) && AllDefined(Neuron(t), topo)
    ensures var g := ApplyInReverse(Neuron(t), Zeros(10)[9 := 1.0], topo);
      && g[9] == 1.0 && g[8] == 1.0 - t * t
      && g[7] == g[8] && g[4] == g[8] && g[5] == g[8] && g[6] == g[8]
      && g[0] == -3.0 * g[8] && g[2] == 2.0 * g[8]
      && g[1] == g[8] && g[3] == 0.0
  {
    NeuronTop(t, topo);
    NeuronUpper(t, topo);
    NeuronMiddle(t, topo);
    NeuronLower(t, topo);
  }

  /** The script's five inputs x1, x2, w1, w2 and b, in a new graph. */
  method BuildInputs(exp: real -> real) returns (g: Graph, x1: Handle, x2: Handle, w1: Handle, w2: Handle, b: Handle)
    requires PositiveExp(exp)
    ensures fresh(g) && g.Valid() && g.exp == exp
    ensures x1 == 0 && x2 == 1 && w1 == 2 && w2 == 3 && b == 4
    ensures g.nodes == Neuron(TanhOf(exp, Bias - 6.0))[..5] && g.grad == Zeros(5)
  {
    g := new Graph(exp);
    x1 := g.NewValue(2.0);
    x2 := g.NewValue(0.0);
    w1 := g.NewValue(-3.0);
    w2 := g.NewValue(1.0);
    b := g.NewValue(Bias);
    assert g.nodes == [Node(2.0, Leaf), Node(0.0, Leaf), Node(-3.0, Leaf), Node(1.0, Leaf), Node(Bias, Leaf)];
    assert g.grad == Zeros(5);
  }

  /** The forward pass of the entry point's script, through the operators:
      the arena it leaves is the neuron's, with every gradient 0. */
  method BuildNeuron(exp: real -> real) returns (g: Graph, o: Handle)
    requires PositiveExp(exp)
    ensures fresh(g) && g.Valid() && g.exp == exp && o == 9
    ensures g.nodes == Neuron(TanhOf(exp, Bias - 6.0)) && g.grad == Zeros(10)
  {
    var x1, x2, w1, w2, b;
    g, x1, x2, w1, w2, b := BuildInputs(exp);
    ghost var nodes, grad := g.nodes, g.grad;
    var x1w1 := g.Mul(x1, Ref(w1));
    assert g.nodes == nodes + [Node(-6.0, MulOp(0, 2))];
    var x2w2 := g.Mul(x2, Ref(w2));
    assert g.nodes == nodes + [Node(-6.0, MulOp(0, 2)), Node(0.0, MulOp(1, 3))];
    var x1w1x2w2 := g.Add(x1w1, Ref(x2w2));
    var n := g.Add(x1w1x2w2, Ref(b));
    assert g.nodes == nodes + [Node(-6.0, MulOp(0, 2)), Node(0.0, MulOp(1, 3)), Node(-6.0, AddOp(5, 6)),
      Node(Bias - 6.0, AddOp(7, 4))];
    o := g.Tanh(n);
    assert g.nodes == nodes + [Node(-6.0, MulOp(0, 2)), Node(0.0, MulOp(1, 3)), Node(-6.0, AddOp(5, 6)),
      Node(Bias - 6.0, AddOp(7, 4)), Node(TanhOf(exp, Bias - 6.0), TanhOp(8, TanhOf(exp, Bias - 6.0)))];
    assert g.grad == grad + [0.0, 0.0, 0.0, 0.0, 0.0];
  }

  /** The entry point's script: build the neuron through the operators,
      then `o.backward()`. `t` is o's value, `grads` the ten `grad` fields in
      creation order (x1, x2, w1, w2, b, x1*w1, x2*w2, their sum, n, o). The
      bias makes n the inverse hyperbolic tangent of the square root of 1/2,
      so when t*t is 1/2 the gradients are the ones the example is known for. */
  method WorkedExample(exp: real -> real) returns (ok: bool, t: real, grads: seq<real>)
    requires PositiveExp(exp)
    ensures ok && t == TanhOf(exp, Bias - 6.0) && |grads| == 10
    ensures grads[9] == 1.0 && grads[8] == 1.0 - t * t
    ensures grads[7] == grads[8] && grads[4] == grads[8] && grads[5] == grads[8] && grads[6] == grads[8]
    ensures grads[0] == -3.0 * grads[8] && grads[2] == 2.0 * grads[8]
    ensures grads[1] == grads[8] && grads[3] == 0.0
    ensures t * t == 0.5 ==> grads[0] == -1.5 && grads[1] == 0.5 && grads[2] == 1.0 && grads[3] == 0.0
  {
    var g, o := BuildNeuron(exp);
    t := g.nodes[o].data;
    assert g.nodes == Neuron(t);
    ghost var topo;
    ok, topo := g.Backward(o);
    grads := g.grad;
    NeuronGradients(t, topo);
  }
}
