/** The local backward rules of the node kinds and their composition in
    reverse topological order. Gradients are a sequence indexed by handle. */
module Gradients {
  import opened Values
  import opened Topo

  /** Whether a node's local rule can run: `self.data ** (p - 1)` raises
      ZeroDivisionError when the base is zero and `p - 1` is negative. */
  predicate RuleDefined(nodes: seq<Node>, w: Handle): (ok: bool)
    requires WellFormed(nodes) && w < |nodes|
    ensures !nodes[w].op.PowOp? ==> ok
    ensures nodes[w].op.PowOp? && nodes[w].op.p >= 1 ==> ok
    ensures !ok ==> nodes[w].op.PowOp? && nodes[nodes[w].op.a].data == 0.0
  {
    match nodes[w].op
    case PowOp(a, p) => p >= 1 || nodes[a].data != 0.0
    case _ => true
  }

  /** In an arena whose values are what their operations compute, a rule
      fails only for `x ** 0` with `x` zero: the forward pass has already
      refused every other negative power of zero, while `0 ** 0` is 1 and
      its rule computes `0 * 0 ** -1`. */
  lemma FailsOnlyAtZeroPower(nodes: seq<Node>, exp: real -> real, w: Handle)
    requires WellFormed(nodes) && PositiveExp(exp) && Consistent(nodes, exp) && w < |nodes|
    ensures !RuleDefined(nodes, w) <==>
      nodes[w].op.PowOp? && nodes[w].op.p == 0 && nodes[nodes[w].op.a].data == 0.0
  {
    assert Computes(nodes, exp, nodes[w]);
  }

  /** Every handle in `s` names a node whose local rule can run. */
  ghost predicate AllDefined(nodes: seq<Node>, s: seq<Handle>)
    requires WellFormed(nodes)
  {
    forall k :: 0 <= k < |s| ==> s[k] < |nodes| && RuleDefined(nodes, s[k])
  }

  /** The partial derivative of node `w`'s value with respect to node `u`'s
      value, taking `w`'s operation as a function of its operands only.
      An operand that occurs twice (as in `x * x`) is counted twice. */
  function LocalDerivative(nodes: seq<Node>, w: Handle, u: Handle): (d: real)
    requires WellFormed(nodes) && w < |nodes| && RuleDefined(nodes, w)
    ensures u !in Operands(nodes[w].op) ==> d == 0.0
  {
    match nodes[w].op
    case Leaf => 0.0
    case AddOp(a, b) => (if a == u then 1.0 else 0.0) + (if b == u then 1.0 else 0.0)
    case MulOp(a, b) => (if a == u then nodes[b].data else 0.0) + (if b == u then nodes[a].data else 0.0)
    case PowOp(a, p) => if a == u then p as real * IntPow(nodes[a].data, p - 1) else 0.0
    case ExpOp(a) => if a == u then nodes[w].data else 0.0
    case TanhOp(a, t) => if a == u then 1.0 - t * t else 0.0
  }

  /** What node `w`'s rule adds to node `u`'s gradient when `w`'s gradient is `gw`. */
  function Contribution(nodes: seq<Node>, w: Handle, u: Handle, gw: real): real
    requires WellFormed(nodes) && w < |nodes| && RuleDefined(nodes, w)
  {
    LocalDerivative(nodes, w, u) * gw
  }

  /** `g[i] += x`. */
  function Increment(g: seq<real>, i: nat, x: real): (g': seq<real>)
    requires i < |g|
    ensures |g'| == |g| && g'[i] == g[i] + x
    ensures forall j :: 0 <= j < |g| && j != i ==> g'[j] == g[j]
  {
    g[i := g[i] + x]
  }

  /** The closure of `out = self + other` at handle `w`: both `+=` updates,
      in order; an operand used twice receives both. */
  function AddBackward(nodes: seq<Node>, g: seq<real>, w: Handle): (g': seq<real>)
    requires WellFormed(nodes) && |g| == |nodes| && w < |nodes| && nodes[w].op.AddOp?
    ensures |g'| == |g|
    ensures forall u :: 0 <= u < |g| ==> g'[u] == g[u] + Contribution(nodes, w, u, g[w])
  {
    assert OperandsBelow(nodes[w].op, w);
    var a, b := nodes[w].op.a, nodes[w].op.b;
    var g1 := Increment(g, a, 1.0 * g[w]);
    Increment(g1, b, 1.0 * g1[w])
  }

  /** The closure of `out = self * other` at handle `w`. */
  function MulBackward(nodes: seq<Node>, g: seq<real>, w: Handle): (g': seq<real>)
    requires WellFormed(nodes) && |g| == |nodes| && w < |nodes| && nodes[w].op.MulOp?
    ensures |g'| == |g|
    ensures forall u :: 0 <= u < |g| ==> g'[u] == g[u] + Contribution(nodes, w, u, g[w])
  {
    assert OperandsBelow(nodes[w].op, w);
    var a, b := nodes[w].op.a, nodes[w].op.b;
    var g1 := Increment(g, a, nodes[b].data * g[w]);
    Increment(g1, b, nodes[a].data * g1[w])
  }

  /** The closure of a one-operand node `w` (power, exp or tanh): one `+=`
      of the local derivative times `w`'s gradient. */
  function UnaryBackward(nodes: seq<Node>, g: seq<real>, w: Handle): (g': seq<real>)
    requires WellFormed(nodes) && |g| == |nodes| && w < |nodes| && RuleDefined(nodes, w)
    requires nodes[w].op.PowOp? || nodes[w].op.ExpOp? || nodes[w].op.TanhOp?
    ensures |g'| == |g|
    ensures forall u :: 0 <= u < |g| ==> g'[u] == g[u] + Contribution(nodes, w, u, g[w])
  {
    assert OperandsBelow(nodes[w].op, w);
    match nodes[w].op
    case PowOp(a, p) => Increment(g, a, (p as real * IntPow(nodes[a].data, p - 1)) * g[w])
    case ExpOp(a) => Increment(g, a, nodes[w].data * g[w])
    case TanhOp(a, t) => Increment(g, a, (1.0 - t * t) * g[w])
  }

  /** The local backward closure of node `w`, with its `+=` updates done in
      the source's order. Each node's gradient grows by exactly the local
      derivative times `w`'s gradient: both contributions when an operand
      is used twice, nothing for a node that is not an operand. */
  function LocalBackward(nodes: seq<Node>, g: seq<real>, w: Handle): (g': seq<real>)
    requires WellFormed(nodes) && |g| == |nodes| && w < |nodes| && RuleDefined(nodes, w)
    ensures |g'| == |g|
    ensures forall u :: 0 <= u < |g| ==> g'[u] == g[u] + Contribution(nodes, w, u, g[w])
  {
    match nodes[w].op
    case Leaf => g
    case AddOp(_, _) => AddBackward(nodes, g, w)
    case MulOp(_, _) => MulBackward(nodes, g, w)
    case _ => UnaryBackward(nodes, g, w)
  }

  /** The rule of `a + b` adds `out.grad` to both operands (twice to `a`
      when `a` is `b`) and leaves every other gradient alone. */
  lemma AddRule(nodes: seq<Node>, g: seq<real>, w: Handle, u: Handle)
    requires WellFormed(nodes) && |g| == |nodes| && w < |nodes| && nodes[w].op.AddOp? && u < |g|
    ensures var a, b, g' := nodes[w].op.a, nodes[w].op.b, LocalBackward(nodes, g, w);
      && (a != b ==> g'[a] == g[a] + g[w] && g'[b] == g[b] + g[w])
      && (a == b ==> g'[a] == g[a] + 2.0 * g[w])
      && (u != a && u != b ==> g'[u] == g[u])
  {
  }

  /** The rule of `a * b` adds `b.data * out.grad` to `a` and
      `a.data * out.grad` to `b` (both to `a` when `a` is `b`). */
  lemma MulRule(nodes: seq<Node>, g: seq<real>, w: Handle, u: Handle)
    requires WellFormed(nodes) && |g| == |nodes| && w < |nodes| && nodes[w].op.MulOp? && u < |g|
    ensures var a, b, g' := nodes[w].op.a, nodes[w].op.b, LocalBackward(nodes, g, w);
      && (a != b ==> g'[a] == g[a] + nodes[b].data * g[w] && g'[b] == g[b] + nodes[a].data * g[w])
      && (a == b ==> g'[a] == g[a] + 2.0 * nodes[a].data * g[w])
      && (u != a && u != b ==> g'[u] == g[u])
  {
  }

  /** The rule of `a ** p` adds `p * a.data ** (p - 1) * out.grad` to `a`. */
  lemma PowRule(nodes: seq<Node>, g: seq<real>, w: Handle, u: Handle)
    requires WellFormed(nodes) && |g| == |nodes| && w < |nodes| && nodes[w].op.PowOp? && u < |g|
    requires RuleDefined(nodes, w)
    ensures var a, p, g' := nodes[w].op.a, nodes[w].op.p, LocalBackward(nodes, g, w);
      && g'[a] == g[a] + p as real * IntPow(nodes[a].data, p - 1) * g[w]
      && (u != a ==> g'[u] == g[u])
  {
  }

  /** The rule of `a.exp()` adds `out.data * out.grad` to `a`; that of
      `a.tanh()` adds `(1 - t*t) * out.grad` for the captured `t`. */
  lemma UnaryRules(nodes: seq<Node>, g: seq<real>, w: Handle, u: Handle)
    requires WellFormed(nodes) && |g| == |nodes| && w < |nodes| && u < |g|
    requires nodes[w].op.ExpOp? || nodes[w].op.TanhOp?
    ensures var a, g' := nodes[w].op.a, LocalBackward(nodes, g, w);
      && (nodes[w].op.ExpOp? ==> g'[a] == g[a] + nodes[w].data * g[w])
      && (nodes[w].op.TanhOp? ==> g'[a] == g[a] + (1.0 - nodes[w].op.t * nodes[w].op.t) * g[w])
      && (u != a ==> g'[u] == g[u])
  {
  }

  /** A leaf's backward is a no-op. */
  lemma LeafBackwardIsNoOp(nodes: seq<Node>, g: seq<real>, w: Handle)
    requires WellFormed(nodes) && |g| == |nodes| && w < |nodes| && nodes[w].op.Leaf?
    ensures LocalBackward(nodes, g, w) == g
  {
  }

  /** `for node in reversed(order): node._backward()`: the rule of the last
      entry runs first, the rule of `order[0]` last. */
  function ApplyInReverse(nodes: seq<Node>, g: seq<real>, order: seq<Handle>): (g': seq<real>)
    requires WellFormed(nodes) && |g| == |nodes| && AllDefined(nodes, order)
    ensures |g'| == |g|
    decreases |order|
  {
    if order == [] then g
    else LocalBackward(nodes, ApplyInReverse(nodes, g, order[1..]), order[0])
  }

  /** Running the rules of `s + t` in reverse is running those of `t`, then those of `s`. */
  lemma {:induction false} ApplyInReverseSplit(nodes: seq<Node>, g: seq<real>, s: seq<Handle>, t: seq<Handle>)
    requires WellFormed(nodes) && |g| == |nodes| && AllDefined(nodes, s) && AllDefined(nodes, t)
    ensures AllDefined(nodes, s + t)
    ensures ApplyInReverse(nodes, g, s + t) == ApplyInReverse(nodes, ApplyInReverse(nodes, g, t), s)
    decreases |s|
  {
    if s != [] {
      assert (s + t)[1..] == s[1..] + t;
      assert (s + t)[0] == s[0];
      ApplyInReverseSplit(nodes, g, s[1..], t);
    } else {
      assert s + t == t;
    }
  }

  /** A node that is no operand of any entry of `order` keeps its gradient. */
  lemma {:induction false} ApplyInReverseFrame(nodes: seq<Node>, g: seq<real>, order: seq<Handle>, u: Handle)
    requires WellFormed(nodes) && |g| == |nodes| && AllDefined(nodes, order) && u < |g|
    requires forall k :: 0 <= k < |order| ==> u !in Operands(nodes[order[k]].op)
    ensures ApplyInReverse(nodes, g, order)[u] == g[u]
    decreases |order|
  {
    if order != [] {
      ApplyInReverseFrame(nodes, g, order[1..], u);
    }
  }

  /** A node's own rule does not change its own gradient: its operands are
      older than it. */
  lemma OwnRuleKeeps(nodes: seq<Node>, g: seq<real>, v: Handle, rest: seq<Handle>)
    requires WellFormed(nodes) && |g| == |nodes| && v < |nodes| && RuleDefined(nodes, v)
    requires AllDefined(nodes, rest)
    ensures AllDefined(nodes, [v] + rest)
    ensures ApplyInReverse(nodes, g, [v] + rest)[v] == ApplyInReverse(nodes, g, rest)[v]
  {
    assert AllDefined(nodes, [v] + rest);
    assert ([v] + rest)[1..] == rest;
    assert OperandsBelow(nodes[v].op, v);
  }

  /** A node's own rule and the rules listed before it, none of which has it
      as an operand, leave its gradient as it was before its rule ran. */
  lemma SettledAfterOwnRule(nodes: seq<Node>, g: seq<real>, before: seq<Handle>, v: Handle, rest: seq<Handle>)
    requires WellFormed(nodes) && |g| == |nodes| && v < |nodes| && RuleDefined(nodes, v)
    requires AllDefined(nodes, before) && AllDefined(nodes, rest)
    requires forall i :: 0 <= i < |before| ==> v !in Operands(nodes[before[i]].op)
    ensures AllDefined(nodes, before + ([v] + rest))
    ensures ApplyInReverse(nodes, g, before + ([v] + rest))[v] == ApplyInReverse(nodes, g, rest)[v]
  {
    OwnRuleKeeps(nodes, g, v, rest);
    ApplyInReverseSplit(nodes, g, before, [v] + rest);
    ApplyInReverseFrame(nodes, ApplyInReverse(nodes, g, [v] + rest), before, v);
  }

  /** `topo` around its entry `k`: the entries before it, which do not
      consume it, and the entries after it, all with rules that can run. */
  lemma SplitAround(nodes: seq<Node>, topo: seq<Handle>, k: nat)
    requires WellFormed(nodes) && AllDefined(nodes, topo) && k < |topo|
    requires forall i :: 0 <= i < k ==> topo[k] !in Operands(nodes[topo[i]].op)
    ensures topo == topo[..k] + ([topo[k]] + topo[k+1..])
    ensures AllDefined(nodes, topo[..k]) && AllDefined(nodes, topo[k+1..])
    ensures forall i :: 0 <= i < k ==> topo[k] !in Operands(nodes[topo[..k][i]].op)
  {
    assert topo == topo[..k] + ([topo[k]] + topo[k+1..]);
  }

  /** A node that no earlier entry of `topo` consumes has, once its own rule
      runs, the gradient it ends with. */
  lemma SettledAt(nodes: seq<Node>, g: seq<real>, topo: seq<Handle>, k: nat)
    requires WellFormed(nodes) && |g| == |nodes| && AllDefined(nodes, topo) && k < |topo|
    requires forall i :: 0 <= i < k ==> topo[k] !in Operands(nodes[topo[i]].op)
    ensures ApplyInReverse(nodes, g, topo[k+1..])[topo[k]] == ApplyInReverse(nodes, g, topo)[topo[k]]
  {
    SplitAround(nodes, topo, k);
    SettledAfterOwnRule(nodes, g, topo[..k], topo[k], topo[k+1..]);
  }

  /** Consumers run first: when the rule of `topo[k]` runs, every rule that
      could still add to `topo[k]`'s gradient has already run, so the gradient
      it propagates is already the final one. */
  lemma GradientSettled(nodes: seq<Node>, g: seq<real>, topo: seq<Handle>, k: nat)
    requires WellFormed(nodes) && |g| == |nodes| && NoLaterOperand(nodes, topo) && AllDefined(nodes, topo)
    requires k < |topo|
    ensures ApplyInReverse(nodes, g, topo[k+1..])[topo[k]] == ApplyInReverse(nodes, g, topo)[topo[k]]
  {
    SettledAt(nodes, g, topo, k);
  }

  /** The sum, over the entries `w` of `s`, of the local derivative of `w`
      with respect to `u` times `w`'s gradient in `f`. */
  function Accumulated(nodes: seq<Node>, f: seq<real>, s: seq<Handle>, u: Handle): real
    requires WellFormed(nodes) && |f| == |nodes| && AllDefined(nodes, s)
    decreases |s|
  {
    if s == [] then 0.0
    else Contribution(nodes, s[0], u, f[s[0]]) + Accumulated(nodes, f, s[1..], u)
  }

  lemma {:induction false} AdjointSuffix(nodes: seq<Node>, g: seq<real>, topo: seq<Handle>, k: nat, u: Handle)
    requires WellFormed(nodes) && |g| == |nodes| && NoLaterOperand(nodes, topo) && AllDefined(nodes, topo)
    requires k <= |topo| && u < |g|
    ensures ApplyInReverse(nodes, g, topo[k..])[u]
         == g[u] + Accumulated(nodes, ApplyInReverse(nodes, g, topo), topo[k..], u)
    decreases |topo| - k
  {
    var f := ApplyInReverse(nodes, g, topo);
    if k < |topo| {
      var s, w := topo[k..], topo[k];
      assert s[0] == w && s[1..] == topo[k+1..];
      assert AllDefined(nodes, topo[k+1..]);
      var pre := ApplyInReverse(nodes, g, topo[k+1..]);
      assert ApplyInReverse(nodes, g, s) == LocalBackward(nodes, pre, w);
      AdjointSuffix(nodes, g, topo, k + 1, u);
      GradientSettled(nodes, g, topo, k);
      assert Accumulated(nodes, f, s, u)
          == Contribution(nodes, w, u, f[w]) + Accumulated(nodes, f, topo[k+1..], u);
    } else {
      assert topo[k..] == [];
    }
  }

  /** The chain rule as reverse mode accumulates it: after the rules of a
      topological order have run, a node's gradient is its starting gradient
      plus, for every consumer `w` in the order, the local derivative of `w`
      with respect to it times `w`'s final gradient. */
  lemma Adjoint(nodes: seq<Node>, g: seq<real>, topo: seq<Handle>, u: Handle)
    requires WellFormed(nodes) && |g| == |nodes| && NoLaterOperand(nodes, topo) && AllDefined(nodes, topo)
    requires u < |g|
    ensures ApplyInReverse(nodes, g, topo)[u]
         == g[u] + Accumulated(nodes, ApplyInReverse(nodes, g, topo), topo, u)
  {
    AdjointSuffix(nodes, g, topo, 0, u);
    assert topo[0..] == topo;
  }

  /** A node with no consumer in `s` accumulates nothing. */
  lemma {:induction false} NoConsumer(nodes: seq<Node>, f: seq<real>, s: seq<Handle>, u: Handle)
    requires WellFormed(nodes) && |f| == |nodes| && AllDefined(nodes, s)
    requires forall k :: 0 <= k < |s| ==> u !in Operands(nodes[s[k]].op)
    ensures Accumulated(nodes, f, s, u) == 0.0
    decreases |s|
  {
    if s != [] {
      NoConsumer(nodes, f, s[1..], u);
    }
  }

  /** A node whose only consumer in `s` is `w`, listed once, accumulates
      exactly `w`'s contribution. */
  lemma {:induction false} SoleConsumer(nodes: seq<Node>, f: seq<real>, s: seq<Handle>, u: Handle, w: Handle)
    requires WellFormed(nodes) && |f| == |nodes| && AllDefined(nodes, s)
    requires Distinct(s) && w in s
    requires forall k :: 0 <= k < |s| && s[k] != w ==> u !in Operands(nodes[s[k]].op)
    ensures w < |nodes| && RuleDefined(nodes, w)
    ensures Accumulated(nodes, f, s, u) == Contribution(nodes, w, u, f[w])
    decreases |s|
  {
    if s[0] == w {
      assert forall k :: 0 <= k < |s[1..]| ==> s[1..][k] != w by {
        forall k | 0 <= k < |s[1..]| ensures s[1..][k] != w {
          assert s[1..][k] == s[k + 1];
        }
      }
      NoConsumer(nodes, f, s[1..], u);
    } else {
      SoleConsumer(nodes, f, s[1..], u, w);
    }
  }
}
