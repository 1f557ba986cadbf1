/** The `Value` class: operators that append nodes to the arena, and
    `backward`, which seeds the root's gradient and runs the local rules of
    the reachable nodes in reverse topological order. */
module Engine {
  import opened Values
  import opened Topo
  import opened Gradients
  import opened Composite

  /** `n` gradients of 0.0, as fresh nodes get them. */
  function Zeros(n: nat): (z: seq<real>)
    ensures |z| == n && forall i :: 0 <= i < n ==> z[i] == 0.0
  {
    seq(n, _ => 0.0)
  }

  /** The forward value of a right-hand operand. */
  function ValueOf(nodes: seq<Node>, o: Operand): real
    requires o.Ref? ==> o.h < |nodes|
  {
    match o
    case Ref(h) => nodes[h].data
    case Num(x) => x
  }

  /** The leaf that lifting appends: one for a plain number, none for a node. */
  function Lifted(o: Operand): seq<Node> {
    match o
    case Ref(_) => []
    case Num(x) => [Node(x, Leaf)]
  }

  /** The handle of an operand once it is lifted into `nodes`. */
  function HandleOf(nodes: seq<Node>, o: Operand): Handle {
    match o
    case Ref(h) => h
    case Num(_) => |nodes|
  }

  /** Two appends in a row append both elements. */
  lemma AppendTwo<T>(s: seq<T>, t: seq<T>, a: T, b: T)
    requires t == s + [a] + [b]
    ensures t == s + [a, b]
  {
  }

  /** Multiplying by `y ** -1` divides by `y`, on either side. */
  lemma TimesReciprocal(x: real, y: real)
    requires y != 0.0
    ensures Product(x, IntPow(y, -1)) == x / y && Product(IntPow(y, -1), x) == x / y
  {
    Reciprocal(y);
  }

  class Graph {
    /** Every node created so far, in creation order. */
    var nodes: seq<Node>
    /** The `grad` field of every node. */
    var grad: seq<real>
    /** `math.exp`, which is not part of this model. */
    const exp: real -> real

    ghost predicate Valid()
      reads this
    {
      PositiveExp(exp) && WellFormed(nodes) && Consistent(nodes, exp) && |grad| == |nodes|
    }

    /** A node operand must be a node of this graph. */
    ghost predicate Holds(o: Operand)
      reads this
    {
      o.Ref? ==> o.h < |nodes|
    }

    constructor (exp: real -> real)
      requires PositiveExp(exp)
      ensures Valid() && this.exp == exp && nodes == [] && grad == []
    {
      this.exp := exp;
      nodes := [];
      grad := [];
    }

    /** Appends a node that computes its value from older nodes, with grad 0.0. */
    method Append(n: Node) returns (v: Handle)
      requires Valid() && OperandsBelow(n.op, |nodes|) && Computes(nodes, exp, n)
      modifies this
      ensures Valid() && v == |old(nodes)|
      ensures nodes == old(nodes) + [n] && grad == old(grad) + [0.0]
    {
      AppendConsistent(nodes, exp, n);
      nodes := nodes + [n];
      grad := grad + [0.0];
      v := |nodes| - 1;
    }

    /** `Value(x)`: a fresh leaf whose gradient is 0.0 and whose rule is a no-op. */
    method NewValue(x: real) returns (v: Handle)
      requires Valid()
      modifies this
      ensures Valid() && v == |old(nodes)|
      ensures nodes == old(nodes) + [Node(x, Leaf)] && grad == old(grad) + [0.0]
    {
      v := Append(Node(x, Leaf));
    }

    /** `other if isinstance(other, Value) else Value(other)`. */
    method Lift(o: Operand) returns (h: Handle)
      requires Valid() && Holds(o)
      modifies this
      ensures Valid() && h == HandleOf(old(nodes), o) && h < |nodes|
      ensures nodes == old(nodes) + Lifted(o) && grad == old(grad) + Zeros(|Lifted(o)|)
      ensures nodes[h].data == ValueOf(old(nodes), o)
    {
      match o
      case Ref(r) => h := r;
      case Num(x) => h := NewValue(x);
    }

    /** `self + other`: a plain number is lifted to a fresh leaf first. */
    method Add(self: Handle, other: Operand) returns (out: Handle)
      requires Valid() && self < |nodes| && Holds(other)
      modifies this
      ensures Valid() && out == |nodes| - 1
      ensures other.Ref? ==> (nodes == old(nodes)
        + [Node(old(nodes)[self].data + old(nodes)[other.h].data, AddOp(self, other.h))]
        && grad == old(grad) + [0.0])
      ensures other.Num? ==> (nodes == old(nodes)
        + [Node(other.x, Leaf), Node(old(nodes)[self].data + other.x, AddOp(self, |old(nodes)|))]
        && grad == old(grad) + [0.0, 0.0])
      ensures nodes[out].data == old(nodes)[self].data + ValueOf(old(nodes), other)
    {
      ghost var before, g := nodes, grad;
      var o := Lift(other);
      var x, y := nodes[self].data, nodes[o].data;
      out := Append(Node(x + y, AddOp(self, o)));
      if other.Num? {
        assert Zeros(1) == [0.0];
        AppendTwo(before, nodes, Node(other.x, Leaf), Node(x + y, AddOp(self, o)));
        AppendTwo(g, grad, 0.0, 0.0);
      }
    }

    /** `self * other`: a plain number is lifted to a fresh leaf first. */
    method Mul(self: Handle, other: Operand) returns (out: Handle)
      requires Valid() && self < |nodes| && Holds(other)
      modifies this
      ensures Valid() && out == |nodes| - 1
      ensures other.Ref? ==> (nodes == old(nodes)
        + [Node(Product(old(nodes)[self].data, old(nodes)[other.h].data), MulOp(self, other.h))]
        && grad == old(grad) + [0.0])
      ensures other.Num? ==> (nodes == old(nodes)
        + [Node(other.x, Leaf), Node(Product(old(nodes)[self].data, other.x), MulOp(self, |old(nodes)|))]
        && grad == old(grad) + [0.0, 0.0])
      ensures nodes[out].data == Product(old(nodes)[self].data, ValueOf(old(nodes), other))
    {
      ghost var before, g := nodes, grad;
      var o := Lift(other);
      var x, y := nodes[self].data, nodes[o].data;
      out := Append(Node(Product(x, y), MulOp(self, o)));
      if other.Num? {
        assert Zeros(1) == [0.0];
        AppendTwo(before, nodes, Node(other.x, Leaf), Node(Product(x, y), MulOp(self, o)));
        AppendTwo(g, grad, 0.0, 0.0);
      }
    }

    /** `self ** other`: the exponent must be a plain number, and a negative
        power of zero raises before any node is created. */
    method Pow(self: Handle, other: Exponent) returns (r: Result<Handle>)
      requires Valid() && self < |nodes|
      modifies this
      ensures Valid()
      ensures other.NotNumber? ==> r == Err(ExponentNotNumber)
      ensures other.IntPower? && other.p < 0 && old(nodes)[self].data == 0.0 ==> r == Err(ZeroDivision)
      ensures r.Ok? <==> other.IntPower? && (other.p >= 0 || old(nodes)[self].data != 0.0)
      ensures r.Err? ==> nodes == old(nodes) && grad == old(grad)
      ensures r.Ok? ==> (other.IntPower? && (other.p >= 0 || old(nodes)[self].data != 0.0)
        && r.value == |old(nodes)|
        && nodes == old(nodes) + [Node(IntPow(old(nodes)[self].data, other.p), PowOp(self, other.p))]
        && grad == old(grad) + [0.0])
    {
      if other.NotNumber? {
        return Err(ExponentNotNumber);
      }
      var x, p := nodes[self].data, other.p;
      if p < 0 && x == 0.0 {
        return Err(ZeroDivision);
      }
      var out := Append(Node(IntPow(x, p), PowOp(self, p)));
      r := Ok(out);
    }

    /** `self.exp()`. */
    method Exp(self: Handle) returns (out: Handle)
      requires Valid() && self < |nodes|
      modifies this
      ensures Valid() && out == |old(nodes)|
      ensures nodes == old(nodes) + [Node(exp(old(nodes)[self].data), ExpOp(self))]
      ensures grad == old(grad) + [0.0]
    {
      out := Append(Node(exp(nodes[self].data), ExpOp(self)));
    }

    /** `self.tanh()`: t is computed from the exponential and captured by the rule. */
    method Tanh(self: Handle) returns (out: Handle)
      requires Valid() && self < |nodes|
      modifies this
      ensures Valid() && out == |old(nodes)|
      ensures nodes == old(nodes) + [Node(TanhOf(exp, old(nodes)[self].data), TanhOp(self, TanhOf(exp, old(nodes)[self].data)))]
      ensures grad == old(grad) + [0.0]
      ensures -1.0 < nodes[out].data < 1.0
    {
      var x := nodes[self].data;
      var t := (exp(2.0 * x) - 1.0) / (exp(2.0 * x) + 1.0);
      out := Append(Node(t, TanhOp(self, t)));
    }

    /** `-self`, that is `self * -1`. */
    method Neg(self: Handle) returns (out: Handle)
      requires Valid() && self < |nodes|
      modifies this
      ensures Valid() && out == |old(nodes)| + 1
      ensures nodes == NegNodes(old(nodes), self) && grad == old(grad) + [0.0, 0.0]
      ensures nodes[out].data == -old(nodes)[self].data
    {
      out := Mul(self, Num(-1.0));
    }

    /** `other + self` for a plain number `other`: Python falls back to
        `self.__radd__(other)`, which builds `self + other`. */
    method RAdd(self: Handle, other: real) returns (out: Handle)
      requires Valid() && self < |nodes|
      modifies this
      ensures Valid() && out == |old(nodes)| + 1
      ensures nodes == old(nodes) + [Node(other, Leaf), Node(old(nodes)[self].data + other, AddOp(self, |old(nodes)|))]
      ensures grad == old(grad) + [0.0, 0.0]
      ensures nodes[out].data == other + old(nodes)[self].data
    {
      out := Add(self, Num(other));
    }

    /** `other * self` for a plain number `other`: Python falls back to
        `self.__rmul__(other)`, which builds `self * other`. */
    method RMul(self: Handle, other: real) returns (out: Handle)
      requires Valid() && self < |nodes|
      modifies this
      ensures Valid() && out == |old(nodes)| + 1
      ensures nodes == old(nodes) + [Node(other, Leaf), Node(Product(old(nodes)[self].data, other), MulOp(self, |old(nodes)|))]
      ensures grad == old(grad) + [0.0, 0.0]
      ensures nodes[out].data == Product(old(nodes)[self].data, other)
    {
      out := Mul(self, Num(other));
    }

    /** `self - other`, that is `self + (-other)`: a plain number is negated
        as a number, a node through `__neg__`. */
    method Sub(self: Handle, other: Operand) returns (out: Handle)
      requires Valid() && self < |nodes| && Holds(other)
      modifies this
      ensures Valid() && out == |nodes| - 1
      ensures other.Num? ==> (nodes == old(nodes)
        + [Node(-other.x, Leaf), Node(old(nodes)[self].data + -other.x, AddOp(self, |old(nodes)|))]
        && grad == old(grad) + [0.0, 0.0])
      ensures other.Ref? ==> (nodes == SubNodes(old(nodes), self, other.h)
        && grad == old(grad) + [0.0, 0.0, 0.0])
      ensures nodes[out].data == old(nodes)[self].data - ValueOf(old(nodes), other)
    {
      match other
      case Num(c) =>
        out := Add(self, Num(-c));
      case Ref(o) =>
        var n := Neg(o);
        out := Add(self, Ref(n));
    }

    /** `other - self` for a plain number `other`: `other + (-self)`, which
        Python evaluates as `(-self).__radd__(other)`. */
    method RSub(self: Handle, other: real) returns (out: Handle)
      requires Valid() && self < |nodes|
      modifies this
      ensures Valid() && out == |old(nodes)| + 3
      ensures nodes == RSubNodes(old(nodes), self, other)
      ensures grad == old(grad) + [0.0, 0.0, 0.0, 0.0]
      ensures nodes[out].data == other - old(nodes)[self].data
    {
      var n := Neg(self);
      out := RAdd(n, other);
    }

    /** `self / other`, that is `self * other**-1`. For a plain number the
        reciprocal is taken as a number; dividing by zero raises either way,
        before any node is created. */
    method Div(self: Handle, other: Operand) returns (r: Result<Handle>)
      requires Valid() && self < |nodes| && Holds(other)
      modifies this
      ensures Valid()
      ensures r.Err? <==> ValueOf(old(nodes), other) == 0.0
      ensures r.Err? ==> r.error == ZeroDivision && nodes == old(nodes) && grad == old(grad)
      ensures r.Ok? && other.Num? ==> (nodes == old(nodes)
        + [Node(IntPow(other.x, -1), Leaf), Node(Product(old(nodes)[self].data, IntPow(other.x, -1)), MulOp(self, |old(nodes)|))])
      ensures r.Ok? && other.Ref? ==> nodes == DivNodes(old(nodes), self, other.h)
      ensures r.Ok? ==> (r.value == |old(nodes)| + 1 && grad == old(grad) + [0.0, 0.0]
        && nodes[r.value].data == old(nodes)[self].data / ValueOf(old(nodes), other))
    {
      match other
      case Num(c) =>
        if c == 0.0 {
          return Err(ZeroDivision);
        }
        var out := Mul(self, Num(IntPow(c, -1)));
        TimesReciprocal(old(nodes)[self].data, c);
        r := Ok(out);
      case Ref(o) =>
        var p := Pow(o, IntPower(-1));
        if p.Err? {
          return Err(ZeroDivision);
        }
        var out := Mul(self, Ref(p.value));
        TimesReciprocal(old(nodes)[self].data, old(nodes)[o].data);
        r := Ok(out);
    }

    /** `other / self` for a plain number `other`: `other * self**-1`, which
        Python evaluates as `(self**-1).__rmul__(other)`. */
    method RDiv(self: Handle, other: real) returns (r: Result<Handle>)
      requires Valid() && self < |nodes|
      modifies this
      ensures Valid()
      ensures r.Err? <==> old(nodes)[self].data == 0.0
      ensures r.Err? ==> r.error == ZeroDivision && nodes == old(nodes) && grad == old(grad)
      ensures r.Ok? ==> (r.value == |old(nodes)| + 2
        && nodes == RDivNodes(old(nodes), self, other)
        && grad == old(grad) + [0.0, 0.0, 0.0]
        && nodes[r.value].data == other / old(nodes)[self].data)
    {
      var p := Pow(self, IntPower(-1));
      if p.Err? {
        return Err(ZeroDivision);
      }
      var out := RMul(p.value, other);
      TimesReciprocal(other, old(nodes)[self].data);
      r := Ok(out);
    }

    /** `self.backward()`: build the topological order, seed the root's
        gradient with 1.0 and run the local rules from the root towards the
        leaves. Gradients of other nodes are not reset: they accumulate.
        A rule that raises stops the pass; the rules already run keep their
        effect. `topo` is the order the traversal happened to build. */
    method Backward(root: Handle) returns (ok: bool, ghost topo: seq<Handle>)
      requires Valid() && root < |nodes|
      modifies this
      ensures Valid() && nodes == old(nodes)
      ensures IsTopoPrefix(nodes, topo) && Elems(topo) == Reach(nodes, root)
      ensures |topo| > 0 && topo[|topo| - 1] == root
      ensures ok <==> AllDefined(nodes, topo)
      ensures ok ==> grad == ApplyInReverse(nodes, old(grad)[root := 1.0], topo)
      ensures !ok ==> exists i :: (0 <= i < |topo| && !RuleDefined(nodes, topo[i])
        && AllDefined(nodes, topo[i+1..])
        && grad == ApplyInReverse(nodes, old(grad)[root := 1.0], topo[i+1..]))
      ensures forall u :: 0 <= u < |nodes| && u !in Reach(nodes, root) ==> grad[u] == old(grad)[u]
    {
      var visited, order := BuildTopo(nodes, root, {}, []);
      topo := order;
      grad := grad[root := 1.0];
      ghost var i;
      ok, i := RunRules(order);
      UntouchedOutsideReach(nodes, old(grad), order, i, root);
    }

    /** `for node in reversed(topo): node._backward()`. On a rule that raises,
        the loop stops and reports where; `i` is the number of entries whose
        rules did not run. */
    method RunRules(order: seq<Handle>) returns (ok: bool, i: nat)
      requires WellFormed(nodes) && |grad| == |nodes|
      requires forall k :: 0 <= k < |order| ==> order[k] < |nodes|
      modifies this
      ensures nodes == old(nodes) && |grad| == |nodes| && i <= |order|
      ensures AllDefined(nodes, order[i..]) && grad == ApplyInReverse(nodes, old(grad), order[i..])
      ensures ok <==> AllDefined(nodes, order)
      ensures ok ==> i == 0
      ensures !ok ==> (0 < i && !RuleDefined(nodes, order[i - 1]))
    {
      i := |order|;
      while i > 0
        invariant 0 <= i <= |order|
        invariant nodes == old(nodes) && |grad| == |nodes|
        invariant AllDefined(nodes, order[i..])
        invariant grad == ApplyInReverse(nodes, old(grad), order[i..])
      {
        if !RuleDefined(nodes, order[i - 1]) {
          return false, i;
        }
        assert order[i - 1..][1..] == order[i..];
        grad := LocalBackward(nodes, grad, order[i - 1]);
        i := i - 1;
      }
      assert order[0..] == order;
      return true, 0;
    }
  }

  /** Rules of reachable nodes only touch reachable nodes, and seeding only
      touches the root: every other gradient keeps its old value. */
  lemma UntouchedOutsideReach(nodes: seq<Node>, g: seq<real>, topo: seq<Handle>, i: nat, root: Handle)
    requires WellFormed(nodes) && |g| == |nodes| && root < |nodes|
    requires IsTopoPrefix(nodes, topo) && Elems(topo) == Reach(nodes, root)
    requires i <= |topo| && AllDefined(nodes, topo[i..])
    ensures forall u :: 0 <= u < |nodes| && u !in Reach(nodes, root) ==> ApplyInReverse(nodes, g[root := 1.0], topo[i..])[u] == g[u]
  {
    forall u | 0 <= u < |nodes| && u !in Reach(nodes, root)
      ensures ApplyInReverse(nodes, g[root := 1.0], topo[i..])[u] == g[u]
    {
      forall k | 0 <= k < |topo[i..]| ensures u !in Operands(nodes[topo[i..][k]].op) {
        assert topo[i..][k] == topo[i + k];
        assert Operands(nodes[topo[i + k]].op) <= Elems(topo);
      }
      ApplyInReverseFrame(nodes, g[root := 1.0], topo[i..], u);
    }
  }
}
