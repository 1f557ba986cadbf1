/** The scalar nodes of the computation graph, stored in an arena.
    A node is referred to by its index (a handle); every operand of a node
    has a smaller index than the node, so the graph is acyclic by construction. */
module Values {

  type Handle = nat

  /** The operation that produced a node. It stands for the node's local
      backward closure and carries exactly what that closure captures. */
  datatype Op =
    | Leaf                          // built from a raw scalar; backward is a no-op
    | AddOp(a: Handle, b: Handle)   // self + other
    | MulOp(a: Handle, b: Handle)   // self * other
    | PowOp(a: Handle, p: int)      // self ** p, p a plain number
    | ExpOp(a: Handle)              // exp(self)
    | TanhOp(a: Handle, t: real)    // tanh(self); t is the forward value the closure captures

  /** A node's forward value and the operation that produced it. */
  datatype Node = Node(data: real, op: Op)

  /** The right-hand operand of a binary operator: a node or a plain number. */
  datatype Operand = Ref(h: Handle) | Num(x: real)

  /** The right-hand operand of `**`: only plain numbers are accepted. */
  datatype Exponent = IntPower(p: int) | NotNumber

  datatype Error =
    | ExponentNotNumber   // the assertion in `__pow__`
    | ZeroDivision        // zero raised to a negative power

  datatype Result<T> = Ok(value: T) | Err(error: Error)

  /** The operand set of a node (its `_prev`); a node used twice is in it once. */
  function Operands(op: Op): (s: set<Handle>)
    ensures op.Leaf? <==> s == {}
  {
    match op
    case Leaf => {}
    case AddOp(a, b) => {a, b}
    case MulOp(a, b) => {a, b}
    case PowOp(a, _) => {a}
    case ExpOp(a) => {a}
    case TanhOp(a, _) => {a}
  }

  /** Every operand of `op` is a handle below `v`. */
  predicate OperandsBelow(op: Op, v: Handle)
    ensures OperandsBelow(op, v) ==> forall c :: c in Operands(op) ==> c < v
  {
    match op
    case Leaf => true
    case AddOp(a, b) => a < v && b < v
    case MulOp(a, b) => a < v && b < v
    case PowOp(a, _) => a < v
    case ExpOp(a) => a < v
    case TanhOp(a, _) => a < v
  }

  /** Every operand of a node was created before it. */
  ghost predicate WellFormed(nodes: seq<Node>) {
    forall v :: 0 <= v < |nodes| ==> OperandsBelow(nodes[v].op, v)
  }

  /** The product of two reals, as a multiplication node stores it. Naming it
      keeps the solver from treating every stored product as nonlinear
      arithmetic. */
  function Product(x: real, y: real): real {
    x * y
  }

  /** x raised to a natural power. */
  function Power(x: real, n: nat): (r: real)
    ensures x != 0.0 ==> r != 0.0
    ensures n == 0 ==> r == 1.0
  {
    if n == 0 then 1.0 else x * Power(x, n - 1)
  }

  /** x raised to an integer power; a negative power of zero is undefined. */
  function IntPow(x: real, p: int): (r: real)
    requires p >= 0 || x != 0.0
    ensures x != 0.0 ==> r != 0.0
    ensures p == 0 ==> r == 1.0
  {
    if p >= 0 then Power(x, p) else 1.0 / Power(x, -p)
  }

  /** One more factor of the base, for every integer exponent, negative ones
      included: `x ** (p + 1) == x * x ** p`. */
  lemma IntPowStep(x: real, p: int)
    requires p >= 0 || x != 0.0
    ensures IntPow(x, p + 1) == Product(x, IntPow(x, p))
  {
    if p < 0 {
      var q := Power(x, -p - 1);
      assert Power(x, -p) == x * q;
      assert IntPow(x, p + 1) == 1.0 / q by {
        if p + 1 == 0 { assert q == 1.0; }
      }
      assert x * (1.0 / (x * q)) == 1.0 / q;
    }
  }

  /** `x ** -1` is the reciprocal. */
  lemma Reciprocal(x: real)
    requires x != 0.0
    ensures IntPow(x, -1) == 1.0 / x
  {
    assert Power(x, 1) == x * Power(x, 0);
  }

  /** tanh as the source computes it from the exponential. */
  function TanhOf(exp: real -> real, x: real): (t: real)
    requires exp(2.0 * x) > 0.0
    ensures -1.0 < t < 1.0
  {
    (exp(2.0 * x) - 1.0) / (exp(2.0 * x) + 1.0)
  }

  /** The exponential given to the graph behaves as one at least in sign. */
  ghost predicate PositiveExp(exp: real -> real) {
    forall x :: exp(x) > 0.0
  }

  /** A node's stored value is what its operation computes from the values of
      its operands in `nodes`. */
  ghost predicate Computes(nodes: seq<Node>, exp: real -> real, n: Node): (c: bool)
    requires OperandsBelow(n.op, |nodes|) && PositiveExp(exp)
    ensures c && n.op.ExpOp? ==> n.data > 0.0
    ensures c && n.op.TanhOp? ==> -1.0 < n.data < 1.0
    ensures c && n.op.PowOp? && n.op.p == 0 ==> n.data == 1.0
  {
    match n.op
    case Leaf => true
    case AddOp(a, b) => n.data == nodes[a].data + nodes[b].data
    case MulOp(a, b) => n.data == Product(nodes[a].data, nodes[b].data)
    case PowOp(a, p) => (p >= 0 || nodes[a].data != 0.0) && n.data == IntPow(nodes[a].data, p)
    case ExpOp(a) => n.data == exp(nodes[a].data)
    case TanhOp(a, t) => t == n.data && t == TanhOf(exp, nodes[a].data)
  }

  /** Every node's stored value is what its operation computes. */
  ghost predicate Consistent(nodes: seq<Node>, exp: real -> real)
    requires WellFormed(nodes) && PositiveExp(exp)
  {
    forall v :: 0 <= v < |nodes| ==> Computes(nodes, exp, nodes[v])
  }

  /** Appending a node whose operands are all older keeps the arena well formed. */
  lemma AppendWellFormed(nodes: seq<Node>, n: Node)
    requires WellFormed(nodes)
    requires OperandsBelow(n.op, |nodes|)
    ensures WellFormed(nodes + [n])
  {
  }

  /** Whether a node computes its value does not depend on nodes added later. */
  lemma ComputesExtend(nodes: seq<Node>, exp: real -> real, n: Node, m: Node)
    requires PositiveExp(exp) && OperandsBelow(m.op, |nodes|)
    ensures OperandsBelow(m.op, |nodes + [n]|)
    ensures Computes(nodes + [n], exp, m) == Computes(nodes, exp, m)
  {
    var ns := nodes + [n];
    match m.op
    case Leaf =>
    case AddOp(a, b) => assert ns[a] == nodes[a] && ns[b] == nodes[b];
    case MulOp(a, b) => assert ns[a] == nodes[a] && ns[b] == nodes[b];
    case PowOp(a, _) => assert ns[a] == nodes[a];
    case ExpOp(a) => assert ns[a] == nodes[a];
    case TanhOp(a, _) => assert ns[a] == nodes[a];
  }

  /** Appending a node that computes its value keeps the arena consistent. */
  lemma AppendConsistent(nodes: seq<Node>, exp: real -> real, n: Node)
    requires WellFormed(nodes) && PositiveExp(exp) && Consistent(nodes, exp)
    requires OperandsBelow(n.op, |nodes|) && Computes(nodes, exp, n)
    ensures WellFormed(nodes + [n]) && Consistent(nodes + [n], exp)
  {
    var ns := nodes + [n];
    forall v | 0 <= v < |ns| ensures Computes(ns, exp, ns[v]) {
      if v < |nodes| {
        assert OperandsBelow(nodes[v].op, v);
        ComputesExtend(nodes, exp, n, nodes[v]);
      } else {
        ComputesExtend(nodes, exp, n, n);
      }
    }
  }
}
