# Scalar reverse-mode autodiff engine, modelled in Dafny

This project models the `Value` class of `src/forward_backward_pass.py`, a
scalar automatic-differentiation engine. Each arithmetic operator makes a new
node. The node's `data` is computed eagerly from its operands, the node keeps
the set of its operands (`_prev`), and it carries a local backward closure.
`backward()` on a root does three things:

- it lists every node reachable from the root in post-order, using a
  depth-first traversal with a visited set;
- it seeds the root's `grad` with 1.0;
- it runs every node's closure in reverse order, which adds
  contributions into the `grad` of its operands.

The model keeps the nodes in an arena, the class `Engine.Graph`:

- `nodes: seq<Node>` holds each node's value and its operation.
- `grad: seq<real>` holds the mutable gradients.
- A node is named by its index, called a handle.
- A new node only refers to older ones, so the graph is acyclic by
  construction (`Values.WellFormed`).

The closure a node carries becomes a tag, `Values.Op`: `Leaf`,
`AddOp(a, b)`, `MulOp(a, b)`, `PowOp(a, p)`, `ExpOp(a)` or `TanhOp(a, t)`.
Each tag holds exactly what the Python closure captures. `Gradients.LocalBackward`
gives the meaning of a tag as an update of the gradient sequence.

Modules:

- `Values` (values.dfy): handles, operations, nodes, operands, errors,
  integer powers, tanh written in terms of exp, and the invariant that every
  stored value is what its operation computes (`Consistent`).
- `Topo` (topo.dfy): reachability, topological prefixes, and `BuildTopo`,
  the traversal `build_topo`.
- `Gradients` (gradients.dfy): the local derivatives, the local backward rule
  of each node kind, running the rules in reverse order, and the
  chain-rule (adjoint) characterisation of the result.
- `Composite` (composite.dfy): the nodes that negation, subtraction and the two
  divisions append through the primitives, and the gradients those nodes pass back.
- `Engine` (engine.dfy): the `Graph` class with one method per operator and
  `Backward`.
- `Example` (example.dfy): the module's `__main__` script, the neuron
  `tanh(x1*w1 + x2*w2 + b)`, with its gradients after `o.backward()`.

Calling `backward()` twice does not double the gradients. Line 107 resets
the root's `grad` to 1.0 while every other `grad` keeps accumulating.
`Backward` in the model starts from whatever gradients the arena holds, so
repeated calls accumulate exactly as the code does.

## Model

| member | source | states |
|---|---|---|
| Values.Operands | src/forward_backward_pass.py:10 | The operand set of a node is empty exactly for a leaf. |
| Values.IntPow | src/forward_backward_pass.py:58 | Python's `x ** p` for an integer `p`, undefined for a negative power of zero: a non-zero base gives a non-zero power, and `x ** 0` is 1 for every `x`. |
| Values.IntPowStep | src/forward_backward_pass.py:61 | `x ** (p + 1) == x * x ** p` for every integer `p`, negative ones included. |
| Values.Reciprocal | src/forward_backward_pass.py:67 | `x ** -1` is `1 / x` for non-zero `x`. |
| Values.TanhOf | src/forward_backward_pass.py:84-85 | `(exp(2x) - 1) / (exp(2x) + 1)` lies strictly between -1 and 1 for any positive exponential. |
| Values.Computes | src/forward_backward_pass.py:20 | A node's value is what its operation computes eagerly at creation (lines 20, 43, 58, 74, 86): an exp node's value is positive, a tanh node's lies in (-1, 1), and `x ** 0` holds 1. |
| Values.AppendConsistent | src/forward_backward_pass.py:20 | Appending a node whose operands are older and whose value is what its operation computes keeps every stored value correct. |
| Engine.Graph.Append | src/forward_backward_pass.py:7-13 | A new node is appended at the next handle with `grad` 0.0; nothing else changes. |
| Engine.Graph.NewValue | src/forward_backward_pass.py:7-13 | `Value(x)` appends a leaf holding `x` with `grad` 0.0. |
| Engine.Graph.Lift | src/forward_backward_pass.py:19 | A plain-number operand is wrapped as a fresh leaf; a node operand is used as it is. |
| Engine.Graph.Add | src/forward_backward_pass.py:18-27 | Appends `AddOp(self, other)` holding `self.data + other.data`, after a fresh leaf when `other` is a number. |
| Engine.Graph.RAdd | src/forward_backward_pass.py:29-30 | `c + v` builds exactly the nodes of `v + c`, with value `c + v.data`. |
| Engine.Graph.Neg | src/forward_backward_pass.py:32-33 | `-v` appends the leaf -1 and `v * -1`, whose value is `-v.data`. |
| Engine.Graph.Sub | src/forward_backward_pass.py:35-36 | `a - b` builds `a + (-b)`; the new value is `a.data - b.data`. |
| Engine.Graph.RSub | src/forward_backward_pass.py:38-39 | `c - v` builds `(-v) + c`, four nodes, with value `c - v.data`. |
| Engine.Graph.Mul | src/forward_backward_pass.py:41-50 | Appends `MulOp(self, other)` holding the product of the values, after a fresh leaf when `other` is a number. |
| Engine.Graph.RMul | src/forward_backward_pass.py:52-53 | `c * v` builds exactly the nodes of `v * c`. |
| Engine.Graph.Pow | src/forward_backward_pass.py:55-64 | A non-number exponent fails and changes nothing; zero to a negative power fails; otherwise appends `PowOp(self, p)` holding `x ** p`. |
| Engine.Graph.Div | src/forward_backward_pass.py:66-67 | `a / b` is `a * b**-1`; it fails, changing nothing, exactly when `b` is zero; otherwise the value is `a.data / b.data`. |
| Engine.Graph.RDiv | src/forward_backward_pass.py:69-70 | `c / v` is `c * v**-1`; it fails exactly when `v` is zero; otherwise the value is `c / v.data`. |
| Engine.Graph.Exp | src/forward_backward_pass.py:72-81 | Appends `ExpOp(self)` holding `exp(self.data)`. |
| Engine.Graph.Tanh | src/forward_backward_pass.py:83-93 | Appends `TanhOp(self, t)` with `t` the tanh of `self.data`, captured for the rule; the value lies in (-1, 1). |
| Engine.Graph.Backward | src/forward_backward_pass.py:95-110 | Lists exactly the nodes reachable from the root, operands first, root last. If every rule can run, the gradients are the rules applied in reverse to the gradients with the root seeded to 1.0; otherwise it stops at the first failing rule with the later rules applied. Gradients of unreachable nodes never change. |
| Engine.Graph.RunRules | src/forward_backward_pass.py:108-110 | The loop over `reversed(topo)` applies the rules of a suffix of the order; it stops exactly when a rule cannot run. |
| Engine.UntouchedOutsideReach | src/forward_backward_pass.py:107-110 | Seeding the root and running the rules of nodes reachable from it leaves every unreachable gradient as it was. |
| Topo.Reach | src/forward_backward_pass.py:99-103 | The nodes reachable from `v` include `v` and are all older than it. |
| Topo.ReachOperand | src/forward_backward_pass.py:102-103 | Everything reachable from an operand is reachable from its consumer. |
| Topo.ClosedContainsReach | src/forward_backward_pass.py:99-104 | A set closed under operands contains everything reachable from its members. |
| Topo.OperandsComeFirst | src/forward_backward_pass.py:102-104 | In a topological prefix every operand of an entry occurs at an earlier position. |
| Topo.OperandListed | src/forward_backward_pass.py:102-104 | The operands of a listed node are listed. |
| Topo.AppendToTopo | src/forward_backward_pass.py:104 | Appending a node whose operands are all listed keeps the list topological. |
| Topo.FinishVisit | src/forward_backward_pass.py:102-104 | After the operands' visits, appending `v` lists exactly the earlier entries plus what is reachable from `v`. |
| Topo.OperandCallAllowed | src/forward_backward_pass.py:102-103 | The recursive visit of an operand meets the traversal's requirements: visits in progress are above the operand. |
| Topo.OperandVisited | src/forward_backward_pass.py:102-103 | After an operand's visit the listed nodes are still the earlier ones plus nodes reachable from `v` other than `v`. |
| Topo.BuildTopo | src/forward_backward_pass.py:99-106 | The traversal extends `topo` by exactly the unvisited nodes reachable from `v`, each once, operands first, ending with `v` when it was unvisited, for every order of visiting the operand set. |
| Gradients.RuleDefined | src/forward_backward_pass.py:61 | Whether `self.data ** (other - 1)` can be computed: only a power node can fail, only with a zero base, and never for an exponent of at least 1. |
| Gradients.FailsOnlyAtZeroPower | src/forward_backward_pass.py:58-61 | In an arena built by the operators, a rule fails exactly for `x ** 0` with `x` zero. |
| Gradients.LocalDerivative | src/forward_backward_pass.py:22-24 | The partial derivative of a node with respect to a non-operand is 0. |
| Gradients.Increment | src/forward_backward_pass.py:23 | `g[i] += x` changes entry `i` by `x` and no other entry. |
| Gradients.AddBackward | src/forward_backward_pass.py:22-24 | The closure of `self + other`, its two `+=` in order, adds to each node's gradient its local derivative times `out.grad`. |
| Gradients.MulBackward | src/forward_backward_pass.py:45-47 | The closure of `self * other`, its two `+=` in order, adds to each node's gradient its local derivative times `out.grad`. |
| Gradients.UnaryBackward | src/forward_backward_pass.py:60-61 | The closure of a power, exp or tanh node adds to each node's gradient its local derivative times `out.grad`. |
| Gradients.LocalBackward | src/forward_backward_pass.py:110 | A node's rule adds its local derivative times its gradient to every node's gradient, counting an operand used twice twice. |
| Gradients.LeafBackwardIsNoOp | src/forward_backward_pass.py:13 | The rule of a leaf changes no gradient. |
| Gradients.AddRule | src/forward_backward_pass.py:22-24 | The add rule adds `out.grad` to each operand, twice when both are the same node, and changes nothing else. |
| Gradients.MulRule | src/forward_backward_pass.py:45-47 | The mul rule adds `b.data * out.grad` to `a` and `a.data * out.grad` to `b` (`2 a.data out.grad` for `a * a`), and changes nothing else. |
| Gradients.PowRule | src/forward_backward_pass.py:60-61 | The power rule adds `p * x**(p-1) * out.grad` to the base only. |
| Gradients.UnaryRules | src/forward_backward_pass.py:76-77 | The exp rule adds `out.data * out.grad`, the tanh rule `(1 - t*t) * out.grad`, to the operand only. |
| Gradients.ApplyInReverse | src/forward_backward_pass.py:108-110 | Running the rules of an order in reverse keeps the number of gradients. |
| Gradients.ApplyInReverseSplit | src/forward_backward_pass.py:108-110 | Running the rules of `s + t` in reverse runs those of `t`, then those of `s`. |
| Gradients.ApplyInReverseFrame | src/forward_backward_pass.py:108-110 | A node that is no operand of any listed node keeps its gradient. |
| Gradients.OwnRuleKeeps | src/forward_backward_pass.py:108-110 | A node's own rule leaves its own gradient unchanged. |
| Gradients.SettledAfterOwnRule | src/forward_backward_pass.py:108-110 | Rules run after a node's own rule do not change that node's gradient when none of them consumes it. |
| Gradients.SplitAround | src/forward_backward_pass.py:108 | An order splits around an entry into the entries before and after it, with the rules of both parts defined. |
| Gradients.SettledAt | src/forward_backward_pass.py:108-110 | A node no earlier entry consumes has its final gradient once its own rule has run. |
| Gradients.GradientSettled | src/forward_backward_pass.py:104-110 | When a node's rule runs, its gradient is already final: every consumer has run. |
| Gradients.AdjointSuffix | src/forward_backward_pass.py:108-110 | After the rules of a suffix run, a gradient is its start plus the contributions of the suffix's consumers at their final gradients. |
| Gradients.Adjoint | src/forward_backward_pass.py:107-110 | The chain rule: a node's final gradient is its start plus the sum over its consumers of local derivative times the consumer's final gradient. |
| Gradients.NoConsumer | src/forward_backward_pass.py:108-110 | A node that no listed node consumes accumulates nothing. |
| Gradients.SoleConsumer | src/forward_backward_pass.py:108-110 | A node with one listed consumer accumulates exactly that consumer's contribution. |
| Composite.ReciprocalSquare | src/forward_backward_pass.py:61 | `x ** -2` is `1 / (x * x)`, the derivative factor of `x ** -1`. |
| Composite.RunTwo | src/forward_backward_pass.py:108-110 | Running two rules in reverse runs the last, then the first. |
| Composite.RunThree | src/forward_backward_pass.py:108-110 | Running three rules in reverse runs the last, then the middle, then the first. |
| Composite.ExtendWellFormed | src/forward_backward_pass.py:20 | Nodes appended with older operands keep the arena acyclic. |
| Composite.NegGradient | src/forward_backward_pass.py:32-33 | Backward through the nodes of `-v` passes minus the output's gradient to `v`. |
| Composite.RunFour | src/forward_backward_pass.py:108-110 | Running four rules in reverse runs them last to first. |
| Composite.SubSteps | src/forward_backward_pass.py:35-36 | The three rules of `a + (-b)` pass the output's gradient to `a` and its negation to `b`. |
| Composite.SubGradient | src/forward_backward_pass.py:35-36 | Backward through the nodes of `a - b` passes the output's gradient to `a` and its negation to `b`. |
| Composite.RSubSteps | src/forward_backward_pass.py:38-39 | The four rules of `(-v) + c` pass the negated output gradient to `v`. |
| Composite.RSubGradient | src/forward_backward_pass.py:38-39 | Backward through the nodes of `c - v` passes minus the output's gradient to `v`. |
| Composite.DivSteps | src/forward_backward_pass.py:66-67 | The two rules of `a * b**-1` pass the gradient over `b` to `a` and minus `a` times it over `b` squared to `b`. |
| Composite.DivGradient | src/forward_backward_pass.py:66-67 | Backward through the nodes of `a / b` gives the quotient rule's gradients for `a` and `b`. |
| Composite.RDivSteps | src/forward_backward_pass.py:69-70 | The three rules of `c * v**-1` pass minus `c` times the gradient over `v` squared to `v`. |
| Composite.RDivGradient | src/forward_backward_pass.py:69-70 | Backward through the nodes of `c / v` passes minus `c` times the gradient over `v` squared to `v`. |
| Example.Neuron | src/forward_backward_pass.py:114-127 | The arena the script builds has ten nodes. |
| Example.NeuronShape | src/forward_backward_pass.py:123-127 | Every node of the neuron but `o` has exactly one consumer, and none is a power. |
| Example.NeuronWellFormed | src/forward_backward_pass.py:123-127 | The neuron's arena is acyclic. |
| Example.NeuronOrder | src/forward_backward_pass.py:123-129 | Every rule of the neuron can run. |
| Example.NeuronAdjoint | src/forward_backward_pass.py:129 | With `o` seeded, each node's gradient is its only consumer's local derivative times that consumer's gradient. |
| Example.NeuronDerivatives | src/forward_backward_pass.py:123-127 | The local derivatives along the neuron's edges, e.g. `1 - t*t` from `o` to `n` and `x1.data` from `x1w1` to `w1`. |
| Example.NeuronTop | src/forward_backward_pass.py:127-129 | `o.grad` is 1 and `n.grad` is `1 - t*t`. |
| Example.NeuronUpper | src/forward_backward_pass.py:126 | Both operands of `n` receive `n.grad`. |
| Example.NeuronMiddle | src/forward_backward_pass.py:125 | Both products receive the sum's gradient. |
| Example.NeuronLower | src/forward_backward_pass.py:123-124 | Each input receives the other factor's value times its product's gradient; `w2.grad` is 0. |
| Example.NeuronGradients | src/forward_backward_pass.py:129 | For every order the traversal may build: `o.grad` is 1, `n.grad` is `1 - t*t`, the sums pass it on unchanged, `x1.grad` is `-3 n.grad`, `w1.grad` is `2 n.grad`, `x2.grad` is `n.grad`, `w2.grad` is 0. |
| Example.BuildInputs | src/forward_backward_pass.py:114-120 | The five inputs are leaves 0 to 4 of a new graph with gradient 0. |
| Example.BuildNeuron | src/forward_backward_pass.py:114-127 | The forward pass through the operators leaves exactly the neuron's arena with every gradient 0. |
| Example.WorkedExample | src/forward_backward_pass.py:113-129 | The script through the operators and `backward`: it succeeds, and the gradients are those above; when `t*t` is 1/2 they are -1.5, 0.5, 1.0 and 0.0 for x1, x2, w1 and w2. |

## Left out

- `main.py` and `src/nn` are not part of this model.
  - `main.py` is a training loop that prints losses and imports the neuron, layer and network classes from `src/nn`.
  - The gradient-descent update of `data` it performs is therefore not modelled.
  - Node values never change after creation.
- Floating point: values are `real`. Rounding, overflow (`math.exp` raising `OverflowError`), infinities and NaN are not modelled.
- `math.exp` is a parameter of the graph (`Graph.exp`). The model relies only on it being positive, which keeps tanh's denominator non-zero. Exact values of exp and tanh are not computed.
- Example.WorkedExample does not compute the numeric value `0.7071...` of `o`. It states the gradients as functions of `t` and gives their values under the hypothesis `t*t == 1/2`.
- Engine.Graph.Pow: exponents are integers. A float exponent that is not integral, including a negative base raised to it, is not modelled. A float exponent with an integral value behaves as the integer.
- Engine.Graph.Exp and Engine.Graph.Tanh: their values come from the exp parameter (above).
- Integer and float operands are not distinguished: a plain number is a `real`.
- `label`, `_op` and `__repr__` are diagnostics and are left out, as is the unused `numpy` import.
- Python's recursion-depth limit for `build_topo` is not modelled.
- The visited set and `topo` are keyed by handle. The model has no object identity apart from the arena index.
- Any iteration order of the operand set is allowed. The proofs hold for every order.
- Engine.Graph.Backward: cycles cannot occur in the arena, so the undefined behaviour on cyclic graphs is not modelled.
- No law is stated about calling `backward` twice: the code overwrites the root's gradient on each call.
- A rule that raises in the middle of the loop is stopped with `ok == false`. This happens only for `0 ** p` with `p - 1` negative. The Python exception and its traceback are not modelled.
- `Values.Product` and `Composite.Quotient` only name a multiplication and a division. They are not operations of the source.
- Composite.SubGradient and Composite.DivGradient assume that the two operands are distinct nodes. For `a - a` and `a / a` the value and gradient follow from the same rule lemmas, but no separate lemma states them.
- Composite.SubGradient, Composite.DivGradient, Composite.RSubGradient and Composite.RDivGradient assume that the one fresh node between the output and the operand whose gradient feeds a later rule starts with gradient 0, as it does when `backward` runs right after the operator. Composite.NegGradient needs no such assumption.
- Operands that are neither a `Value` nor a number are not modelled. Lines 19 and 42 wrap any such object in a `Value`, and line 20 or 43 then raises `TypeError` (for a `str`, say). `Operand` holds only a node handle or a real.
- The `_children` argument of `__init__` (lines 7, 10 and 13) lets a caller build a node with operands but the default no-op `_backward`. `Op` ties a node's operands to its rule, so such a node cannot be represented.
