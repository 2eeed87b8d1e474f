/** The tree of values `marshal.loads` hands to the disassembler, and the
    order in which `Disassembler.walk` (pycd.py:93-102) visits it: the value
    itself first, then, for every constant of a code unit's constant pool
    that is itself a code unit, that constant's whole subtree, in pool order.
    Constants that are not code units are skipped; a code unit that occurs
    twice is visited twice. */
module CodeGraph {

  /** A value of the object tree: a code object (`types.CodeType`) or
      anything else (a number, a string, a tuple, `None`, ...), which the
      traversal never looks into; `repr` stands for whatever distinguishes
      one such constant from another. */
  datatype Value = Code(unit: CodeUnit) | Other(repr: seq<int>)

  /** A code object. The traversal reads only the constant pool. `attrs`
      stands for every other attribute that `dis.dis` reads (the bytecode,
      the names, the line table, ...), so two units that agree on name,
      first line and pool can still print different listings; the listing
      itself is a parameter of the model. */
  datatype CodeUnit = CodeUnit(name: string, firstLineNo: int, consts: seq<Value>, attrs: seq<int>)

  /** Number of nodes of a value tree; the termination measure. */
  function Size(v: Value): nat
  {
    match v
    case Other(_) => 1
    case Code(u) => 1 + SizeAll(u.consts)
  }

  function SizeAll(cs: seq<Value>): nat
  {
    if cs == [] then 0 else Size(cs[0]) + SizeAll(cs[1..])
  }

  /** The values `walk(v)` passes to `analyze`, in call order: `v`, then the
      subtrees of the code-typed constants of `v`, in constant-pool order
      (`getattr(co, 'co_consts', None)` is `None` for a value that is not a
      code unit, so its traversal ends with itself). */
  function PreOrder(v: Value): seq<Value>
  {
    [v] + if v.Code? then ConstsOrder(v.unit.consts) else []
  }

  /** The loop `for const in consts: if isinstance(const, CodeType): walk(const)`. */
  function ConstsOrder(cs: seq<Value>): seq<Value>
  {
    if cs == [] then []
    else (if cs[0].Code? then PreOrder(cs[0]) else []) + ConstsOrder(cs[1..])
  }

  // ---------------------------------------------------------------------
  // How many units are visited

  /** Number of code-unit occurrences in a value tree, counting a unit
      again each time it occurs. */
  function CodeCount(v: Value): nat
  {
    match v
    case Other(_) => 0
    case Code(u) => 1 + CodeCountAll(u.consts)
  }

  function CodeCountAll(cs: seq<Value>): nat
  {
    if cs == [] then 0 else CodeCount(cs[0]) + CodeCountAll(cs[1..])
  }

  /** `walk` calls `analyze` once per code-unit occurrence of the tree (no
      deduplication, nothing for non-code constants); a root that is not a
      code unit is still handed to `analyze` once. */
  lemma {:induction false} PreOrderLength(v: Value)
    ensures |PreOrder(v)| == if v.Code? then CodeCount(v) else 1
    decreases v, 1
  {
    if v.Code? {
      ConstsOrderLength(v.unit.consts);
    }
  }

  lemma {:induction false} ConstsOrderLength(cs: seq<Value>)
    ensures |ConstsOrder(cs)| == CodeCountAll(cs)
    decreases cs, 0
  {
    if cs != [] {
      if cs[0].Code? { PreOrderLength(cs[0]); }
      ConstsOrderLength(cs[1..]);
    }
  }

  /** Everything `analyze` receives from `walk` after the root is a code unit. */
  lemma {:induction false} PreOrderTailIsCode(v: Value)
    ensures forall i :: 0 < i < |PreOrder(v)| ==> PreOrder(v)[i].Code?
    decreases v, 1
  {
    if v.Code? {
      ConstsOrderIsCode(v.unit.consts);
      assert PreOrder(v)[1..] == ConstsOrder(v.unit.consts);
      forall i | 0 < i < |PreOrder(v)| ensures PreOrder(v)[i].Code? {
        assert PreOrder(v)[i] == ConstsOrder(v.unit.consts)[i - 1];
      }
    }
  }

  lemma {:induction false} ConstsOrderIsCode(cs: seq<Value>)
    ensures forall i :: 0 <= i < |ConstsOrder(cs)| ==> ConstsOrder(cs)[i].Code?
    decreases cs, 0
  {
    if cs != [] {
      var head := if cs[0].Code? then PreOrder(cs[0]) else [];
      if cs[0].Code? { PreOrderTailIsCode(cs[0]); }
      ConstsOrderIsCode(cs[1..]);
      forall i | 0 <= i < |ConstsOrder(cs)| ensures ConstsOrder(cs)[i].Code? {
        if i < |head| {
          assert ConstsOrder(cs)[i] == head[i];
        } else {
          assert ConstsOrder(cs)[i] == ConstsOrder(cs[1..])[i - |head|];
        }
      }
    }
  }

  // ---------------------------------------------------------------------
  // Where each subtree lies in the traversal

  lemma {:induction false} ConstsOrderAppend(a: seq<Value>, b: seq<Value>)
    ensures ConstsOrder(a + b) == ConstsOrder(a) + ConstsOrder(b)
  {
    if a == [] {
      assert a + b == b;
    } else {
      assert (a + b)[0] == a[0];
      assert (a + b)[1..] == a[1..] + b;
      ConstsOrderAppend(a[1..], b);
    }
  }

  /** Position in `PreOrder(Code(u))` at which the subtree of constant `i` starts. */
  function Offset(u: CodeUnit, i: nat): nat
    requires i <= |u.consts|
  {
    1 + |ConstsOrder(u.consts[..i])|
  }

  /** The subtree of a code-typed constant is visited as one contiguous
      stretch starting at its offset: `walk` finishes it before it moves on. */
  lemma SubtreeContiguous(u: CodeUnit, i: nat)
    requires i < |u.consts| && u.consts[i].Code?
    ensures Offset(u, i) + |PreOrder(u.consts[i])| <= |PreOrder(Code(u))|
    ensures PreOrder(Code(u))[Offset(u, i)..Offset(u, i) + |PreOrder(u.consts[i])|] == PreOrder(u.consts[i])
    ensures PreOrder(Code(u))[Offset(u, i)] == u.consts[i]
  {
    var cs := u.consts;
    assert cs == cs[..i] + cs[i..];
    ConstsOrderAppend(cs[..i], cs[i..]);
    assert cs[i..][0] == cs[i];
    var before, sub, after := [Code(u)] + ConstsOrder(cs[..i]), PreOrder(cs[i]), ConstsOrder(cs[i..][1..]);
    assert ConstsOrder(cs[i..]) == sub + after;
    assert PreOrder(Code(u)) == before + (sub + after);
    assert |before| == Offset(u, i);
    MiddleSlice(before, sub, after);
  }

  /** The middle part of a sequence cut in three. */
  lemma MiddleSlice<T>(a: seq<T>, b: seq<T>, c: seq<T>)
    ensures (a + (b + c))[|a|..|a| + |b|] == b
    ensures |b| > 0 ==> (a + (b + c))[|a|] == b[0]
  {
  }

  /** Of two code-typed constants, the earlier one's whole subtree is visited
      before the later one is reached. */
  lemma SiblingOrder(u: CodeUnit, i: nat, j: nat)
    requires i < j < |u.consts| && u.consts[i].Code? && u.consts[j].Code?
    ensures Offset(u, i) + |PreOrder(u.consts[i])| <= Offset(u, j)
  {
    var cs := u.consts;
    assert cs[..j] == cs[..i] + cs[i..j];
    ConstsOrderAppend(cs[..i], cs[i..j]);
    assert cs[i..j][0] == cs[i];
  }

  /** No deduplication: a code unit that occurs as two constants of the pool
      is handed to `analyze` at two different points of the traversal. */
  lemma VisitedTwice(u: CodeUnit, i: nat, j: nat)
    requires i < j < |u.consts| && u.consts[i].Code? && u.consts[i] == u.consts[j]
    ensures Offset(u, i) < Offset(u, j) < |PreOrder(Code(u))|
    ensures PreOrder(Code(u))[Offset(u, i)] == PreOrder(Code(u))[Offset(u, j)] == u.consts[i]
  {
    SubtreeContiguous(u, i);
    SubtreeContiguous(u, j);
    SiblingOrder(u, i, j);
  }

  // ---------------------------------------------------------------------
  // An independent reference: depth-first search with an explicit stack

  /** The code-typed constants of a value, in pool order. */
  function CodeConsts(v: Value): seq<Value>
  {
    if v.Code? then CodeOnly(v.unit.consts) else []
  }

  function CodeOnly(cs: seq<Value>): seq<Value>
  {
    if cs == [] then []
    else (if cs[0].Code? then [cs[0]] else []) + CodeOnly(cs[1..])
  }

  lemma {:induction false} SizeAllAppend(a: seq<Value>, b: seq<Value>)
    ensures SizeAll(a + b) == SizeAll(a) + SizeAll(b)
  {
    if a == [] {
      assert a + b == b;
    } else {
      assert (a + b)[0] == a[0];
      assert (a + b)[1..] == a[1..] + b;
      SizeAllAppend(a[1..], b);
    }
  }

  lemma {:induction false} CodeOnlySize(cs: seq<Value>)
    ensures SizeAll(CodeOnly(cs)) <= SizeAll(cs)
  {
    if cs != [] {
      CodeOnlySize(cs[1..]);
      SizeAllAppend(if cs[0].Code? then [cs[0]] else [], CodeOnly(cs[1..]));
      assert ([cs[0]])[1..] == [];
    }
  }

  lemma CodeConstsSmaller(v: Value)
    ensures SizeAll(CodeConsts(v)) < Size(v)
  {
    if v.Code? {
      CodeOnlySize(v.unit.consts);
    }
  }

  /** Pop the top of the stack, emit it, push its code-typed constants so
      that the first of them is popped next. */
  function StackOrder(stack: seq<Value>): seq<Value>
    decreases SizeAll(stack)
  {
    if stack == [] then []
    else
      var top := stack[0];
      CodeConstsSmaller(top);
      SizeAllAppend(CodeConsts(top), stack[1..]);
      [top] + StackOrder(CodeConsts(top) + stack[1..])
  }

  /** The traversals of a sequence of trees, one after the other. */
  function Forest(vs: seq<Value>): seq<Value>
  {
    if vs == [] then [] else PreOrder(vs[0]) + Forest(vs[1..])
  }

  lemma {:induction false} ForestAppend(a: seq<Value>, b: seq<Value>)
    ensures Forest(a + b) == Forest(a) + Forest(b)
  {
    if a == [] {
      assert a + b == b;
    } else {
      assert (a + b)[0] == a[0];
      assert (a + b)[1..] == a[1..] + b;
      ForestAppend(a[1..], b);
    }
  }

  lemma {:induction false} ConstsOrderIsForest(cs: seq<Value>)
    ensures ConstsOrder(cs) == Forest(CodeOnly(cs))
  {
    if cs != [] {
      ConstsOrderIsForest(cs[1..]);
      var head := if cs[0].Code? then [cs[0]] else [];
      ForestAppend(head, CodeOnly(cs[1..]));
      if cs[0].Code? {
        assert Forest(head) == PreOrder(cs[0]) + Forest([]);
      }
    }
  }

  /** The stack-driven search emits exactly the recursive traversals of the
      stacked trees, top first. */
  lemma {:induction false} StackOrderIsForest(stack: seq<Value>)
    ensures StackOrder(stack) == Forest(stack)
    decreases SizeAll(stack)
  {
    if stack != [] {
      var top := stack[0];
      CodeConstsSmaller(top);
      SizeAllAppend(CodeConsts(top), stack[1..]);
      StackOrderIsForest(CodeConsts(top) + stack[1..]);
      ForestAppend(CodeConsts(top), stack[1..]);
      if top.Code? {
        ConstsOrderIsForest(top.unit.consts);
      }
      assert PreOrder(top) == [top] + Forest(CodeConsts(top));
    }
  }

  /** `walk`'s recursive order is the order of a depth-first search with an
      explicit stack: pre-order, constant-pool order among siblings. */
  lemma PreOrderIsStackOrder(v: Value)
    ensures PreOrder(v) == StackOrder([v])
  {
    StackOrderIsForest([v]);
    assert [v][1..] == [];
    assert Forest([v]) == PreOrder(v) + Forest([]);
  }

  /** A constant of a pool is smaller than the unit that holds it: the
      measure that bounds the recursion of `walk`. */
  lemma {:induction false} ConstSmaller(u: CodeUnit, i: nat)
    requires i < |u.consts|
    ensures Size(u.consts[i]) < Size(Code(u))
  {
    ElementSize(u.consts, i);
  }

  lemma {:induction false} ElementSize(cs: seq<Value>, i: nat)
    requires i < |cs|
    ensures Size(cs[i]) <= SizeAll(cs)
  {
    if i > 0 {
      ElementSize(cs[1..], i - 1);
      assert cs[1..][i - 1] == cs[i];
    }
  }
}
