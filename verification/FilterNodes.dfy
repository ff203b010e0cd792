/** The filter's nodes as objects: built bottom up, a NOT flipping the opcode of its child in place, and evaluated by a
    recursive walk. */
module FilterNodes {
  import opened Filter
  import opened Wrappers

  /** Only the opcode and the field change after a node is made. */
  class FilterNode {
    const oper: Oper
    var code: Opcode
    var field: string
    const val: Value
    const left: FilterNode?
    const right: FilterNode?
    ghost const below: set<FilterNode>

    /** The nodes form a tree. */
    ghost predicate Linked()
      decreases below
    {
      && this in below
      && (left != null ==> left.below <= below && this !in left.below && left.Linked())
      && (right != null ==> right.below <= below && this !in right.below && right.Linked())
      && (left != null && right != null ==> left.below !! right.below)
    }

    ghost function View(): (t: Tree)
      requires Linked()
      reads below
      ensures t.Node? && t.oper == oper && t.code == code && t.field == field && t.val == val
      ensures t.left == (if left == null then Nil else left.View())
      ensures t.right == (if right == null then Nil else right.View())
      decreases below
    {
      Node(oper, code, field, val, if left == null then Nil else left.View(), if right == null then Nil else right.View())
    }

    constructor (oper: Oper, code: Opcode, field: string, val: Value, left: FilterNode?, right: FilterNode?)
      requires Apart(left, right)
      ensures Linked() && View() == Node(oper, code, field, val, ViewOf(left), ViewOf(right))
      ensures below == {this} + Objects(left) + Objects(right)
    {
      this.oper, this.code, this.field, this.val, this.left, this.right := oper, code, field, val, left, right;
      this.below := {this} + Objects(left) + Objects(right);
    }
  }

  ghost function Objects(node: FilterNode?): set<FilterNode> { if node == null then {} else node.below }

  ghost predicate Apart(l: FilterNode?, r: FilterNode?) {
    (l != null ==> l.Linked()) && (r != null ==> r.Linked()) && Objects(l) !! Objects(r)
  }

  ghost function ViewOf(node: FilterNode?): Tree
    requires node != null ==> node.Linked()
    reads Objects(node)
  {
    if node == null then Nil else node.View()
  }

  /** Flipping a node's opcode. */
  method Flip(node: FilterNode, code: Opcode)
    requires node.Linked()
    modifies node
    ensures var t := old(node.View()); t.Node? && node.View() == t.(code := code)
  {
    node.code := code;
  }

  /** Moving a node to another field. */
  method SetField(node: FilterNode, field: string)
    requires node.Linked()
    modifies node
    ensures var t := old(node.View()); t.Node? && node.View() == t.(field := field)
  {
    node.field := field;
  }

  /** A new node for any operator but NOT: what is below it stays as it is. */
  method NewInner(left: FilterNode?, oper: Oper, right: FilterNode?) returns (node: FilterNode)
    requires Apart(left, right) && oper != OpNot
    ensures node.Linked() && Some(node.View()) == MakeNode(ViewOf(left), oper, ViewOf(right))
    ensures fresh(node) && node.below == {node} + Objects(left) + Objects(right)
  {
    node := new FilterNode(oper, CodeErr, "", NoValue, left, right);
  }

  method NewNode(left: FilterNode?, oper: Oper, right: FilterNode?) returns (node: FilterNode?)
    requires Apart(left, right)
    modifies Objects(left), Objects(right)
    ensures node == null <==> MakeNode(old(ViewOf(left)), oper, old(ViewOf(right))).None?
    ensures node != null ==>
      && node.Linked() && node.View() == MakeNode(old(ViewOf(left)), oper, old(ViewOf(right))).value
      && fresh(node.below - Objects(left) - Objects(right))
  {
    hide Negate;
    if oper == OpNot {
      var child;
      if right != null && left == null {
        child := right;
      } else if left != null && right == null {
        child := left;
      } else {
        return null;
      }
      var neg := Negate(child.code);
      if neg != CodeErr {
        Flip(child, neg);
        return child;
      }
      node := new FilterNode(oper, CodeErr, "", NoValue, left, right);
    } else {
      node := NewInner(left, oper, right);
    }
  }

  /** A linked node and the nodes below it. */
  lemma Children(node: FilterNode)
    requires node.Linked()
    ensures Apart(node.left, node.right)
    ensures Objects(node.left) < node.below && Objects(node.right) < node.below
    ensures node.View() == Node(node.oper, node.code, node.field, node.val, ViewOf(node.left), ViewOf(node.right))
  {
  }

  /** A copy of a node and everything below it. */
  method Duplicate(original: FilterNode) returns (copy: FilterNode)
    requires original.Linked()
    ensures copy.Linked() && fresh(copy.below) && copy.View() == original.View()
    decreases original.below, 0
  {
    hide FilterNode.View, FilterNode.Linked, ViewOf;
    Children(original);
    ghost var l, r := ViewOf(original.left), ViewOf(original.right);
    var lc := DuplicateChild(original.left);
    var rc := DuplicateChild(original.right);
    copy := new FilterNode(original.oper, original.code, original.field, original.val, lc, rc);
    assert ViewOf(lc) == l && ViewOf(rc) == r;
  }

  method DuplicateChild(child: FilterNode?) returns (copy: FilterNode?)
    requires child != null ==> child.Linked()
    ensures (copy != null ==> copy.Linked()) && fresh(Objects(copy)) && ViewOf(copy) == ViewOf(child)
    decreases Objects(child), 1
  {
    hide FilterNode.View, FilterNode.Linked;
    copy := null;
    if child != null { copy := Duplicate(child); }
  }

  /** The list of values behind an IN, last value first. */
  method NewList(field: string, t: FieldType, vals: seq<Value>) returns (ok: bool, list: FilterNode?)
    ensures ok <==> ListTree(field, t, vals).Some?
    ensures list != null ==> list.Linked() && fresh(list.below)
    ensures ok ==> ViewOf(list) == ListTree(field, t, vals).value
  {
    hide Validate, Fits;
    if vals == [] { return true, null; }
    ok, list := NewList(field, t, vals[1..]);
    if !ok { return; }
    var code := Validate(t, OpEq, vals[0]);
    if code == CodeErr || !Fits(t, vals[0]) { return false, null; }
    list := new FilterNode(OpEq, code, field, vals[0], null, list);
  }

  method NewLeaf(e: Expr) returns (node: FilterNode?)
    requires e.Exists? || e.Compare? || e.OneOf?
    ensures node == null <==> Compile(e).None?
    ensures node != null ==> node.Linked() && fresh(node.below) && node.View() == Compile(e).value
  {
    hide Validate, Fits, LookupFunc, ListTree, FilterNode.View, FilterNode.Linked;
    var t := LookupFunc(e.field);
    if t.None? { return null; }
    match e
    case Exists(field) => node := new FilterNode(OpExist, CodeErr, field, NoValue, null, null);
    case Compare(field, op, v) =>
      var oper := Actual(op);
      if oper == OpIn || !Fits(t.value, v) { return null; }
      var code := Validate(t.value, oper, v);
      if code == CodeErr { return null; }
      node := new FilterNode(oper, code, field, v, null, null);
    case OneOf(field, vals) =>
      if vals == [] { return null; }
      var ok, list := NewList(field, t.value, vals);
      if !ok { return null; }
      node := new FilterNode(OpIn, CodeErr, field, NoValue, null, list);
  }

  /** What the parser's actions do for an expression, innermost first. */
  method Build(e: Expr) returns (node: FilterNode?)
    ensures node == null <==> Compile(e).None?
    ensures node != null ==> node.Linked() && fresh(node.below) && node.View() == Compile(e).value
    decreases e
  {
    hide MakeNode;
    match e
    case Any => node := NewNode(null, OpYes, null);
    case Not(c) =>
      var t := Build(c);
      if t == null { return null; }
      node := NewNode(null, OpNot, t);
    case Both(a, b) =>
      var l := Build(a);
      if l == null { return null; }
      var r := Build(b);
      if r == null { return null; }
      node := NewNode(l, OpAnd, r);
    case Either(a, b) =>
      var l := Build(a);
      if l == null { return null; }
      var r := Build(b);
      if r == null { return null; }
      node := NewNode(l, OpOr, r);
    case _ => node := NewLeaf(e);
  }

  /** The evaluation of a node, with its loop over a list of values. */
  method Eval(rec: Flow, node: FilterNode?) returns (res: int)
    requires node != null ==> node.Linked()
    requires node != null ==> ListsThere(node.View())
    ensures res == EvalNode(rec, ViewOf(node))
    decreases Objects(node)
  {
    hide OperEval, EvalList, FilterNode.View;
    if node == null { return -1; }
    var left := 0;
    if node.oper == OpYes { return 1; }
    if node.left != null {
      left := Eval(rec, node.left);
      if node.oper == OpNot { return ToInt(left <= 0); }
      if node.oper == OpOr && left > 0 { return 1; }
      if node.oper == OpAnd && left <= 0 { return 0; }
    }
    if node.right != null {
      var right := Eval(rec, node.right);
      if node.oper == OpNot { return ToInt(right <= 0); }
      if node.oper == OpOr { return ToInt(left > 0 || right > 0); }
      if node.oper == OpAnd { return ToInt(left > 0 && right > 0); }
    }
    res := EvalLeaf(rec, node);
  }

  /** A node without subtrees to go by: its own field is compared. */
  method EvalLeaf(rec: Flow, node: FilterNode) returns (res: int)
    requires node.Linked() && (node.oper == OpIn ==> node.right != null) && node.oper != OpYes
    ensures res == LeafResult(rec, node.View())
  {
    hide OperEval, EvalList;
    if node.oper == OpExist {
      res := 1;
    } else if node.oper == OpIn {
      res := EvalValues(rec, node.field, node.right);
    } else if node.oper == OpNot || node.oper == OpOr || node.oper == OpAnd {
      res := -1;
    } else {
      res := OperEval(rec, node.field, node.code, node.val);
    }
  }

  /** Every IN has a list. */
  predicate ListsThere(t: Tree) {
    t.Nil? || ((t.oper == OpIn ==> t.right.Node?) && ListsThere(t.left) && ListsThere(t.right))
  }

  method EvalValues(rec: Flow, field: string, list: FilterNode) returns (res: int)
    requires list.Linked()
    ensures res == EvalList(rec, field, list.View())
  {
    hide OperEval;
    var node: FilterNode? := list;
    res := 0;
    while res <= 0 && node != null
      invariant node != null ==> node.Linked()
      invariant EvalList(rec, field, list.View()) == if res <= 0 && node != null then EvalList(rec, field, node.View()) else res
      decreases Objects(node)
    {
      res := OperEval(rec, field, node.code, node.val);
      node := node.right;
    }
  }

  /** Built trees have their lists. */
  lemma {:induction false} CompiledListsThere(e: Expr)
    requires Compile(e).Some?
    ensures ListsThere(Compile(e).value)
  {
    hide LookupFunc, Validate, Fits;
    match e
    case Not(c) => CompiledListsThere(c);
    case Both(a, b) =>
      CompiledListsThere(a);
      CompiledListsThere(b);
    case Either(a, b) =>
      CompiledListsThere(a);
      CompiledListsThere(b);
    case OneOf(field, vals) => ListListsThere(field, LookupFunc(field).value, vals);
    case _ =>
  }

  lemma {:induction false} ListListsThere(field: string, t: FieldType, vals: seq<Value>)
    requires ListTree(field, t, vals).Some?
    ensures ListsThere(ListTree(field, t, vals).value)
  {
    hide Validate, Fits;
    if vals != [] { ListListsThere(field, t, vals[1..]); }
  }

  /** Building and evaluating: a record passes exactly when the tree is positive, and for an expression that is evaluated as
      it reads, exactly when the expression is true of it. */
  method Passes(e: Expr, rec: Flow) returns (accepted: bool, passes: bool)
    ensures accepted <==> Compile(e).Some?
    ensures accepted ==> (passes <==> EvalNode(rec, Compile(e).value) > 0)
    ensures accepted && Typed(rec) && Plain(e) ==> (passes <==> Meaning(rec, e))
  {
    hide Compile, EvalNode, Meaning, Plain, Typed;
    var node := Build(e);
    if node == null { return false, false; }
    CompiledListsThere(e);
    if Typed(rec) && Plain(e) { CompileCorrect(rec, e); }
    var res := Eval(rec, node);
    return true, res > 0;
  }
}
