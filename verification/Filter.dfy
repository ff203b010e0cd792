/** The filter engine: building a node tree, where NOT is folded into a leaf's opcode when the opcode has a negation, and
    evaluating it with short-circuiting, value lists and errors, against the plain meaning of the expression. */
module Filter {
  import opened Bits
  import opened Wrappers
  import P = Prefix
  import SF = StringFunctions

  datatype Oper = OpNot | OpOr | OpAnd | OpIn | OpYes | OpNoop | OpEq | OpLt | OpGt | OpIsSet | OpExist

  datatype FieldType = TUint64 | TUint32 | TUint16 | TUint8 | TTimestamp | TAddr

  datatype Rel = EqRel | GtRel | LtRel | IsRel | InsRel

  /** The width an unsigned opcode reads; the generic opcodes go by the size that the data callback reports. */
  datatype Width = W64 | W32 | W16 | W8 | Generic

  /** `CodeErr` also stands for the opcode of nodes that never get one. */
  datatype Opcode = CodeErr | CodeIn | Ui(rel: Rel, width: Width) | Addr(op: P.AddrOp)

  datatype Value = NoValue | Num(n: nat) | Net(network: P.Network)

  /** The fields of a record, numbers and addresses. */
  datatype Flow = Flow(nums: map<string, nat>, addrs: map<string, seq<nat>>)

  function NumOf(rec: Flow, field: string): nat { if field in rec.nums then rec.nums[field] else 0 }

  function AddrOf(rec: Flow, field: string): (a: seq<nat>)
    ensures P.Address(a)
  {
    if field in rec.addrs && P.Address(rec.addrs[field]) then P.Seen(rec.addrs[field]) else [0, 0, 0, 0]
  }

  /** The fields filters know. */
  function LookupFunc(field: string): Option<FieldType> {
    if field == "DST_IP" || field == "SRC_IP" then Some(TAddr)
    else if field == "BYTES" || field == "LINK_BIT_FIELD" then Some(TUint64)
    else if field == "TIME_FIRST" || field == "TIME_LAST" then Some(TTimestamp)
    else if field == "PACKETS" || field == "COUNT" then Some(TUint32)
    else if field == "DST_PORT" || field == "SRC_PORT" then Some(TUint16)
    else if field == "DIR_BIT_FIELD" || field == "PROTOCOL" || field == "TCP_FLAGS" || field == "TOS" || field == "TTL"
      then Some(TUint8)
    else if SF.Find(field, "COUNT_DISTINCT", 0) >= 0 then Some(TUint64)
    else None
  }

  // ---- Opcodes ----

  function Negate(o: Opcode): Opcode {
    match o
    case Ui(IsRel, w) => Ui(InsRel, w)
    case Ui(InsRel, w) => Ui(IsRel, w)
    case _ => CodeErr
  }

  function WidthOf(t: FieldType): Width {
    match t
    case TUint64 => W64
    case TUint32 => W32
    case TUint16 => W16
    case TUint8 => W8
    case _ => Generic
  }

  function RelOf(op: Oper): Option<Rel> {
    match op
    case OpEq => Some(EqRel)
    case OpGt => Some(GtRel)
    case OpLt => Some(LtRel)
    case OpIsSet => Some(IsRel)
    case _ => None
  }

  /** The opcode for this operator on a field of this type, or the error. */
  function Validate(t: FieldType, op: Oper, v: Value): Opcode {
    if op == OpIn then CodeIn
    else if RelOf(op).None? then CodeErr
    else if t == TAddr then
      if op == OpEq && v.Net? && P.ProperNetwork(v.network) then Addr(P.ValidateAddr(P.NetOf(v.network))) else CodeErr
    else if t == TTimestamp && op == OpIsSet then CodeErr
    else Ui(RelOf(op).value, WidthOf(t))
  }

  predicate Holds(rel: Rel, x: nat, y: nat) {
    match rel
    case EqRel => x == y
    case GtRel => x > y
    case LtRel => x < y
    case IsRel => And(x, y) == y
    case InsRel => And(x, y) == 0
  }

  function ToInt(b: bool): int { if b then 1 else 0 }

  function Limit(w: Width): (r: nat)
    ensures r >= 1
  {
    match w case W64 => 0x1_0000_0000_0000_0000 case W32 => 0x1_0000_0000 case W16 => 0x1_0000 case W8 => 0x100
      case Generic => 1
  }

  /** Comparing one value: 1, 0, or -1 for an error. The generic opcodes go by the size of the data,
      up to 8 bytes; the data callback leaves it at the 128 bytes of the caller's buffer. */
  function OperEval(rec: Flow, field: string, code: Opcode, v: Value): int {
    match code
    case Ui(rel, w) =>
      if w == Generic || !v.Num? then -1 else ToInt(Holds(rel, NumOf(rec, field) % Limit(w), v.n))
    case Addr(op) =>
      if v.Net? && P.ProperNetwork(v.network) then ToInt(P.AddrEval(op, P.NetOf(v.network), AddrOf(rec, field))) else -1
    case _ => -1
  }

  // ---- Trees ----

  /** What a node and the nodes below it are at some moment. */
  datatype Tree = Nil | Node(oper: Oper, code: Opcode, field: string, val: Value, left: Tree, right: Tree)

  /** A new node; a NOT on a node whose opcode has a negation is that node with the opcode flipped. */
  function MakeNode(left: Tree, oper: Oper, right: Tree): Option<Tree> {
    if oper != OpNot then Some(Node(oper, CodeErr, "", NoValue, left, right))
    else if left.Nil? == right.Nil? then None
    else
      var child := if left.Nil? then right else left;
      if Negate(child.code) != CodeErr then Some(child.(code := Negate(child.code)))
      else Some(Node(OpNot, CodeErr, "", NoValue, left, right))
  }

  /** A list of values is compared until one holds. */
  function EvalList(rec: Flow, field: string, list: Tree): int {
    if list.Nil? then -1
    else
      var res := OperEval(rec, field, list.code, list.val);
      if res <= 0 && list.right.Node? then EvalList(rec, field, list.right) else res
  }

  function EvalNode(rec: Flow, t: Tree): int {
    if t.Nil? then -1
    else if t.oper == OpYes then 1
    else
      var left := if t.left.Nil? then 0 else EvalNode(rec, t.left);
      if t.left.Node? && t.oper == OpNot then ToInt(left <= 0)
      else if t.left.Node? && t.oper == OpOr && left > 0 then 1
      else if t.left.Node? && t.oper == OpAnd && left <= 0 then 0
      else if t.right.Node? && t.oper == OpNot then ToInt(EvalNode(rec, t.right) <= 0)
      else if t.right.Node? && t.oper == OpOr then ToInt(left > 0 || EvalNode(rec, t.right) > 0)
      else if t.right.Node? && t.oper == OpAnd then ToInt(left > 0 && EvalNode(rec, t.right) > 0)
      else LeafResult(rec, t)
  }

  function LeafResult(rec: Flow, t: Tree): int
    requires t.Node?
  {
    match t.oper
    case OpExist => 1
    case OpIn => EvalList(rec, t.field, t.right)
    case OpNot => -1
    case OpOr => -1
    case OpAnd => -1
    case _ => OperEval(rec, t.field, t.code, t.val)
  }

  // ---- Expressions ----

  /** A filter expression after parsing, its literals converted. */
  datatype Expr =
    | Any
    | Not(e: Expr)
    | Both(a: Expr, b: Expr)
    | Either(a: Expr, b: Expr)
    | Exists(field: string)
    | Compare(field: string, op: Oper, val: Value)
    | OneOf(field: string, vals: seq<Value>)

  /** An omitted operator is equality: no field is of a type for which it would be something else. */
  function Actual(op: Oper): Oper { if op == OpNoop then OpEq else op }

  /** A literal is of the field's kind, as conversion ensures. */
  predicate Fits(t: FieldType, v: Value) {
    if t == TAddr then v.Net? && P.ProperNetwork(v.network) else v.Num?
  }

  function ListTree(field: string, t: FieldType, vals: seq<Value>): Option<Tree> {
    if vals == [] then Some(Nil)
    else
      var rest := ListTree(field, t, vals[1..]);
      var code := Validate(t, OpEq, vals[0]);
      if rest.None? || code == CodeErr || !Fits(t, vals[0]) then None
      else Some(Node(OpEq, code, field, vals[0], Nil, rest.value))
  }

  /** The tree the parser's actions build; None is a rejected expression. */
  function Compile(e: Expr): Option<Tree> {
    match e
    case Any => MakeNode(Nil, OpYes, Nil)
    case Not(c) => var t := Compile(c); if t.None? then None else MakeNode(Nil, OpNot, t.value)
    case Both(a, b) => Join(Compile(a), OpAnd, Compile(b))
    case Either(a, b) => Join(Compile(a), OpOr, Compile(b))
    case Exists(field) =>
      if LookupFunc(field).None? then None else Some(Node(OpExist, CodeErr, field, NoValue, Nil, Nil))
    case Compare(field, op, v) =>
      var t := LookupFunc(field);
      if t.None? || Actual(op) == OpIn || !Fits(t.value, v) || Validate(t.value, Actual(op), v) == CodeErr then None
      else Some(Node(Actual(op), Validate(t.value, Actual(op), v), field, v, Nil, Nil))
    case OneOf(field, vals) =>
      var t := LookupFunc(field);
      if t.None? || vals == [] then None
      else
        var list := ListTree(field, t.value, vals);
        if list.None? then None else Some(Node(OpIn, CodeErr, field, NoValue, Nil, list.value))
  }

  function Join(l: Option<Tree>, oper: Oper, r: Option<Tree>): Option<Tree> {
    if l.None? || r.None? then None else MakeNode(l.value, oper, r.value)
  }

  /** Two-valued meaning of comparing a field. Timestamps never compare: their opcodes always report an error. */
  predicate Compares(rec: Flow, field: string, t: FieldType, op: Oper, v: Value) {
    && Fits(t, v)
    && t != TTimestamp
    && if t == TAddr then op == OpEq && P.Means(v.network, AddrOf(rec, field))
       else RelOf(op).Some? && Holds(RelOf(op).value, NumOf(rec, field), v.n)
  }

  /** What an expression means. */
  predicate Meaning(rec: Flow, e: Expr) {
    match e
    case Any => true
    case Not(c) => !Meaning(rec, c)
    case Both(a, b) => Meaning(rec, a) && Meaning(rec, b)
    case Either(a, b) => Meaning(rec, a) || Meaning(rec, b)
    case Exists(_) => true
    case Compare(field, op, v) =>
      LookupFunc(field).Some? && Compares(rec, field, LookupFunc(field).value, Actual(op), v)
    case OneOf(field, vals) =>
      LookupFunc(field).Some? && exists i :: 0 <= i < |vals| && Compares(rec, field, LookupFunc(field).value, OpEq, vals[i])
  }

  /** Numbers are within the width of their field. */
  predicate Typed(rec: Flow) {
    forall f :: f in rec.nums && LookupFunc(f).Some? && LookupFunc(f).value != TAddr && LookupFunc(f).value != TTimestamp
      ==> rec.nums[f] < Limit(WidthOf(LookupFunc(f).value))
  }

  // ---- Folding ----

  datatype Fold = NoFold | Positive(field: string, mask: nat) | Negative(field: string, mask: nat)

  /** A bit test under any number of NOTs. */
  function FoldOf(e: Expr): Fold {
    match e
    case Compare(field, op, v) => if op == OpIsSet && v.Num? then Positive(field, v.n) else NoFold
    case Not(c) =>
      (match FoldOf(c)
       case NoFold => NoFold
       case Positive(f, m) => Negative(f, m)
       case Negative(f, m) => Positive(f, m))
    case _ => NoFold
  }

  ghost predicate SingleBit(m: nat) { exists k: nat :: m == Pow2(k) }

  /** The masks whose folded NOT is the negation, for fields below the limit: a single bit, or bits out of the field's
      reach. */
  ghost predicate Negatable(m: nat, limit: nat)
    requires limit >= 1
  {
    SingleBit(m) || (m > 0 && m % limit == 0)
  }

  function FieldLimit(field: string): (limit: nat)
    ensures limit >= 1
  {
    match LookupFunc(field) case None => 1 case Some(t) => Limit(WidthOf(t))
  }

  predicate Masked(v: Value) { v.Net? && P.ProperNetwork(v.network) ==> P.HasMask(v.network) }

  /** Expressions that are evaluated as they read: bit tests that are negated, on balance, have a mask with a negation, and
      no network has an empty mask. */
  ghost predicate Plain(e: Expr) {
    match FoldOf(e)
    case Positive(_, _) => true
    case Negative(f, m) => Negatable(m, FieldLimit(f))
    case NoFold =>
      match e
      case Not(c) => Plain(c)
      case Both(a, b) => Plain(a) && Plain(b)
      case Either(a, b) => Plain(a) && Plain(b)
      case Compare(_, _, v) => Masked(v)
      case OneOf(_, vals) => forall i :: 0 <= i < |vals| ==> Masked(vals[i])
      case _ => true
  }

  lemma {:induction false} AndPow2(x: nat, k: nat)
    ensures And(x, Pow2(k)) == 0 || And(x, Pow2(k)) == Pow2(k)
    decreases k
  {
    if k > 0 && x > 0 { AndPow2(x / 2, k - 1); }
  }

  /** The highest bit of a positive number. */
  lemma {:induction false} HighBit(m: nat) returns (k: nat)
    requires m > 0
    ensures Pow2(k) <= m < 2 * Pow2(k) && And(Pow2(k), m) == Pow2(k)
  {
    if m == 1 {
      k := 0;
    } else {
      k := HighBit(m / 2);
      k := k + 1;
    }
  }

  /** The folded NOT is the negation for every value of k bits exactly when the mask is a single bit, or has bits but none
      within the k. */
  lemma FoldedNotIff(m: nat, k: nat)
    ensures (forall x: nat :: x < Pow2(k) ==> (Holds(InsRel, x, m) <==> !Holds(IsRel, x, m))) <==> Negatable(m, Pow2(k))
  {
    hide And, SingleBit;
    if Negatable(m, Pow2(k)) {
      forall x: nat | x < Pow2(k) ensures Holds(InsRel, x, m) <==> !Holds(IsRel, x, m) {
        NegatableHolds(m, k, x);
      }
    } else {
      var x := NotNegatable(m, k);
    }
  }

  lemma NegatableHolds(m: nat, k: nat, x: nat)
    requires Negatable(m, Pow2(k)) && x < Pow2(k)
    ensures Holds(InsRel, x, m) <==> !Holds(IsRel, x, m)
  {
    hide And;
    if SingleBit(m) {
      var j: nat :| m == Pow2(j);
      AndPow2(x, j);
    } else {
      AndLow(x, m, k);
      AndNone(x);
    }
  }

  /** A value for which the folded NOT is not the negation. */
  lemma NotNegatable(m: nat, k: nat) returns (x: nat)
    requires !Negatable(m, Pow2(k))
    ensures x < Pow2(k) && !(Holds(InsRel, x, m) <==> !Holds(IsRel, x, m))
  {
    hide And;
    if m == 0 {
      x := 0;
      AndNone(0);
    } else {
      var low := m % Pow2(k);
      ModAtMost(m, Pow2(k));
      var j := HighBit(low);
      x := Pow2(j);
      AndLow(x, m, k);
      assert m != x;
    }
  }

  lemma ModAtMost(m: nat, d: nat)
    requires d >= 1
    ensures m % d <= m && m % d < d
  {
  }

  lemma AndNone(x: nat)
    ensures And(x, 0) == 0
  {
  }

  /** With any mask but zero, the folded NOT still implies the negation. */
  lemma FoldedNotImplies(m: nat, x: nat)
    ensures Holds(InsRel, x, m) ==> (!Holds(IsRel, x, m) <==> m != 0)
  {
  }

  lemma NegateTwice(o: Opcode)
    ensures Negate(o) != CodeErr ==> Negate(Negate(o)) == o
  {
  }

  /** Folding twice restores the node. */
  lemma FoldTwice(t: Tree)
    requires t.Node? && Negate(t.code) != CodeErr
    ensures MakeNode(Nil, OpNot, t).Some? && MakeNode(Nil, OpNot, MakeNode(Nil, OpNot, t).value) == Some(t)
  {
    NegateTwice(t.code);
  }

  // ---- Compile correctness ----

  lemma ReadNumber(rec: Flow, field: string, t: FieldType)
    requires Typed(rec) && LookupFunc(field) == Some(t) && t != TAddr && t != TTimestamp
    ensures NumOf(rec, field) % Limit(WidthOf(t)) == NumOf(rec, field)
  {
    hide LookupFunc;
    if field in rec.nums { assert rec.nums[field] < Limit(WidthOf(t)); }
  }

  /** One comparison is positive exactly when it holds, given a network with a mask. */
  lemma LeafCorrect(rec: Flow, field: string, t: FieldType, op: Oper, v: Value)
    requires Typed(rec) && LookupFunc(field) == Some(t) && Fits(t, v) && op != OpIn && Validate(t, op, v) != CodeErr
    requires Masked(v)
    ensures OperEval(rec, field, Validate(t, op, v), v) > 0 <==> Compares(rec, field, t, op, v)
  {
    hide LookupFunc, Holds, Typed, P.AddrEval, AddrOf, Limit, P.Means, P.HasMask, P.NetOf, P.ValidateAddr;
    if t == TAddr {
      P.NetworkMatches(v.network, AddrOf(rec, field));
    } else if t != TTimestamp {
      ReadNumber(rec, field, t);
    }
  }

  lemma {:induction false} ListCorrect(rec: Flow, field: string, t: FieldType, vals: seq<Value>)
    requires Typed(rec) && LookupFunc(field) == Some(t) && vals != [] && ListTree(field, t, vals).Some?
    requires forall i :: 0 <= i < |vals| ==> Masked(vals[i])
    ensures ListTree(field, t, vals).value.Node?
    ensures EvalList(rec, field, ListTree(field, t, vals).value) > 0
      <==> exists i :: 0 <= i < |vals| && Compares(rec, field, t, OpEq, vals[i])
  {
    hide LookupFunc, Validate, OperEval, Compares, Typed, Fits, Masked;
    LeafCorrect(rec, field, t, OpEq, vals[0]);
    if |vals| > 1 {
      ListCorrect(rec, field, t, vals[1..]);
      if EvalList(rec, field, ListTree(field, t, vals[1..]).value) > 0 {
        var i :| 0 <= i < |vals[1..]| && Compares(rec, field, t, OpEq, vals[1..][i]);
        assert Compares(rec, field, t, OpEq, vals[i + 1]);
      }
      forall i | 1 <= i < |vals| && Compares(rec, field, t, OpEq, vals[i])
        ensures EvalList(rec, field, ListTree(field, t, vals[1..]).value) > 0
      {
        assert vals[1..][i - 1] == vals[i];
      }
    }
  }

  /** The tree of a folded bit test, and what it means. */
  lemma {:induction false} FoldedTree(rec: Flow, e: Expr)
    requires Typed(rec) && Compile(e).Some? && FoldOf(e) != NoFold
    ensures var t := Compile(e).value;
            && t.Node? && t.oper == OpIsSet && t.left.Nil? && t.right.Nil?
            && Meaning(rec, e) == (FoldOf(e).Positive? == Holds(IsRel, NumOf(rec, FoldOf(e).field), FoldOf(e).mask))
            && t.field == FoldOf(e).field
            && t.code == Ui(if FoldOf(e).Positive? then IsRel else InsRel, FieldWidth(FoldOf(e).field))
            && t.code.width != Generic
            && t.val == Num(FoldOf(e).mask)
  {
    hide LookupFunc, Holds, Typed, NumOf;
    match e
    case Not(c) => FoldedTree(rec, c);
    case Compare(field, op, v) =>
  }

  lemma FoldedValue(rec: Flow, e: Expr)
    requires Typed(rec) && Compile(e).Some? && FoldOf(e) != NoFold
    ensures var x, m := NumOf(rec, FoldOf(e).field), FoldOf(e).mask;
            var rel := if FoldOf(e).Positive? then IsRel else InsRel;
            && x < FieldLimit(FoldOf(e).field)
            && (EvalNode(rec, Compile(e).value) > 0 <==> Holds(rel, x, m))
            && (Meaning(rec, e) <==> (FoldOf(e).Positive? <==> Holds(IsRel, x, m)))
  {
    hide LookupFunc, Holds, Typed, Compile, Meaning, FoldOf, Limit, NumOf;
    FoldedTree(rec, e);
    var f := FoldOf(e).field;
    ReadNumber(rec, f, LookupFunc(f).value);
    assert NumOf(rec, f) % Limit(FieldWidth(f)) == NumOf(rec, f);
    ModAtMost(NumOf(rec, f), Limit(FieldWidth(f)));
  }

  function FieldWidth(field: string): Width {
    match LookupFunc(field) case None => Generic case Some(t) => WidthOf(t)
  }

  function BitCount(w: Width): nat {
    match w case W64 => 64 case W32 => 32 case W16 => 16 case W8 => 8 case Generic => 0
  }

  lemma LimitIsPow2(w: Width)
    ensures Limit(w) == Pow2(BitCount(w))
  {
    hide Pow2;
    SmallPowers();
    Pow2Add(8, 8);
    Pow2Add(16, 16);
    Pow2Add(32, 32);
  }

  lemma SmallPowers()
    ensures Pow2(0) == 1 && Pow2(8) == 0x100
  {
  }

  /** A negated bit test, folded into the opcode, is evaluated as it reads on every record exactly when its mask is a single
      bit, or has bits but none that the field can have. */
  lemma FoldedIff(e: Expr)
    requires Compile(e).Some? && FoldOf(e).Negative?
    ensures (forall rec: Flow :: Typed(rec) ==> (EvalNode(rec, Compile(e).value) > 0 <==> Meaning(rec, e)))
       <==> Negatable(FoldOf(e).mask, FieldLimit(FoldOf(e).field))
  {
    hide LookupFunc, Holds, Typed, Compile, Meaning, FoldOf, Limit, NumOf, EvalNode, Negatable, FieldLimit;
    var f, m := FoldOf(e).field, FoldOf(e).mask;
    FieldLimitIsPow2(f);
    if Negatable(m, FieldLimit(f)) {
      forall rec: Flow | Typed(rec) ensures EvalNode(rec, Compile(e).value) > 0 <==> Meaning(rec, e) {
        FoldedValue(rec, e);
        NegatableHolds(m, BitCount(FieldWidth(f)), NumOf(rec, f));
      }
    } else {
      var x := NotNegatable(m, BitCount(FieldWidth(f)));
      var rec := Flow(map[f := x], map[]);
      OneNumber(f, x);
      FoldedValue(rec, e);
    }
  }

  lemma FieldLimitIsPow2(field: string)
    ensures FieldLimit(field) == Pow2(BitCount(FieldWidth(field)))
  {
    hide LookupFunc;
    LimitIsPow2(FieldWidth(field));
  }

  lemma OneNumber(field: string, x: nat)
    requires x < FieldLimit(field)
    ensures var rec := Flow(map[field := x], map[]); Typed(rec) && NumOf(rec, field) == x
  {
    hide LookupFunc, Limit;
  }

  /** Evaluating an expression that is a folded bit test. */
  lemma FoldedCorrect(rec: Flow, e: Expr)
    requires Typed(rec) && Compile(e).Some? && FoldOf(e) != NoFold && Plain(e)
    ensures EvalNode(rec, Compile(e).value) > 0 <==> Meaning(rec, e)
  {
    hide LookupFunc, Holds, Typed, Compile, Meaning, FoldOf, Limit, Negatable, EvalNode, FieldLimit;
    FoldedValue(rec, e);
    if FoldOf(e).Negative? { FoldedIff(e); }
  }

  lemma {:induction false} CompiledIsNode(e: Expr)
    requires Compile(e).Some?
    ensures Compile(e).value.Node?
    ensures FoldOf(e) == NoFold ==> Negate(Compile(e).value.code) == CodeErr
  {
    hide LookupFunc;
    match e
    case Not(c) => CompiledIsNode(c);
    case Both(a, b) =>
    case Either(a, b) =>
    case _ =>
  }

  /** The theorem: for every expression whose negated bit tests have a mask with a negation and whose networks have a mask,
      the tree is positive exactly when the expression is true. */
  lemma {:induction false} CompileCorrect(rec: Flow, e: Expr)
    requires Typed(rec) && Compile(e).Some? && Plain(e)
    ensures EvalNode(rec, Compile(e).value) > 0 <==> Meaning(rec, e)
  {
    hide LookupFunc, Typed, Validate, OperEval, Compares, Fits, EvalList, ListTree, Negatable, Masked;
    if FoldOf(e) != NoFold {
      FoldedCorrect(rec, e);
    } else {
      match e
      case Any =>
      case Not(c) =>
        CompiledIsNode(c);
        CompileCorrect(rec, c);
      case Both(a, b) =>
        CompiledIsNode(a);
        CompiledIsNode(b);
        CompileCorrect(rec, a);
        CompileCorrect(rec, b);
      case Either(a, b) =>
        CompiledIsNode(a);
        CompiledIsNode(b);
        CompileCorrect(rec, a);
        CompileCorrect(rec, b);
      case Exists(field) =>
      case Compare(field, op, v) => CompareCorrect(rec, field, op, v);
      case OneOf(field, vals) => ListCorrect(rec, field, LookupFunc(field).value, vals);
    }
  }

  lemma CompareCorrect(rec: Flow, field: string, op: Oper, v: Value)
    requires Typed(rec) && Compile(Compare(field, op, v)).Some? && Masked(v)
    ensures EvalNode(rec, Compile(Compare(field, op, v)).value) > 0 <==> Meaning(rec, Compare(field, op, v))
  {
    hide LookupFunc, Typed, OperEval, Compares, Fits, Masked;
    LeafCorrect(rec, field, LookupFunc(field).value, Actual(op), v);
  }

  /** Comparing with a network is evaluated as it reads on every record exactly when the network's mask is not empty. */
  lemma NetworkIff(field: string, op: Oper, w: P.Network)
    requires Compile(Compare(field, op, Net(w))).Some?
    ensures P.ProperNetwork(w)
    ensures (forall rec: Flow :: Typed(rec) ==>
               (EvalNode(rec, Compile(Compare(field, op, Net(w))).value) > 0 <==> Meaning(rec, Compare(field, op, Net(w)))))
       <==> P.HasMask(w)
  {
    hide LookupFunc, Typed, P.Means, P.HasMask, P.NetOf, Compile, EvalNode, Meaning, P.Matches, AddrOf;
    var e := Compare(field, op, Net(w));
    assert P.ProperNetwork(w) by { NetworkLeaf(Flow(map[], map[]), field, op, w); }
    if P.HasMask(w) {
      forall rec: Flow | Typed(rec) ensures EvalNode(rec, Compile(e).value) > 0 <==> Meaning(rec, e) {
        CompareCorrect(rec, field, op, Net(w));
      }
    } else {
      var one, zero := [0, 0, 0, 1], [0, 0, 0, 0];
      var r1, r0 := Flow(map[], map[field := one]), Flow(map[], map[field := zero]);
      OneAddress(field, one);
      OneAddress(field, zero);
      NetworkLeaf(r1, field, op, w);
      NetworkLeaf(r0, field, op, w);
      P.ZeroMask(w, one);
      P.ZeroMask(w, zero);
      P.ZeroMaskMeans(w, one, zero);
      assert one[3] != zero[3];
      assert Typed(r1) && Typed(r0) by { NoNumbers(r1); NoNumbers(r0); }
    }
  }

  lemma NoNumbers(rec: Flow)
    requires rec.nums == map[]
    ensures Typed(rec)
  {
    hide LookupFunc;
  }

  lemma OneAddress(field: string, rc: seq<nat>)
    requires P.Address(rc) && rc[3] != P.ONES
    ensures AddrOf(Flow(map[], map[field := rc]), field) == rc
  {
  }

  lemma NetworkLeaf(rec: Flow, field: string, op: Oper, w: P.Network)
    requires Compile(Compare(field, op, Net(w))).Some?
    ensures P.ProperNetwork(w)
    ensures var e := Compare(field, op, Net(w));
            && (EvalNode(rec, Compile(e).value) > 0 <==> P.Matches(P.NetOf(w), AddrOf(rec, field)))
            && (Meaning(rec, e) <==> P.Means(w, AddrOf(rec, field)))
  {
    hide LookupFunc, P.Means, P.NetOf, P.AddrEval, P.ValidateAddr, AddrOf;
  }
}
