/** The builder: a traversal of the syntax tree that makes the tree of stages and their option strings, against a
    compile function that passes keys and window down as values. */
module Builder {
  import opened Ast
  import opened BranchNames
  import opened Decimals
  import opened StageSequence
  import opened StringFunctions

  /** A built stage: its option string and its successors. */
  datatype Node =
    | FilterNode(options: string, next: seq<Node>)
    | AggNode(options: string, next: seq<Node>)
    | SelectorNode(options: string)

  // ---- Option strings ----

  function WindowLetter(k: WindowType): string {
    match k
    case WActive => "A"
    case WPassive => "P"
    case WGlobal => "G"
    case WMixed => "M"
  }

  function FuncOption(f: AggrFunc): string {
    match f
    case ApSum => " -s "
    case ApAverage => " -a "
    case ApMinimal => " -m "
    case ApMaximal => " -M "
    case ApFirst => " -f "
    case ApLast => " -l "
    case ApOr => " -o "
    case ApAnd => " -n "
    case ApCountDistinct => " -c "
    case ApRate => " -r "
  }

  datatype WindowSpec = WindowSpec(kind: WindowType, range: nat)

  datatype Enclosing = NoWindow | In(window: WindowSpec)

  const MAX_WINDOW: WindowSpec := WindowSpec(WActive, 0x7fff_ffff)

  function KeyOptions(keys: seq<Unirec>): string {
    if keys == [] then "" else KeyOptions(keys[..|keys| - 1]) + " -k " + UnirecName(keys[|keys| - 1]) + " "
  }

  function WindowOption(w: WindowSpec): (s: string)
    ensures s != ""
  {
    " -t " + WindowLetter(w.kind) + ":" + Decimal(w.range) + " "
  }

  function WindowText(e: Enclosing): string {
    match e case NoWindow => "" case In(w) => WindowOption(w)
  }

  /** The enclosing window, or the longest active one. */
  function WindowOf(e: Enclosing): WindowSpec {
    match e case NoWindow => MAX_WINDOW case In(w) => w
  }

  function FuncText(item: AggrItem): string {
    match item
    case WithParam(_, func, param) => FuncOption(func) + UnirecName(param)
    case Count(_) => ""
  }

  function FuncOptions(items: seq<AggrItem>): string {
    if items == [] then "" else FuncOptions(items[..|items| - 1]) + FuncText(items[|items| - 1])
  }

  function AggOptions(keys: seq<Unirec>, w: WindowSpec, items: seq<AggrItem>): string {
    "param " + KeyOptions(keys) + WindowOption(w) + FuncOptions(items)
  }

  function Concat(parts: seq<string>): string {
    if parts == [] then "" else Concat(parts[..|parts| - 1]) + parts[|parts| - 1]
  }

  function ItemText(item: SelItem): string {
    match item
    case Keyword(field) => UnirecName(field)
    case Variable(name) => name
    case Assignment(name, operands) => name + "=" + Concat(operands)
  }

  function SelectorText(items: seq<SelItem>): string {
    if items == [] then ""
    else
      var before := SelectorText(items[..|items| - 1]);
      (if before != "" then before + "," else before) + ItemText(items[|items| - 1])
  }

  // ---- Aliases ----

  datatype BodyId = SelectorBody | GroupFilterBody

  /** A variable that is to be replaced has a name. */
  predicate Named(vs: seq<Var>) {
    forall i :: 0 <= i < |vs| && vs[i].alias != "" ==> vs[i].name != ""
  }

  function ApplyAlias(body: string, v: Var, id: BodyId): string
    requires v.alias != "" ==> v.name != ""
  {
    if v.alias == "" then body
    else if id == SelectorBody then SelectorAlias(body, v.name, v.alias)
    else Replaced(body, v.name, v.alias)
  }

  function ApplyAliases(body: string, vs: seq<Var>, id: BodyId): string
    requires Named(vs)
  {
    if vs == [] then body else ApplyAlias(ApplyAliases(body, vs[..|vs| - 1], id), vs[|vs| - 1], id)
  }

  /** The variable maps made while parsing. */
  datatype Maps = Maps(gfVars: map<string, seq<Var>>, selVars: map<string, seq<Var>>)

  type Env = m: Maps |
    (forall k :: k in m.gfVars ==> Named(m.gfVars[k])) && (forall k :: k in m.selVars ==> Named(m.selVars[k]))
    witness Maps(map[], map[])

  /** The variables of the group-filter or selector at this place. */
  function Aliases(env: Env, path: seq<string>, id: BodyId): (vs: seq<Var>)
    ensures Named(vs)
  {
    match id
    case GroupFilterBody => VarsAt(env.gfVars, VarsKey(Place(path, Gf)))
    case SelectorBody => VarsAt(env.selVars, VarsKey(Place(path, Se)))
  }

  function GroupFilterOptions(env: Env, body: string, path: seq<string>): string
  {
    ApplyAliases(body, Aliases(env, path, GroupFilterBody), GroupFilterBody)
  }

  function SelectorOptions(env: Env, items: seq<SelItem>, path: seq<string>, n: nat): string
  {
    Decimal(n) + ":" + ApplyAliases(SelectorText(items), Aliases(env, path, SelectorBody), SelectorBody)
  }

  // ---- The compile function ----

  /** The built nodes, and the number for the next selector. */
  datatype Compiled = Compiled(nodes: seq<Node>, n: nat)

  function Compile(env: Env, s: Stage, path: seq<string>, keys: seq<Unirec>, w: Enclosing, n: nat): Compiled
    decreases s
  {
    match s
    case Filter(body, succ) =>
      var c := CompileSucc(env, succ, path, keys, w, n);
      Compiled([FilterNode(body, c.nodes)], c.n)
    case Grouper(ks, succ) => CompileSucc(env, succ, path, ks, w, n)
    case Window(kind, range, succ) => CompileSucc(env, succ, path, keys, In(WindowSpec(kind, range)), n)
    case Aggregator(items, succ) =>
      var c := CompileSucc(env, succ, path, keys, w, n);
      Compiled([AggNode(AggOptions(keys, WindowOf(w), items), c.nodes)], c.n)
    case GroupFilter(body, succ) =>
      var c := CompileSucc(env, succ, path, keys, w, n);
      Compiled([FilterNode(GroupFilterOptions(env, body, path), c.nodes)], c.n)
    case Selector(items) => Compiled([SelectorNode(SelectorOptions(env, items, path, n))], n + 1)
  }

  function CompileSucc(env: Env, succ: Succ, path: seq<string>, keys: seq<Unirec>, w: Enclosing, n: nat): Compiled
    decreases succ
  {
    match succ
    case Then(s) => Compile(env, s, path, keys, w, n)
    case Split(bs) => CompileBranches(env, bs, path, keys, w, n)
  }

  function CompileBranches(env: Env, bs: seq<Branch>, path: seq<string>, keys: seq<Unirec>, w: Enclosing, n: nat): Compiled
    decreases bs
  {
    if bs == [] then Compiled([], n)
    else
      var head := Compile(env, bs[0].stage, path + [bs[0].name], keys, w, n);
      var tail := CompileBranches(env, bs[1..], path, keys, w, head.n);
      Compiled(head.nodes + tail.nodes, tail.n)
  }

  function CompileMain(env: Env, m: Main, path: seq<string>, n: nat): Compiled
    decreases m
  {
    match m.body
    case Pipeline(s) => Compile(env, s, path, [], NoWindow, n)
    case Nested(ms) => CompileMains(env, ms, path, n)
  }

  function CompileMains(env: Env, ms: seq<Main>, path: seq<string>, n: nat): Compiled
    decreases ms
  {
    if ms == [] then Compiled([], n)
    else
      var head := CompileMain(env, ms[0], path + [ms[0].name], n);
      var tail := CompileMains(env, ms[1..], path, head.n);
      Compiled(head.nodes + tail.nodes, tail.n)
  }

  // ---- The visitor ----

  /** The stack of successor vectors with these nodes appended to its top. */
  function Extended(st: seq<seq<Node>>, nodes: seq<Node>): (r: seq<seq<Node>>)
    requires st != []
    ensures |r| == |st|
  {
    st[..|st| - 1] + [st[|st| - 1] + nodes]
  }

  lemma ExtendedTwice(st: seq<seq<Node>>, a: seq<Node>, b: seq<Node>)
    requires st != []
    ensures Extended(Extended(st, a), b) == Extended(st, a + b)
  {
    var e := Extended(st, a);
    assert e[..|e| - 1] == st[..|st| - 1];
    assert (st[|st| - 1] + a) + b == st[|st| - 1] + (a + b);
  }

  lemma ExtendedNil(st: seq<seq<Node>>)
    requires st != []
    ensures Extended(st, []) == st
  {
    assert st[|st| - 1] + [] == st[|st| - 1];
  }

  class Builder {
    const env: Env
    var stack: seq<string>
    var bStack: seq<seq<Node>>
    var root: seq<Node>
    var groOpt: string
    var groDive: bool
    var winOpt: string
    var aggOpt: string
    var selOpt: string
    var selDive: bool
    var interfaceCounter: nat

    constructor (env: Env)
        ensures this.env == env && stack == [] && bStack == [] && root == [] && interfaceCounter == 0
      ensures Settled([], NoWindow, []) && aggOpt == ""
    {
      this.env := env;
      stack, bStack, root, interfaceCounter := [], [], [], 0;
      groOpt, winOpt, aggOpt, selOpt := "", "", "", "";
      groDive, selDive := false, false;
    }

    /** Between stages, the option strings hold the enclosing grouper and window, and a string that is in use
        belongs to a kind already seen on this way from the root. */
    ghost predicate Settled(keys: seq<Unirec>, w: Enclosing, seen: seq<Kind>)
      reads this`groOpt, this`winOpt, this`aggOpt, this`selOpt, this`groDive, this`selDive
    {
      && groOpt == KeyOptions(keys) && winOpt == WindowText(w) && selOpt == "" && !groDive && !selDive
      && (keys != [] ==> Gr in seen) && (w != NoWindow ==> Wi in seen) && (aggOpt != "" ==> Ag in seen)
    }

    method VisitUnirec(un: Unirec)
      modifies this`selOpt, this`groOpt
      ensures selOpt == if selDive then old(selOpt) + UnirecName(un) else old(selOpt)
      ensures groOpt == if groDive then old(groOpt) + " -k " + UnirecName(un) + " " else old(groOpt)
    {
      if selDive { selOpt := selOpt + UnirecName(un); }
      if groDive {
        groOpt := groOpt + " -k ";
        groOpt := groOpt + UnirecName(un);
        groOpt := groOpt + " ";
      }
    }

    method VisitString(str: string)
      modifies this`selOpt
      ensures selOpt == if selDive then old(selOpt) + str else old(selOpt)
    {
      if selDive { selOpt := selOpt + str; }
    }

    method VisitStage(s: Stage, ghost keys: seq<Unirec>, ghost w: Enclosing, ghost seen: seq<Kind>)
      requires bStack != [] && NoRepeat(s, seen) && Settled(keys, w, seen)
      modifies this
      ensures Settled(keys, w, seen) && aggOpt == old(aggOpt) && stack == old(stack) && root == old(root)
      ensures var c := Compile(env, s, stack, keys, w, old(interfaceCounter));
              interfaceCounter == c.n && bStack == Extended(old(bStack), c.nodes)
      decreases s, 1
    {
      hide Extended, KeyOptions, WindowOption, AggOptions, GroupFilterOptions, SelectorOptions, CompileSucc, NoRepeatSucc;
      match s
      case Filter(body, succ) =>
        PushVector();
        VisitSucc(succ, keys, w, seen + [Fi]);
        var my := PopVector(old(bStack), CompileSucc(env, succ, stack, keys, w, old(interfaceCounter)).nodes);
        Append(FilterNode(body, my));
      case Grouper(ks, succ) => VisitGrouper(s, keys, w, seen);
      case Window(_, _, _) => VisitWindow(s, keys, w, seen);
      case Aggregator(_, _) => VisitAggregator(s, keys, w, seen);
      case GroupFilter(body, succ) =>
        PushVector();
        VisitSucc(succ, keys, w, seen + [Gf]);
        var my := PopVector(old(bStack), CompileSucc(env, succ, stack, keys, w, old(interfaceCounter)).nodes);
        var options := AliasedGroupFilter(body);
        Append(FilterNode(options, my));
      case Selector(items) => VisitSelector(items, keys, w, seen);
    }

    method PushVector()
      modifies this`bStack
      ensures bStack == old(bStack) + [[]]
    {
      bStack := bStack + [[]];
    }

    /** The vector pushed before a visit holds what the visit made; below it nothing has changed. */
    method PopVector(ghost below: seq<seq<Node>>, ghost made: seq<Node>) returns (my: seq<Node>)
      requires bStack == Extended(below + [[]], made)
      modifies this`bStack
      ensures bStack == below && my == made
    {
      my := bStack[|bStack| - 1];
      bStack := bStack[..|bStack| - 1];
    }

    method Append(node: Node)
      requires bStack != []
      modifies this`bStack
      ensures bStack == Extended(old(bStack), [node])
    {
      var top := |bStack| - 1;
      bStack := bStack[top := bStack[top] + [node]];
    }

    method VisitKeys(keys: seq<Unirec>)
      requires groDive && !selDive && groOpt == ""
      modifies this`groOpt, this`selOpt
      ensures selOpt == old(selOpt) && groOpt == KeyOptions(keys)
    {
      hide UnirecName;
      for i := 0 to |keys|
        invariant selOpt == old(selOpt) && groOpt == KeyOptions(keys[..i])
      {
        VisitUnirec(keys[i]);
        assert keys[..i + 1][..i] == keys[..i];
      }
      assert keys[..|keys|] == keys;
    }

    static lemma NoKeysNoOptions(keys: seq<Unirec>)
      ensures keys == [] ==> KeyOptions(keys) == ""
    {
    }

    method VisitGrouper(s: Stage, ghost keys: seq<Unirec>, ghost w: Enclosing, ghost seen: seq<Kind>)
      requires s.Grouper? && bStack != [] && NoRepeat(s, seen) && Settled(keys, w, seen)
      modifies this
      ensures Settled(keys, w, seen) && aggOpt == old(aggOpt) && stack == old(stack) && root == old(root)
      ensures var c := Compile(env, s, stack, keys, w, old(interfaceCounter));
              interfaceCounter == c.n && bStack == Extended(old(bStack), c.nodes)
      decreases s, 0
    {
      hide Extended, WindowOption, UnirecName, CompileSucc, NoRepeatSucc, KeyOptions;
      NoKeysNoOptions(keys);
      groDive := true;
      VisitKeys(s.keys);
      groDive := false;
      VisitSucc(s.succ, s.keys, w, seen + [Gr]);
      groOpt := "";
    }

    method VisitWindow(s: Stage, ghost keys: seq<Unirec>, ghost w: Enclosing, ghost seen: seq<Kind>)
      requires s.Window? && bStack != [] && NoRepeat(s, seen) && Settled(keys, w, seen)
      modifies this
      ensures Settled(keys, w, seen) && aggOpt == old(aggOpt) && stack == old(stack) && root == old(root)
      ensures var c := Compile(env, s, stack, keys, w, old(interfaceCounter));
              interfaceCounter == c.n && bStack == Extended(old(bStack), c.nodes)
      decreases s, 0
    {
      hide Extended, KeyOptions, Decimal, WindowLetter, CompileSucc, NoRepeatSucc;
      winOpt := winOpt + " -t ";
      winOpt := winOpt + WindowLetter(s.kind);
      winOpt := winOpt + ":";
      winOpt := winOpt + Decimal(s.range);
      winOpt := winOpt + " ";
      VisitSucc(s.succ, keys, In(WindowSpec(s.kind, s.range)), seen + [Wi]);
      winOpt := "";
    }

    method VisitAggregator(s: Stage, ghost keys: seq<Unirec>, ghost w: Enclosing, ghost seen: seq<Kind>)
      requires s.Aggregator? && bStack != [] && NoRepeat(s, seen) && Settled(keys, w, seen)
      modifies this
      ensures Settled(keys, w, seen) && aggOpt == old(aggOpt) && stack == old(stack) && root == old(root)
      ensures var c := Compile(env, s, stack, keys, w, old(interfaceCounter));
              interfaceCounter == c.n && bStack == Extended(old(bStack), c.nodes)
      decreases s, 0
    {
      hide Extended, KeyOptions, WindowOption, FuncText, CompileSucc, NoRepeatSucc;
      for i := 0 to |s.functions|
        modifies this`aggOpt
        invariant aggOpt == FuncOptions(s.functions[..i])
      {
        aggOpt := aggOpt + FuncText(s.functions[i]);
        assert s.functions[..i + 1][..i] == s.functions[..i];
      }
      assert s.functions[..|s.functions|] == s.functions;
      PushVector();
      VisitSucc(s.succ, keys, w, seen + [Ag]);
      var my := PopVector(old(bStack), CompileSucc(env, s.succ, stack, keys, w, old(interfaceCounter)).nodes);
      var options := "param ";
      options := options + groOpt;
      options := options + if winOpt == "" then WindowOption(MAX_WINDOW) else winOpt;
      options := options + aggOpt;
      Append(AggNode(options, my));
      aggOpt := "";
    }

    method AliasedGroupFilter(body: string) returns (options: string)
        ensures options == GroupFilterOptions(env, body, stack)
    {
      hide Aliases, ApplyAliases;
      options := ApplyAllAliases(body, Aliases(env, stack, GroupFilterBody), GroupFilterBody);
    }

    static method ApplyAllAliases(source: string, aliases: seq<Var>, id: BodyId) returns (body: string)
      requires Named(aliases)
      ensures body == ApplyAliases(source, aliases, id)
    {
      hide SelectorAlias, Replaced;
      body := source;
      for i := 0 to |aliases|
        invariant body == ApplyAliases(source, aliases[..i], id)
      {
        ghost var before := body;
        var item := aliases[i];
        if item.alias != "" {
          if id == SelectorBody {
            body := ReplaceAliasesInSelectorBody(body, item.name, item.alias);
          } else {
            body := FindAndReplaceAll(body, item.name, item.alias);
          }
        }
        assert aliases[..i + 1][..i] == aliases[..i];
      }
      assert aliases[..|aliases|] == aliases;
    }

    method VisitSelector(items: seq<SelItem>, ghost keys: seq<Unirec>, ghost w: Enclosing, ghost seen: seq<Kind>)
      requires bStack != [] && Settled(keys, w, seen)
      modifies this
      ensures Settled(keys, w, seen) && aggOpt == old(aggOpt) && stack == old(stack) && root == old(root)
      ensures interfaceCounter == old(interfaceCounter) + 1
      ensures bStack == Extended(old(bStack), [SelectorNode(SelectorOptions(env, items, stack, old(interfaceCounter)))])
    {
      hide Extended, KeyOptions, WindowText, SelectorText, SelectorOptions, Decimal, ApplyAliases, Aliases, Named, Concat;
      selDive := true;
      VisitItems(items);
      selDive := false;
      var options := NumberedBody(items);
      interfaceCounter := interfaceCounter + 1;
      Append(SelectorNode(options));
      selOpt := "";
    }

    /** The next number, a colon, and the selector's text with its variables replaced. */
    method NumberedBody(ghost items: seq<SelItem>) returns (options: string)
      requires selOpt == SelectorText(items)
      ensures options == SelectorOptions(env, items, stack, interfaceCounter)
    {
      hide SelectorText, Decimal, Aliases, ApplyAliases, Named;
      options := Decimal(interfaceCounter);
      options := options + ":";
      var body := ApplyAllAliases(selOpt, Aliases(env, stack, SelectorBody), SelectorBody);
      options := options + body;
    }

    method VisitItems(items: seq<SelItem>)
      requires selDive && selOpt == ""
      modifies this`selOpt
      ensures selOpt == SelectorText(items)
    {
      hide ItemText;
      for i := 0 to |items|
        invariant selOpt == SelectorText(items[..i])
      {
        VisitItem(items[i]);
        assert items[..i + 1][..i] == items[..i];
      }
      assert items[..|items|] == items;
    }

    method VisitItem(item: SelItem)
      requires selDive
      modifies this`selOpt
      ensures selOpt == (if old(selOpt) != "" then old(selOpt) + "," else old(selOpt)) + ItemText(item)
    {
      hide UnirecName, Concat;
      if selOpt != "" { selOpt := selOpt + ","; }
      match item
      case Keyword(field) => selOpt := selOpt + UnirecName(field);
      case Variable(name) => selOpt := selOpt + name;
      case Assignment(name, operands) =>
        ghost var before := selOpt;
        selOpt := selOpt + name;
        selOpt := selOpt + "=";
        VisitOperands(operands);
        assert before + name + "=" + Concat(operands) == before + (name + "=" + Concat(operands));
    }

    method VisitOperands(operands: seq<string>)
      requires selDive
      modifies this`selOpt
      ensures selOpt == old(selOpt) + Concat(operands)
    {
      ghost var before := selOpt;
      assert before + "" == before;
      for i := 0 to |operands|
        invariant selOpt == before + Concat(operands[..i])
      {
        VisitString(operands[i]);
        assert operands[..i + 1][..i] == operands[..i];
        AppendedOnce(before, Concat(operands[..i]), operands[i]);
      }
      assert operands[..|operands|] == operands;
    }

    static lemma AppendedOnce(a: string, b: string, c: string)
      ensures (a + b) + c == a + (b + c)
    {
    }

    method VisitSucc(succ: Succ, ghost keys: seq<Unirec>, ghost w: Enclosing, ghost seen: seq<Kind>)
      requires bStack != [] && NoRepeatSucc(succ, seen) && Settled(keys, w, seen)
      modifies this
      ensures Settled(keys, w, seen) && aggOpt == old(aggOpt) && stack == old(stack) && root == old(root)
      ensures var c := CompileSucc(env, succ, stack, keys, w, old(interfaceCounter));
              interfaceCounter == c.n && bStack == Extended(old(bStack), c.nodes)
      decreases succ
    {
      hide Extended, KeyOptions, WindowText, Settled, Compile, NoRepeat;
      match succ
      case Then(s) => VisitStage(s, keys, w, seen);
      case Split(bs) =>
        ghost var total := CompileBranches(env, bs, stack, keys, w, interfaceCounter);
        assert bs[0..] == bs;
        for i := 0 to |bs|
          invariant bStack != [] && Settled(keys, w, seen)
          invariant aggOpt == old(aggOpt) && stack == old(stack) && root == old(root)
          invariant var rest := CompileBranches(env, bs[i..], stack, keys, w, interfaceCounter);
                    rest.n == total.n && Extended(bStack, rest.nodes) == Extended(old(bStack), total.nodes)
        {
          ghost var before := bStack;
          ghost var head := Compile(env, bs[i].stage, stack + [bs[i].name], keys, w, interfaceCounter);
          assert bs[i..][0] == bs[i] && bs[i..][1..] == bs[i + 1..];
          stack := stack + [bs[i].name];
          VisitStage(bs[i].stage, keys, w, seen);
          stack := stack[..|stack| - 1];
          ExtendedTwice(before, head.nodes, CompileBranches(env, bs[i + 1..], stack, keys, w, head.n).nodes);
        }
        ExtendedNil(bStack);
    }

    method VisitMain(m: Main)
      requires |stack| >= 1 && KindsOnce(m) && Settled([], NoWindow, []) && (|stack| > 1 ==> bStack != [])
      modifies this
      ensures Settled([], NoWindow, []) && aggOpt == old(aggOpt) && stack == old(stack)
      ensures var c := CompileMain(env, m, stack, old(interfaceCounter));
              && interfaceCounter == c.n
              && (if |stack| == 1 then root == old(root) + c.nodes && |bStack| == |old(bStack)| + 1
                  else root == old(root) && bStack == Extended(old(bStack), c.nodes))
      decreases m, 1
    {
      hide Settled, CompileMain, KindsOnce;
      if |stack| == 1 {
        bStack := bStack + [[]];
        VisitBody(m);
        root := root + bStack[|bStack| - 1];
      } else {
        VisitBody(m);
      }
    }

    method VisitBody(m: Main)
      requires |stack| >= 1 && bStack != [] && KindsOnce(m) && Settled([], NoWindow, [])
      modifies this
      ensures Settled([], NoWindow, []) && aggOpt == old(aggOpt) && stack == old(stack) && root == old(root)
      ensures var c := CompileMain(env, m, stack, old(interfaceCounter));
              interfaceCounter == c.n && bStack == Extended(old(bStack), c.nodes)
      decreases m, 0
    {
      hide Extended, Settled, Compile;
      match m.body
      case Pipeline(s) => VisitStage(s, [], NoWindow, []);
      case Nested(ms) =>
        ghost var total := CompileMains(env, ms, stack, interfaceCounter);
        assert ms[0..] == ms;
        for i := 0 to |ms|
          invariant bStack != [] && Settled([], NoWindow, [])
          invariant aggOpt == old(aggOpt) && stack == old(stack) && root == old(root)
          invariant var rest := CompileMains(env, ms[i..], stack, interfaceCounter);
                    rest.n == total.n && Extended(bStack, rest.nodes) == Extended(old(bStack), total.nodes)
        {
          ghost var before := bStack;
          ghost var head := CompileMain(env, ms[i], stack + [ms[i].name], interfaceCounter);
          assert ms[i..][0] == ms[i] && ms[i..][1..] == ms[i + 1..];
          stack := stack + [ms[i].name];
          VisitMain(ms[i]);
          stack := stack[..|stack| - 1];
          ExtendedTwice(before, head.nodes, CompileMains(env, ms[i + 1..], stack, head.n).nodes);
        }
        ExtendedNil(bStack);
    }

    /** The whole traversal: the root list is the compiled one, nested lists flattened into it. */
    method Build(mains: seq<Main>)
      requires stack == [] && root == [] && interfaceCounter == 0 && Settled([], NoWindow, [])
      requires forall i :: 0 <= i < |mains| ==> KindsOnce(mains[i])
      modifies this
      ensures stack == [] && Settled([], NoWindow, []) && aggOpt == old(aggOpt)
      ensures var c := CompileMains(env, mains, [], 0); root == c.nodes && interfaceCounter == c.n
    {
      hide Settled, CompileMain, KindsOnce, Extended;
      ghost var total := CompileMains(env, mains, [], 0);
      assert mains[0..] == mains;
      for i := 0 to |mains|
        invariant stack == [] && Settled([], NoWindow, []) && aggOpt == old(aggOpt)
        invariant var rest := CompileMains(env, mains[i..], [], interfaceCounter);
                  rest.n == total.n && root + rest.nodes == total.nodes
      {
        assert mains[i..][0] == mains[i] && mains[i..][1..] == mains[i + 1..];
        stack := stack + [mains[i].name];
        VisitMain(mains[i]);
        stack := stack[..|stack| - 1];
      }
    }
  }
}
