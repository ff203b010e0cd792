/** The aggregator's configuration: registering fields, setting the timeout, and the option loop that drives both. */
module Configuration {
  import opened Ast
  import opened Builder
  import opened Decimals
  import opened Options
  import opened Records
  import opened Sequences
  import opened Tokenizer
  import opened Wrappers
  import AF = AggFunctions
  import SF = StringFunctions

  // ---- Members ----

  datatype Role = KeyRole | FuncRole(func: AF.Func) | DistinctRole(of: string)

  /** A configured field: its name in the output and what it is for. */
  datatype Member = Member(role: Role, name: string)

  const STATIC_FIELDS: string := "TIME_FIRST,TIME_LAST,COUNT"

  const MAX_KEY_FIELDS: nat := 32

  predicate Assignable(ms: seq<Member>, name: string) {
    name != "TIME_LAST" && name != "TIME_FIRST" && forall i :: 0 <= i < |ms| ==> ms[i].name != name
  }

  /** There is room; for a COUNT_DISTINCT, for one more than that. */
  predicate Room(ms: seq<Member>, role: Role) {
    if role.DistinctRole? then |ms| + 1 < MAX_KEY_FIELDS else |ms| < MAX_KEY_FIELDS
  }

  function Absorb(ms: seq<Member>, m: Member): seq<Member> {
    if Room(ms, m.role) && Assignable(ms, m.name) then ms + [m] else ms
  }

  function AbsorbAll(ms: seq<Member>, new_: seq<Member>): seq<Member> {
    if new_ == [] then ms else Absorb(AbsorbAll(ms, new_[..|new_| - 1]), new_[|new_| - 1])
  }

  function MemberNames(ms: seq<Member>): (r: seq<string>)
    ensures |r| == |ms| && forall i :: 0 <= i < |ms| ==> r[i] == ms[i].name
  {
    if ms == [] then [] else MemberNames(ms[..|ms| - 1]) + [ms[|ms| - 1].name]
  }

  /** A list that can be registered as a whole. */
  predicate Registrable(ms: seq<Member>) {
    && |ms| <= MAX_KEY_FIELDS
    && NoDuplicates(MemberNames(ms))
    && forall i :: 0 <= i < |ms| ==>
         && ms[i].name != "TIME_LAST" && ms[i].name != "TIME_FIRST"
         && (ms[i].role.DistinctRole? ==> i + 1 < MAX_KEY_FIELDS)
  }

  lemma {:induction false} AbsorbAllLength(new_: seq<Member>)
    ensures |AbsorbAll([], new_)| <= |new_|
  {
    if new_ != [] { AbsorbAllLength(new_[..|new_| - 1]); }
  }

  /** Every wanted field is registered, in order, exactly when none is a time or comes twice and they fit. */
  lemma {:induction false} AbsorbAllIff(new_: seq<Member>)
    ensures AbsorbAll([], new_) == new_ <==> Registrable(new_)
    ensures Registrable(AbsorbAll([], new_))
  {
    hide NoDuplicates;
    if new_ == [] {
      NoDuplicatesEmpty();
    } else {
      var init, m := new_[..|new_| - 1], new_[|new_| - 1];
      var ms := AbsorbAll([], init);
      AbsorbAllIff(init);
      AbsorbAllLength(init);
      assert new_ == init + [m];
      AbsorbRegistrable(init, m);
      AbsorbRegistrable(ms, m);
    }
  }

  lemma NoDuplicatesEmpty()
    ensures NoDuplicates(MemberNames([]))
  {
  }

  lemma AbsorbRegistrable(ms: seq<Member>, m: Member)
    ensures Registrable(ms + [m]) <==> Registrable(ms) && Room(ms, m.role) && Assignable(ms, m.name)
  {
    hide NoDuplicates;
    var names := MemberNames(ms);
    assert (ms + [m])[..|ms|] == ms;
    assert MemberNames(ms + [m]) == names + [m.name];
    NoDuplicatesAppend(names, [m.name]);
    assert NoDuplicates([m.name]) by { NoDuplicatesOne(m.name); }
    assert forall i :: 0 <= i < |ms| ==> (ms + [m])[i] == ms[i];
    assert (ms + [m])[|ms|] == m;
    assert (forall i :: 0 <= i < |ms| ==> names[i] !in [m.name]) <==> (forall i :: 0 <= i < |ms| ==> ms[i].name != m.name);
  }

  lemma NoDuplicatesOne(name: string)
    ensures NoDuplicates([name])
  {
  }

  // ---- Timeouts ----

  const ACTIVE: nat := 0
  const PASSIVE: nat := 1
  const GLOBAL: nat := 2
  const MIXED: nat := 3
  const DEFAULT_TIMEOUT: int := 10

  /** The current type, and the lengths of the active, passive and global timeouts. */
  datatype Timeouts = Timeouts(kind: nat, values: seq<int>)

  predicate Proper(t: Timeouts) { t.kind <= MIXED && |t.values| == 3 }

  predicate AllPositive(t: Timeouts) { |t.values| == 3 && forall i :: 0 <= i < 3 ==> t.values[i] > 0 }

  const FRESH: Timeouts := Timeouts(ACTIVE, [DEFAULT_TIMEOUT, DEFAULT_TIMEOUT, DEFAULT_TIMEOUT])

  function KindAfter(kind: nat, c: char): nat {
    if c == 'a' || c == 'A' then ACTIVE
    else if c == 'p' || c == 'P' then PASSIVE
    else if c == 'g' || c == 'G' then GLOBAL
    else if c == 'm' || c == 'M' then MIXED
    else kind
  }

  const LONG_MAX: int := 0x7fff_ffff_ffff_ffff

  /** atoi as glibc has it: strtol saturates at 64 bits, the result is cut to 32. */
  function Atoi(s: string): int {
    var t := SF.SkipBlanks(s);
    if t != "" && t[0] == '-' then
      var n: int := NumberOf(DigitPrefix(t[1..]));
      ToInt32(if n > LONG_MAX then -LONG_MAX - 1 else -n)
    else
      var n := NumberOf(DigitPrefix(if t != "" && t[0] == '+' then t[1..] else t));
      ToInt32(if n > LONG_MAX then LONG_MAX else n)
  }

  /** A lone number is stored at the current type, and there is no element for the mixed type: then the program writes
      behind its table. */
  predicate InRange(t: Timeouts, input: string) {
    t.kind == MIXED && |input| <= 21 ==>
      var first := Strtok(input, ':');
      first.Token? ==> Strtok(first.rest, ':').Token?
  }

  /** Storing a length; what would be written behind the table is dropped. */
  function Put(values: seq<int>, kind: nat, x: int): (r: seq<int>)
    ensures |r| == |values|
  {
    if kind < |values| then values[kind := x] else values
  }

  /** A timeout that is not positive becomes the default. */
  function Positive(t: Timeouts): Timeouts
    requires Proper(t)
  {
    if t.kind == MIXED then
      if t.values[ACTIVE] <= 0 || t.values[PASSIVE] <= 0
      then Timeouts(MIXED, [DEFAULT_TIMEOUT, DEFAULT_TIMEOUT, t.values[GLOBAL]])
      else t
    else if t.values[t.kind] <= 0 then t.(values := t.values[t.kind := DEFAULT_TIMEOUT])
    else t
  }

  /** "first:second": the type and its length, or "m:active,passive". */
  function TypedTimeout(t: Timeouts, first: string, second: string): (t': Timeouts)
    requires Proper(t) && first != ""
    ensures Proper(t')
  {
    var kind := KindAfter(t.kind, first[0]);
    if kind == MIXED then
      var active := Strtok(second, ',');
      if active.NoToken? then Timeouts(MIXED, t.values)
      else
        var passive := Strtok(active.rest, ',');
        if passive.NoToken? then Timeouts(ACTIVE, t.values)
        else Timeouts(MIXED, [Atoi(active.text), Atoi(passive.text), t.values[GLOBAL]])
    else Timeouts(kind, t.values[kind := Atoi(second)])
  }

  /** Whatever is read, the timeouts stay positive. */
  function TimeoutAfter(t: Timeouts, input: string): (t': Timeouts)
    requires Proper(t)
    ensures Proper(t') && (AllPositive(t) ==> AllPositive(t'))
  {
    if |input| > 21 then t
    else
      var first := Strtok(input, ':');
      if first.NoToken? then Positive(t)
      else
        var second := Strtok(first.rest, ':');
        Positive(if second.Token? then TypedTimeout(t, first.text, second.text)
                 else t.(values := Put(t.values, t.kind, Atoi(first.text))))
  }

  // ---- The class ----

  class Config {
    const members: array<Member>
    const timeout: array<int>
    var usedFields: nat
    var timeoutType: nat

    ghost predicate Valid()
      reads this, members, timeout
    {
      members.Length == MAX_KEY_FIELDS && timeout.Length == 3 && usedFields <= MAX_KEY_FIELDS && timeoutType <= MIXED
    }

    ghost function Members(): seq<Member>
      requires Valid()
      reads this, members, timeout
    {
      members[..usedFields]
    }

    ghost function View(): (t: Timeouts)
      requires Valid()
      reads this, members, timeout
      ensures Proper(t)
    {
      Timeouts(timeoutType, timeout[..])
    }

    constructor ()
      ensures Valid() && fresh(members) && fresh(timeout)
      ensures Members() == [] && View() == FRESH
    {
      members := new Member[MAX_KEY_FIELDS](_ => Member(KeyRole, ""));
      timeout := new int[3];
      usedFields, timeoutType := 0, ACTIVE;
      new;
      for i := 0 to timeout.Length
        modifies timeout
        invariant forall k :: 0 <= k < i ==> timeout[k] == DEFAULT_TIMEOUT
      {
        timeout[i] := DEFAULT_TIMEOUT;
      }
    }

    method VerifyField(name: string) returns (ok: bool)
      requires Valid()
      ensures ok <==> Assignable(Members(), name)
    {
      if name == "TIME_LAST" || name == "TIME_FIRST" { return false; }
      for i := 0 to usedFields
        invariant forall k :: 0 <= k < i ==> members[k].name != name
      {
        if name == members[i].name {
          assert Members()[i].name == name;
          return false;
        }
      }
      return true;
    }

    method AddMember(role: Role, name: string)
      requires Valid() && !role.DistinctRole?
      modifies this`usedFields, members
      ensures Valid() && Members() == Absorb(old(Members()), Member(role, name)) && View() == old(View())
    {
      if usedFields >= MAX_KEY_FIELDS { return; }
      var ok := VerifyField(name);
      if !ok { return; }
      members[usedFields] := Member(role, name);
      usedFields := usedFields + 1;
    }

    method AddPtrMember(field: string)
      requires Valid()
      modifies this`usedFields, members
      ensures Valid() && View() == old(View())
      ensures Members() == Absorb(old(Members()), Member(DistinctRole(field), "COUNT_DISTINCT_" + field))
    {
      var expanded := "COUNT_DISTINCT";
      expanded := expanded + "_";
      expanded := expanded + field;
      assert expanded == "COUNT_DISTINCT_" + field;
      if usedFields + 1 >= MAX_KEY_FIELDS { return; }
      var ok := VerifyField(expanded);
      if !ok { return; }
      members[usedFields] := Member(DistinctRole(field), expanded);
      usedFields := usedFields + 1;
    }

    /** `inRange` is false when the program would write behind its table; the write itself is not modelled. */
    method SetTimeout(input: string) returns (inRange: bool)
      requires Valid()
      modifies this`timeoutType, timeout
      ensures Valid() && View() == TimeoutAfter(old(View()), input) && Members() == old(Members())
      ensures inRange <==> InRange(old(View()), input)
    {
      hide Strtok, Atoi;
      inRange := true;
      if |input| > 21 { return; }
      var first := Strtok(input, ':');
      if first.Token? {
        var second := Strtok(first.rest, ':');
        if second.Token? {
          timeoutType := KindAfter(timeoutType, first.text[0]);
          if timeoutType == MIXED {
            var active := Strtok(second.text, ',');
            if active.Token? {
              var passive := Strtok(active.rest, ',');
              if passive.Token? {
                timeout[ACTIVE] := Atoi(active.text);
                timeout[PASSIVE] := Atoi(passive.text);
              } else {
                timeoutType := ACTIVE;
              }
            }
          } else {
            timeout[timeoutType] := Atoi(second.text);
          }
        } else if timeoutType < timeout.Length {
          timeout[timeoutType] := Atoi(first.text);
        } else {
          inRange := false;
        }
      }
      if timeoutType == MIXED {
        if timeout[ACTIVE] <= 0 || timeout[PASSIVE] <= 0 {
          timeout[ACTIVE] := DEFAULT_TIMEOUT;
          timeout[PASSIVE] := DEFAULT_TIMEOUT;
        }
      } else if timeout[timeoutType] <= 0 {
        timeout[timeoutType] := DEFAULT_TIMEOUT;
      }
    }

    /** The output template: the configured names, then the three fields every output has; and the size of its
        buffer, which leaves one place for the terminating zero. */
    method ReturnTemplateDef() returns (def: string, len: nat)
      requires Valid()
      ensures def == SF.Intercalate(MemberNames(Members()) + [STATIC_FIELDS], ",")
      ensures len == |def| + 1
    {
      hide STATIC_FIELDS;
      ghost var names := MemberNames(Members());
      len := |STATIC_FIELDS| + 1;
      for i := 0 to usedFields
        invariant len == |STATIC_FIELDS| + 1 + |Listed(names[..i])|
      {
        len := len + |members[i].name| + 1;
        assert names[..i + 1][..i] == names[..i] && names[i] == members[i].name;
      }
      def := "";
      for i := 0 to usedFields
        invariant def == Listed(names[..i])
      {
        def := def + members[i].name;
        def := def + ",";
        assert names[..i + 1][..i] == names[..i] && names[i] == members[i].name;
      }
      assert names[..usedFields] == names;
      ListedIsJoin(names, STATIC_FIELDS);
      def := def + STATIC_FIELDS;
    }

    method ReadOption(opt: char, arg: string) returns (inRange: bool)
      requires Valid()
      modifies this, members, timeout
      ensures Valid()
      ensures Members() == AbsorbSome(old(Members()), MemberOf((opt, arg)))
      ensures View() == if opt == 't' then TimeoutAfter(old(View()), arg) else old(View())
      ensures inRange <==> (opt == 't' ==> InRange(old(View()), arg))
    {
      hide Absorb, TimeoutAfter, InRange;
      inRange := true;
      if opt == 't' {
        inRange := SetTimeout(arg);
      } else if opt == 'c' {
        AddPtrMember(arg);
      } else if RoleOf(opt).Some? {
        AddMember(RoleOf(opt).value, arg);
      }
    }

    /** The option loop of the aggregator's start. */
    method ReadOptions(options: seq<(char, string)>) returns (inRange: bool)
      requires Valid()
      modifies this, members, timeout
      ensures Valid()
      ensures Members() == AbsorbAll(old(Members()), MembersOf(options))
      ensures View() == SetAll(old(View()), TimeoutArgs(options))
      ensures inRange <==> AllInRange(old(View()), TimeoutArgs(options))
    {
      hide Absorb, AbsorbAll, MembersOf, MemberOf, TimeoutAfter, InRange, TimeoutArgs, SetAll, AllInRange;
      NoOptions(Members(), View());
      assert options[..0] == [];
      inRange := true;
      for i := 0 to |options|
        invariant Valid()
        invariant Members() == AbsorbAll(old(Members()), MembersOf(options[..i]))
        invariant View() == SetAll(old(View()), TimeoutArgs(options[..i]))
        invariant inRange <==> AllInRange(old(View()), TimeoutArgs(options[..i]))
      {
        ReadOne(old(Members()), old(View()), options, i);
        var ok := ReadOption(options[i].0, options[i].1);
        inRange := inRange && ok;
      }
      assert options[..|options|] == options;
    }
  }

  // ---- The option loop as a function ----

  function RoleOf(opt: char): (r: Option<Role>)
    ensures r.Some? ==> !r.value.DistinctRole? && opt != 'c' && opt != 't'
  {
    match opt
    case 'k' => Some(KeyRole)
    case 's' => Some(FuncRole(AF.Sum))
    case 'a' => Some(FuncRole(AF.Avg))
    case 'm' => Some(FuncRole(AF.Min))
    case 'M' => Some(FuncRole(AF.Max))
    case 'f' => Some(FuncRole(AF.First))
    case 'l' => Some(FuncRole(AF.Last))
    case 'o' => Some(FuncRole(AF.BitOr))
    case 'n' => Some(FuncRole(AF.BitAnd))
    case 'r' => Some(FuncRole(AF.Rate))
    case _ => None
  }

  function MemberOf(o: (char, string)): (r: seq<Member>)
    ensures |r| <= 1
  {
    if o.0 == 'c' then [Member(DistinctRole(o.1), "COUNT_DISTINCT_" + o.1)]
    else if RoleOf(o.0).Some? then [Member(RoleOf(o.0).value, o.1)]
    else []
  }

  function MembersOf(options: seq<(char, string)>): seq<Member> {
    if options == [] then [] else MembersOf(options[..|options| - 1]) + MemberOf(options[|options| - 1])
  }

  function TimeoutArgs(options: seq<(char, string)>): seq<string> {
    if options == [] then []
    else
      var o := options[|options| - 1];
      TimeoutArgs(options[..|options| - 1]) + (if o.0 == 't' then [o.1] else [])
  }

  function SetAll(t: Timeouts, args: seq<string>): (t': Timeouts)
    requires Proper(t)
    ensures Proper(t') && (AllPositive(t) ==> AllPositive(t'))
  {
    if args == [] then t else TimeoutAfter(SetAll(t, args[..|args| - 1]), args[|args| - 1])
  }

  /** No timeout of the list is a lone number while the type is mixed. */
  predicate AllInRange(t: Timeouts, args: seq<string>)
    requires Proper(t)
  {
    args == [] || (AllInRange(t, args[..|args| - 1]) && InRange(SetAll(t, args[..|args| - 1]), args[|args| - 1]))
  }

  function AbsorbSome(ms: seq<Member>, some: seq<Member>): seq<Member>
    requires |some| <= 1
  {
    if some == [] then ms else Absorb(ms, some[0])
  }

  lemma AbsorbOne(ms: seq<Member>, a: seq<Member>, b: seq<Member>)
    requires |b| <= 1
    ensures AbsorbAll(ms, a + b) == AbsorbSome(AbsorbAll(ms, a), b)
  {
    if b == [] { assert a + b == a; } else { assert (a + b)[..|a|] == a; }
  }

  lemma NoOptions(ms: seq<Member>, t: Timeouts)
    requires Proper(t)
    ensures AbsorbAll(ms, MembersOf([])) == ms && TimeoutArgs([]) == [] && SetAll(t, []) == t
    ensures AllInRange(t, [])
  {
  }

  /** Reading one more option: a member is absorbed, a timeout is the next one set. */
  lemma ReadOne(ms: seq<Member>, t: Timeouts, options: seq<(char, string)>, i: nat)
    requires i < |options| && Proper(t)
    ensures var before, after := TimeoutArgs(options[..i]), TimeoutArgs(options[..i + 1]);
            && AbsorbAll(ms, MembersOf(options[..i + 1]))
                 == AbsorbSome(AbsorbAll(ms, MembersOf(options[..i])), MemberOf(options[i]))
            && (options[i].0 != 't' ==> after == before)
            && (options[i].0 == 't' ==>
                  && SetAll(t, after) == TimeoutAfter(SetAll(t, before), options[i].1)
                  && (AllInRange(t, after) <==> AllInRange(t, before) && InRange(SetAll(t, before), options[i].1)))
  {
    hide InRange, TimeoutAfter, SetAll, AllInRange, AbsorbAll, AbsorbSome, MemberOf;
    AbsorbOne(ms, MembersOf(options[..i]), MemberOf(options[i]));
    var before := TimeoutArgs(options[..i]);
    assert options[..i + 1][..i] == options[..i];
    if options[i].0 == 't' {
      SetOne(t, before, options[i].1);
    } else {
      assert before + [] == before;
    }
  }

  lemma SetOne(t: Timeouts, args: seq<string>, arg: string)
    requires Proper(t)
    ensures SetAll(t, args + [arg]) == TimeoutAfter(SetAll(t, args), arg)
    ensures AllInRange(t, args + [arg]) <==> AllInRange(t, args) && InRange(SetAll(t, args), arg)
  {
    hide InRange, TimeoutAfter;
    assert (args + [arg])[..|args|] == args;
  }

  // ---- The output template ----

  function Listed(names: seq<string>): string {
    if names == [] then "" else Listed(names[..|names| - 1]) + names[|names| - 1] + ","
  }

  lemma {:induction false} ListedIsJoin(names: seq<string>, last: string)
    ensures Listed(names) + last == SF.Intercalate(names + [last], ",")
  {
    if names == [] {
      assert names + [last] == [last];
    } else {
      var init, name := names[..|names| - 1], names[|names| - 1];
      ListedIsJoin(init, name);
      assert init + [name] == names;
      SF.IntercalateSnoc(names, last, ",");
    }
  }

  const FIXED: seq<string> := ["TIME_FIRST", "TIME_LAST", "COUNT"]

  lemma FixedJoined()
    ensures SF.Intercalate(FIXED, ",") == STATIC_FIELDS
    ensures forall i :: 0 <= i < |FIXED| ==> ',' !in FIXED[i]
  {
    assert FIXED[1..] == ["TIME_LAST", "COUNT"] && FIXED[1..][1..] == ["COUNT"];
    assert SF.Intercalate(["COUNT"], ",") == "COUNT";
    assert SF.Intercalate(["TIME_LAST", "COUNT"], ",") == "TIME_LAST" + "," + "COUNT";
    assert SF.Intercalate(FIXED, ",") == "TIME_FIRST" + "," + ("TIME_LAST" + "," + "COUNT");
  }

  /** Cutting the template at commas gives back the configured names and the three static fields. */
  lemma TemplateFields(names: seq<string>)
    requires forall i :: 0 <= i < |names| ==> ',' !in names[i]
    ensures SF.Split(SF.Intercalate(names + [STATIC_FIELDS], ","), ",") == names + FIXED
  {
    hide SF.Split, STATIC_FIELDS, FIXED;
    FixedJoined();
    FixedThere();
    if names == [] {
      assert names + [STATIC_FIELDS] == [STATIC_FIELDS];
      assert names + FIXED == FIXED;
    } else {
      IntercalateAppend(names, FIXED, ",");
      SF.IntercalateSnoc(names, STATIC_FIELDS, ",");
    }
    SF.JoinSplit(names + FIXED, ',');
  }

  lemma FixedThere()
    ensures FIXED != []
  {
  }

  // ---- Round trip from the rules ----

  lemma AtoiDecimal(n: nat)
    requires n < 0x1_0000_0000
    ensures Atoi(Decimal(n)) == if n <= 0x7fff_ffff then n else n - 0x1_0000_0000
  {
    hide Decimal, DigitPrefix, NumberOf;
    var s := Decimal(n);
    assert IsDigit(s[0]);
    DigitPrefixAll(s);
    NumberOfDecimal(n);
  }

  lemma Pow10Ten()
    ensures 0x1_0000_0000 < Pow10(10)
  {
    assert Pow10(5) == 100000;
    assert Pow10(8) == 1000 * Pow10(5);
  }

  /** "letter:number" is two tokens. */
  lemma TimeoutTokens(letter: char, n: nat)
    requires letter != ':'
    ensures Strtok([letter] + ":" + Decimal(n), ':') == Token([letter], Decimal(n))
    ensures Strtok(Decimal(n), ':') == Token(Decimal(n), "")
    ensures Strtok(Decimal(n), ',') == Token(Decimal(n), "")
  {
    hide Decimal;
    var d := Decimal(n);
    assert IsDigit(d[0]) && ':' !in d && ',' !in d;
    SF.FindChar([letter], d, ':');
    SF.FindChar(d, "", ':');
    SF.FindChar(d, "", ',');
    var s := [letter] + ":" + d;
    assert s == [letter] + [':'] + d;
    assert s[..1] == [letter] && s[2..] == d;
  }

  function KindCode(k: WindowType): nat {
    match k case WActive => ACTIVE case WPassive => PASSIVE case WGlobal => GLOBAL case WMixed => MIXED
  }

  lemma WindowLetterKind(k: WindowType, kind: nat)
    ensures |WindowLetter(k)| == 1 && WindowLetter(k)[0] != ':' && KindAfter(kind, WindowLetter(k)[0]) == KindCode(k)
  {
  }

  /** The timeouts after a printed window with one range: its type, and the exact number when it is from 1 to 2^31-1; any
      other becomes the default of 10. A mixed window, having one range only, falls back to the active type. */
  function ReadBack(w: WindowSpec, t: Timeouts): Timeouts
    requires |t.values| == 3
  {
    if w.kind == WMixed then Timeouts(ACTIVE, t.values)
    else
      var n := if 1 <= w.range <= 0x7fff_ffff then w.range else DEFAULT_TIMEOUT;
      Timeouts(KindCode(w.kind), t.values[KindCode(w.kind) := n])
  }

  /** A configuration that reads a printed window. */
  lemma TimeoutReadBack(w: WindowSpec, t: Timeouts)
    requires w.range < 0x1_0000_0000 && Proper(t) && t.kind != MIXED && t.values[ACTIVE] > 0
    ensures TimeoutAfter(t, TimeoutText(w)) == ReadBack(w, t) && InRange(t, TimeoutText(w))
  {
    hide Decimal, Strtok, Atoi, WindowLetter, KindAfter;
    var letter := WindowLetter(w.kind);
    WindowLetterKind(w.kind, t.kind);
    assert letter == [letter[0]];
    TimeoutTokens(letter[0], w.range);
    Pow10Ten();
    DecimalLength(w.range, 10);
    AtoiDecimal(w.range);
    StrtokNothing();
  }

  lemma StrtokNothing()
    ensures Strtok("", ':') == NoToken && Strtok("", ',') == NoToken
  {
  }

  /** The fields the rules ask for. */
  function FuncOf(f: AggrFunc): AF.Func
    requires f != ApCountDistinct
  {
    match f
    case ApSum => AF.Sum
    case ApAverage => AF.Avg
    case ApMinimal => AF.Min
    case ApMaximal => AF.Max
    case ApFirst => AF.First
    case ApLast => AF.Last
    case ApOr => AF.BitOr
    case ApAnd => AF.BitAnd
    case ApRate => AF.Rate
  }

  function WantedItem(item: AggrItem): (r: seq<Member>)
    ensures |r| <= 1
  {
    match item
    case Count(_) => []
    case WithParam(_, func, param) =>
      if func == ApCountDistinct then [Member(DistinctRole(UnirecName(param)), "COUNT_DISTINCT_" + UnirecName(param))]
      else [Member(FuncRole(FuncOf(func)), UnirecName(param))]
  }

  function WantedKeys(keys: seq<Unirec>): seq<Member> {
    if keys == [] then [] else WantedKeys(keys[..|keys| - 1]) + [Member(KeyRole, UnirecName(keys[|keys| - 1]))]
  }

  function WantedItems(items: seq<AggrItem>): seq<Member> {
    if items == [] then [] else WantedItems(items[..|items| - 1]) + WantedItem(items[|items| - 1])
  }

  lemma {:induction false} MembersOfAppend(a: seq<(char, string)>, b: seq<(char, string)>)
    ensures MembersOf(a + b) == MembersOf(a) + MembersOf(b)
    ensures TimeoutArgs(a + b) == TimeoutArgs(a) + TimeoutArgs(b)
  {
    hide MemberOf;
    if b == [] {
      assert a + b == a;
    } else {
      var init, o := b[..|b| - 1], b[|b| - 1];
      MembersOfAppend(a, init);
      assert (a + b)[..|a + b| - 1] == a + init && (a + b)[|a + b| - 1] == o;
      assert (MembersOf(a) + MembersOf(init)) + MemberOf(o) == MembersOf(a) + (MembersOf(init) + MemberOf(o));
      var more := if o.0 == 't' then [o.1] else [];
      assert (TimeoutArgs(a) + TimeoutArgs(init)) + more == TimeoutArgs(a) + (TimeoutArgs(init) + more);
    }
  }

  lemma {:induction false} KeyPairMembers(keys: seq<Unirec>)
    ensures MembersOf(KeyPairs(keys)) == WantedKeys(keys) && TimeoutArgs(KeyPairs(keys)) == []
  {
    hide UnirecName;
    if keys != [] {
      var init := keys[..|keys| - 1];
      KeyPairMembers(init);
      var p := ('k', UnirecName(keys[|keys| - 1]));
      assert (KeyPairs(init) + [p])[..|KeyPairs(init)|] == KeyPairs(init);
    }
  }

  lemma FuncPairMember(item: AggrItem)
    ensures MembersOf(FuncPair(item)) == WantedItem(item) && TimeoutArgs(FuncPair(item)) == []
  {
    hide UnirecName;
    if item.WithParam? {
      var p := (FuncLetter(item.func), UnirecName(item.param));
      assert [p][..0] == [] && MembersOf([p]) == MembersOf([]) + MemberOf(p);
      assert TimeoutArgs([p]) == TimeoutArgs([]) + [];
    }
  }

  lemma {:induction false} FuncPairMembers(items: seq<AggrItem>)
    ensures MembersOf(FuncPairs(items)) == WantedItems(items) && TimeoutArgs(FuncPairs(items)) == []
  {
    hide FuncPair, WantedItem;
    if items != [] {
      var init, item := items[..|items| - 1], items[|items| - 1];
      FuncPairMembers(init);
      FuncPairMember(item);
      MembersOfAppend(FuncPairs(init), FuncPair(item));
    }
  }

  /** What a fresh configuration makes of an option string; None when it overflows the buffer. */
  function Configured(options: string): (r: Option<(seq<Member>, Timeouts)>)
    ensures r.Some? ==> Proper(r.value.1) && AllPositive(r.value.1)
  {
    match ReadText(options)
    case None => None
    case Some(opts) => Some((AbsorbAll([], MembersOf(opts)), SetAll(FRESH, TimeoutArgs(opts))))
  }

  lemma {:induction false} WantedKeysLength(keys: seq<Unirec>)
    ensures |WantedKeys(keys)| == |KeyPairs(keys)|
  {
    hide UnirecName;
    if keys != [] { WantedKeysLength(keys[..|keys| - 1]); }
  }

  lemma {:induction false} WantedItemsLength(items: seq<AggrItem>)
    ensures |WantedItems(items)| == |FuncPairs(items)|
  {
    hide UnirecName, FuncLetter, FuncOf;
    if items != [] { WantedItemsLength(items[..|items| - 1]); }
  }

  /** What can be registered is at most 33 options, in a text that fits the buffer. */
  lemma RegistrableFits(keys: seq<Unirec>, w: WindowSpec, items: seq<AggrItem>)
    requires w.range < 0x1_0000_0000 && Registrable(WantedKeys(keys) + WantedItems(items))
    ensures |Pairs(keys, w, items)| <= 33 && |AggOptions(keys, w, items)| < MAX_STRING
  {
    hide WantedKeys, WantedItems, KeyPairs, FuncPairs, AggOptions, TimeoutText, NoDuplicates, MemberNames;
    WantedKeysLength(keys);
    WantedItemsLength(items);
    Pow10Ten();
    DecimalLength(w.range, 10);
    TextLength(keys, w, items);
  }

  /** The printed options, all of them read, as members and a timeout. */
  lemma PairsRead(keys: seq<Unirec>, w: WindowSpec, items: seq<AggrItem>)
    requires w.range < 0x1_0000_0000
    ensures MembersOf(Pairs(keys, w, items)) == WantedKeys(keys) + WantedItems(items)
    ensures SetAll(FRESH, TimeoutArgs(Pairs(keys, w, items))) == ReadBack(w, FRESH)
    ensures AllInRange(FRESH, TimeoutArgs(Pairs(keys, w, items)))
  {
    hide KeyPairs, FuncPairs, TimeoutText, WantedKeys, WantedItems, TimeoutAfter, InRange;
    var k, t, f := KeyPairs(keys), ('t', TimeoutText(w)), FuncPairs(items);
    KeyPairMembers(keys);
    FuncPairMembers(items);
    MembersOfAppend(k, [t]);
    MembersOfAppend(k + [t], f);
    TimeoutPair(TimeoutText(w));
    assert WantedKeys(keys) + [] == WantedKeys(keys);
    TimeoutReadBack(w, FRESH);
    NoOptions([], FRESH);
    SetOne(FRESH, [], TimeoutText(w));
    assert ([] + [TimeoutText(w)]) + [] == [TimeoutText(w)];
  }

  /** The whole way from a rule's keys, window and functions through the printed text to the configuration. All of them
      arrive, in order, exactly when no field is a time or comes twice and there are not too many; and then the window
      arrives as TimeoutReadBack says. */
  lemma ConfiguredAsRuled(keys: seq<Unirec>, w: WindowSpec, items: seq<AggrItem>)
    requires w.range < 0x1_0000_0000
    ensures var wanted := WantedKeys(keys) + WantedItems(items);
            var r := Configured(AggOptions(keys, w, items));
            && (r.Some? && r.value.0 == wanted <==> Registrable(wanted))
            && (Registrable(wanted) ==> r.value.1 == ReadBack(w, FRESH))
  {
    hide ReadText, AggOptions, Pairs, Registrable, AbsorbAll, WantedKeys, WantedItems, SetAll, AllInRange;
    var wanted := WantedKeys(keys) + WantedItems(items);
    OptionsReadBack(keys, w, items);
    PairsRead(keys, w, items);
    AbsorbAllIff(wanted);
    if Registrable(wanted) {
      RegistrableFits(keys, w, items);
    } else if ReadText(AggOptions(keys, w, items)).Some? {
      AbsorbAllIff(MembersOf(ReadText(AggOptions(keys, w, items)).value));
    }
  }

  lemma TimeoutPair(arg: string)
    ensures MembersOf([('t', arg)]) == [] && TimeoutArgs([('t', arg)]) == [arg]
  {
    assert [('t', arg)][..0] == [];
  }

  // ---- The configuration the aggregator runs with ----

  /** The size in bytes of a record field. */
  function FieldSize(u: Unirec): nat {
    match u
    case DstIp => 16
    case SrcIp => 16
    case Bytes => 8
    case LinkBitField => 8
    case TimeFirst => 8
    case TimeLast => 8
    case Packets => 4
    case DstPort => 2
    case SrcPort => 2
    case DirBitField => 1
    case Protocol => 1
    case TcpFlags => 1
    case Tos => 1
    case Ttl => 1
  }

  const UNIRECS: seq<Unirec> :=
    [DstIp, SrcIp, Bytes, LinkBitField, TimeFirst, TimeLast, Packets, DstPort, SrcPort, DirBitField, Protocol, TcpFlags,
     Tos, Ttl]

  /** The record field with this name. */
  function FindField(name: string, us: seq<Unirec>): Option<Unirec> {
    if us == [] then None else if UnirecName(us[0]) == name then Some(us[0]) else FindField(name, us[1..])
  }

  lemma UnirecNamesDiffer(u: Unirec, v: Unirec)
    ensures UnirecName(u) == UnirecName(v) <==> u == v
  {
    var x, y := UnirecName(u), UnirecName(v);
    assert |x| >= 3 && |y| >= 3;
    assert u != v ==> |x| != |y| || x[0] != y[0] || x[1] != y[1];
  }

  lemma {:induction false} FindFieldName(u: Unirec, us: seq<Unirec>)
    requires u in us
    ensures FindField(UnirecName(u), us) == Some(u)
  {
    hide UnirecName;
    UnirecNamesDiffer(u, us[0]);
    if u != us[0] { FindFieldName(u, us[1..]); }
  }

  lemma EveryUnirec(u: Unirec)
    ensures u in UNIRECS
  {
    var i := match u
      case DstIp => 0
      case SrcIp => 1
      case Bytes => 2
      case LinkBitField => 3
      case TimeFirst => 4
      case TimeLast => 5
      case Packets => 6
      case DstPort => 7
      case SrcPort => 8
      case DirBitField => 9
      case Protocol => 10
      case TcpFlags => 11
      case Tos => 12
      case Ttl => 13;
    assert UNIRECS[i] == u;
  }

  /** The type of a record field: an address, or a number of the field's size. */
  function TypeOf(u: Unirec): AF.FieldType {
    if u.DstIp? || u.SrcIp? then AF.Address else AF.Unsigned(8 * FieldSize(u))
  }

  predicate IsTime(u: Unirec) { u.TimeFirst? || u.TimeLast? }

  /** A member that an aggregator cannot run with: a field that records do not have, at which the start fails; or the
      COUNT_DISTINCT of a time, whose vector has no allocating function, so that the first record calls a null pointer. */
  predicate Unsupported(m: Member) {
    var field := FindField(if m.role.DistinctRole? then m.role.of else m.name, UNIRECS);
    field.None? || (m.role.DistinctRole? && IsTime(field.value))
  }

  function KeyPart(m: Member): seq<KeyField>
    requires !Unsupported(m)
  {
    if m.role.KeyRole? then [KeyField(m.name, FieldSize(FindField(m.name, UNIRECS).value))] else []
  }

  function FieldPart(m: Member): seq<AF.Field>
    requires !Unsupported(m)
  {
    if m.role.FuncRole? then [AF.Field(m.name, m.role.func, TypeOf(FindField(m.name, UNIRECS).value))] else []
  }

  function DistinctPart(m: Member): seq<string> { if m.role.DistinctRole? then [m.role.of] else [] }

  /** Keys, plain functions and COUNT_DISTINCT fields of a configuration, if it can run. */
  function Parts(ms: seq<Member>): Option<(seq<KeyField>, seq<AF.Field>, seq<string>)> {
    if ms == [] then Some(([], [], []))
    else
      var before, m := Parts(ms[..|ms| - 1]), ms[|ms| - 1];
      if before.None? || Unsupported(m) then None
      else
        var p := before.value;
        Some((p.0 + KeyPart(m), p.1 + FieldPart(m), p.2 + DistinctPart(m)))
  }

  function ModelWindow(t: Timeouts): AF.Window
    requires Proper(t) && AllPositive(t)
  {
    if t.kind == ACTIVE then AF.Active(t.values[ACTIVE])
    else if t.kind == PASSIVE then AF.Passive(t.values[PASSIVE])
    else if t.kind == GLOBAL then AF.Global(t.values[GLOBAL])
    else AF.Mixed(t.values[ACTIVE], t.values[PASSIVE])
  }

  function ModelConfig(ms: seq<Member>, t: Timeouts): Option<AF.Config>
    requires Proper(t) && AllPositive(t)
  {
    match Parts(ms)
    case None => None
    case Some(p) => Some(AF.Config(p.0, p.1, p.2, ModelWindow(t)))
  }

  /** The configuration that an option string starts an aggregator with; None when it cannot run. */
  function Started(options: string): Option<AF.Config> {
    match Configured(options)
    case None => None
    case Some((ms, t)) => ModelConfig(ms, t)
  }

  /** The same, said of the rule. */
  function RuleKeys(keys: seq<Unirec>): seq<KeyField> {
    if keys == [] then []
    else var u := keys[|keys| - 1]; RuleKeys(keys[..|keys| - 1]) + [KeyField(UnirecName(u), FieldSize(u))]
  }

  function RuleField(item: AggrItem): seq<AF.Field> {
    if item.WithParam? && item.func != ApCountDistinct
    then [AF.Field(UnirecName(item.param), FuncOf(item.func), TypeOf(item.param))] else []
  }

  function RuleFields(items: seq<AggrItem>): seq<AF.Field> {
    if items == [] then [] else RuleFields(items[..|items| - 1]) + RuleField(items[|items| - 1])
  }

  function RuleDistinctItem(item: AggrItem): seq<string> {
    if item.WithParam? && item.func == ApCountDistinct then [UnirecName(item.param)] else []
  }

  function RuleDistinct(items: seq<AggrItem>): seq<string> {
    if items == [] then [] else RuleDistinct(items[..|items| - 1]) + RuleDistinctItem(items[|items| - 1])
  }

  /** The window a rule gets: one with its range when that is from 1 to 2^31-1, otherwise 10 seconds; an active one of 10
      seconds for a mixed window. */
  function RuleWindow(w: WindowSpec): AF.Window {
    var n := if 1 <= w.range <= 0x7fff_ffff then w.range else 10;
    match w.kind
    case WActive => AF.Active(n)
    case WPassive => AF.Passive(n)
    case WGlobal => AF.Global(n)
    case WMixed => AF.Active(10)
  }

  /** A rule that counts the different values of a time. */
  predicate CountsTime(items: seq<AggrItem>) {
    exists i :: 0 <= i < |items| && TimeItem(items[i])
  }

  predicate TimeItem(item: AggrItem) { item.WithParam? && item.func == ApCountDistinct && IsTime(item.param) }

  lemma {:induction false} KeyParts(keys: seq<Unirec>)
    ensures Parts(WantedKeys(keys)) == Some((RuleKeys(keys), [], []))
  {
    hide UnirecName, FieldSize, FindField, TypeOf;
    if keys != [] {
      var init, u := keys[..|keys| - 1], keys[|keys| - 1];
      KeyParts(init);
      EveryUnirec(u);
      FindFieldName(u, UNIRECS);
      PartsSnoc(WantedKeys(init), Member(KeyRole, UnirecName(u)));
    }
  }

  lemma PartsSnoc(ms: seq<Member>, m: Member)
    ensures Parts(ms + [m])
         == if Parts(ms).None? || Unsupported(m) then None
            else Some((Parts(ms).value.0 + KeyPart(m), Parts(ms).value.1 + FieldPart(m),
                       Parts(ms).value.2 + DistinctPart(m)))
  {
    hide Unsupported;
    assert (ms + [m])[..|ms|] == ms;
  }

  lemma ItemPart(item: AggrItem)
    requires item.WithParam?
    ensures |WantedItem(item)| == 1
    ensures var m := WantedItem(item)[0];
            && (Unsupported(m) <==> TimeItem(item))
            && (!Unsupported(m) ==>
                  KeyPart(m) == [] && FieldPart(m) == RuleField(item) && DistinctPart(m) == RuleDistinctItem(item))
  {
    hide UnirecName, FieldSize, FindField, FuncOf, TypeOf, IsTime;
    EveryUnirec(item.param);
    FindFieldName(item.param, UNIRECS);
  }

  /** One more item behind fields whose parts are known. */
  lemma ItemPartsStep(ms: seq<Member>, item: AggrItem, ks: seq<KeyField>, fs: seq<AF.Field>, ds: seq<string>)
    requires Parts(ms) == Some((ks, fs, ds))
    ensures Parts(ms + WantedItem(item))
         == if TimeItem(item) then None else Some((ks, fs + RuleField(item), ds + RuleDistinctItem(item)))
  {
    hide Parts, KeyPart, FieldPart, DistinctPart, Unsupported, IsTime;
    if item.WithParam? {
      hide RuleField, RuleDistinctItem, WantedItem, TimeItem;
      ItemPart(item);
      PartsSnoc(ms, WantedItem(item)[0]);
      assert [WantedItem(item)[0]] == WantedItem(item);
      assert ks + [] == ks;
    } else {
      assert ms + [] == ms && fs + [] == fs && ds + [] == ds;
    }
  }

  lemma {:induction false} ItemParts(ms: seq<Member>, items: seq<AggrItem>)
    requires Parts(ms).Some?
    ensures var p := Parts(ms).value;
            Parts(ms + WantedItems(items))
              == if CountsTime(items) then None else Some((p.0, p.1 + RuleFields(items), p.2 + RuleDistinct(items)))
  {
    hide Parts, KeyPart, FieldPart, DistinctPart, RuleField, RuleDistinctItem, WantedItem, TimeItem;
    var p := Parts(ms).value;
    if items == [] {
      assert ms + [] == ms;
      assert p.1 + [] == p.1 && p.2 + [] == p.2;
    } else {
      var init, item := items[..|items| - 1], items[|items| - 1];
      var f, d := RuleFields(init), RuleDistinct(init);
      ItemParts(ms, init);
      CountsTimeSnoc(items);
      assert ms + (WantedItems(init) + WantedItem(item)) == (ms + WantedItems(init)) + WantedItem(item);
      if CountsTime(init) {
        ItemPartsNone(ms + WantedItems(init), item);
      } else {
        ItemPartsStep(ms + WantedItems(init), item, p.0, p.1 + f, p.2 + d);
        assert p.1 + (f + RuleField(item)) == (p.1 + f) + RuleField(item);
        assert p.2 + (d + RuleDistinctItem(item)) == (p.2 + d) + RuleDistinctItem(item);
      }
    }
  }

  lemma CountsTimeSnoc(items: seq<AggrItem>)
    requires items != []
    ensures CountsTime(items) <==> CountsTime(items[..|items| - 1]) || TimeItem(items[|items| - 1])
  {
    hide TimeItem;
    var init := items[..|items| - 1];
    if CountsTime(init) {
      var i :| 0 <= i < |init| && TimeItem(init[i]);
      assert TimeItem(items[i]);
    }
    assert forall i :: 0 <= i < |init| ==> init[i] == items[i];
  }

  lemma ItemPartsNone(ms: seq<Member>, item: AggrItem)
    requires Parts(ms).None?
    ensures Parts(ms + WantedItem(item)).None?
  {
    hide Parts, Unsupported, WantedItem;
    var some := WantedItem(item);
    if some == [] {
      assert ms + some == ms;
    } else {
      PartsSnoc(ms, some[0]);
      assert some == [some[0]];
    }
  }

  /** From the rule to the running aggregator, through text. Of a rule whose fields can be registered, the configuration
      read back from the builder's options is the one the rule describes; and it can run exactly when the rule does not
      count the different values of a time. */
  lemma AggregatorRunsAsRuled(keys: seq<Unirec>, w: WindowSpec, items: seq<AggrItem>)
    requires w.range < 0x1_0000_0000 && Registrable(WantedKeys(keys) + WantedItems(items))
    ensures Started(AggOptions(keys, w, items))
         == if CountsTime(items) then None
            else Some(AF.Config(RuleKeys(keys), RuleFields(items), RuleDistinct(items), RuleWindow(w)))
  {
    hide Configured, AggOptions, Registrable, WantedKeys, WantedItems, Parts, RuleKeys, RuleFields, RuleDistinct,
         CountsTime;
    ConfiguredAsRuled(keys, w, items);
    KeyParts(keys);
    ItemParts(WantedKeys(keys), items);
    assert [] + RuleFields(items) == RuleFields(items) && [] + RuleDistinct(items) == RuleDistinct(items);
  }
}
