/** The string helpers of the backend: search, split, join, replace-all and the
    rewriting of user variables into field names. Each loop of the program is a
    method proved equal to a recursive function. */
module StringFunctions {

  /** Does p occur in s at position i? */
  predicate At(s: string, p: string, i: nat) {
    i + |p| <= |s| && forall k :: 0 <= k < |p| ==> s[i + k] == p[k]
  }

  /** std::string::find: the first occurrence of p at or after position from, -1 when there is none. */
  function Find(s: string, p: string, from: nat): (r: int)
    ensures r >= 0 ==> from <= r && r + |p| <= |s| && At(s, p, r) && forall i :: from <= i < r ==> !At(s, p, i)
    ensures r < 0 ==> r == -1 && forall i :: from <= i ==> !At(s, p, i)
    decreases |s| - from
  {
    if from + |p| > |s| then -1
    else if At(s, p, from) then from
    else Find(s, p, from + 1)
  }

  lemma AtSlice(s: string, p: string, i: nat)
    requires At(s, p, i)
    ensures i + |p| <= |s| && s == s[..i] + p + s[i + |p|..]
  {
  }

  lemma AtShift(a: string, b: string, p: string, i: nat)
    ensures At(a + b, p, |a| + i) <==> At(b, p, i)
  {
    if i + |p| <= |b| {
      assert (a + b)[|a| + i..|a| + i + |p|] == b[i..i + |p|];
    }
  }

  /** Searching behind a prefix is searching the rest. */
  lemma FindShift(a: string, b: string, p: string)
    ensures Find(a + b, p, |a|) == (var r := Find(b, p, 0); if r < 0 then -1 else |a| + r)
  {
    var f, r := Find(a + b, p, |a|), Find(b, p, 0);
    if r >= 0 { AtShift(a, b, p, r); }
    if f >= 0 { AtShift(a, b, p, f - |a|); }
  }

  function Split(s: string, d: string): (r: seq<string>)
    requires d != ""
    ensures |r| >= 1
    decreases |s|
  {
    var pos := Find(s, d, 0);
    if pos < 0 then [s] else [s[..pos]] + Split(s[pos + |d|..], d)
  }

  function Intercalate(v: seq<string>, d: string): string {
    if v == [] then "" else if |v| == 1 then v[0] else v[0] + d + Intercalate(v[1..], d)
  }

  method DivideStr(source: string, delimiter: string) returns (output: seq<string>)
    requires delimiter != ""
    ensures output == Split(source, delimiter)
  {
    hide At, Find;
    var input := source;
    output := [];
    var pos := Find(input, delimiter, 0);
    while pos >= 0
      invariant pos == Find(input, delimiter, 0)
      invariant output + Split(input, delimiter) == Split(source, delimiter)
      decreases |input|
    {
      ghost var rest := input[pos + |delimiter|..];
      assert output + ([input[..pos]] + Split(rest, delimiter))
          == (output + [input[..pos]]) + Split(rest, delimiter);
      output := output + [input[..pos]];
      input := input[pos + |delimiter|..];
      pos := Find(input, delimiter, 0);
    }
    output := output + [input];
  }

  /** Replace-all is "split by the searched string, join by the replacement". In particular the
      loop ends even when the replacement contains the searched string. */
  method FindAndReplaceAll(source: string, searched: string, replaceStr: string) returns (input: string)
    requires searched != ""
    ensures input == Replaced(source, searched, replaceStr)
  {
    hide Replaced, At, Find;
    input := source;
    ghost var out, rest := "", source;
    assert input == out + rest;
    var pos := Find(input, searched, 0);
    while pos >= 0
      invariant input == out + rest
      invariant pos == Find(input, searched, |out|)
      invariant out + Replaced(rest, searched, replaceStr) == Replaced(source, searched, replaceStr)
      decreases |rest|
    {
      ghost var out', rest' := ReplaceStep(out, rest, searched, replaceStr);
      input := input[..pos] + replaceStr + input[pos + |searched|..];
      out, rest := out', rest';
      pos := Find(input, searched, pos + |replaceStr|);
    }
    FindShift(out, rest, searched);
    ReplacedUnfold(rest, searched, replaceStr);
  }

  /** One turn of the loop: `out` is already rewritten, `rest` is still the source's text. */
  lemma ReplaceStep(out: string, rest: string, searched: string, replaceStr: string)
    returns (out': string, rest': string)
    requires searched != "" && Find(out + rest, searched, |out|) >= 0
    ensures var pos := Find(out + rest, searched, |out|);
            && (out + rest)[..pos] + replaceStr + (out + rest)[pos + |searched|..] == out' + rest'
            && |out'| == pos + |replaceStr|
    ensures |rest'| < |rest|
    ensures out' + Replaced(rest', searched, replaceStr) == out + Replaced(rest, searched, replaceStr)
  {
    hide At, Find, Replaced;
    FindShift(out, rest, searched);
    var k := Find(rest, searched, 0);
    ReplacedUnfold(rest, searched, replaceStr);
    rest' := rest[k + |searched|..];
    out' := out + rest[..k] + replaceStr;
    assert out + (rest[..k] + replaceStr + Replaced(rest', searched, replaceStr))
        == out' + Replaced(rest', searched, replaceStr);
    assert (out + rest)[..|out| + k] == out + rest[..k];
    assert (out + rest)[|out| + k + |searched|..] == rest';
  }

  function Replaced(s: string, searched: string, replaceStr: string): string
    requires searched != ""
  {
    Intercalate(Split(s, searched), replaceStr)
  }

  lemma JoinCons(x: string, v: seq<string>, d: string)
    requires v != []
    ensures Intercalate([x] + v, d) == x + d + Intercalate(v, d)
  {
    assert ([x] + v)[1..] == v;
  }

  lemma ReplacedUnfold(s: string, searched: string, replaceStr: string)
    requires searched != ""
    ensures var pos := Find(s, searched, 0);
            Replaced(s, searched, replaceStr) ==
            if pos < 0 then s else s[..pos] + replaceStr + Replaced(s[pos + |searched|..], searched, replaceStr)
  {
    hide At, Find;
    var pos := Find(s, searched, 0);
    if pos >= 0 {
      hide Intercalate;
      var tl := Split(s[pos + |searched|..], searched);
      assert Split(s, searched) == [s[..pos]] + tl;
      JoinCons(s[..pos], tl, replaceStr);
    }
  }

  /** Every item preceded by the delimiter. */
  function Prefixed(v: seq<string>, d: string): string {
    if v == [] then "" else Prefixed(v[..|v| - 1], d) + d + v[|v| - 1]
  }

  /** The join erases ONE leading character whatever the delimiter's length. */
  method VecOfStr2Str(vec: seq<string>, delimiter: string) returns (output: string)
    ensures output == (var p := Prefixed(vec, delimiter); if p == "" then "" else p[1..])
    ensures |delimiter| == 1 ==> output == Intercalate(vec, delimiter)
  {
    output := "";
    for i := 0 to |vec|
      invariant output == Prefixed(vec[..i], delimiter)
    {
      assert vec[..i + 1][..i] == vec[..i];
      output := output + delimiter;
      output := output + vec[i];
    }
    assert vec[..|vec|] == vec;
    if vec != [] { PrefixedIsJoin(vec, delimiter); }
    output := if output == "" then "" else output[1..];
  }

  lemma {:induction false} PrefixedIsJoin(v: seq<string>, d: string)
    requires v != []
    ensures Prefixed(v, d) == d + Intercalate(v, d)
  {
    if |v| == 1 {
      assert v[..0] == [];
    } else {
      PrefixedIsJoin(v[..|v| - 1], d);
      IntercalateSnoc(v[..|v| - 1], v[|v| - 1], d);
      assert v[..|v| - 1] + [v[|v| - 1]] == v;
      assert Prefixed(v, d) == (d + Intercalate(v[..|v| - 1], d)) + d + v[|v| - 1]
          == d + (Intercalate(v[..|v| - 1], d) + d + v[|v| - 1]);
    }
  }

  lemma {:induction false} IntercalateSnoc(v: seq<string>, x: string, d: string)
    requires v != []
    ensures Intercalate(v + [x], d) == Intercalate(v, d) + d + x
  {
    if |v| > 1 {
      IntercalateSnoc(v[1..], x, d);
      assert (v + [x])[1..] == v[1..] + [x];
    } else {
      assert (v + [x])[1..] == [x];
    }
  }

  function TotalLength(v: seq<string>): nat {
    if v == [] then 0 else |v[0]| + TotalLength(v[1..])
  }

  lemma {:induction false} IntercalateLength(v: seq<string>, d: string)
    requires v != []
    ensures |Intercalate(v, d)| == TotalLength(v) + (|v| - 1) * |d|
  {
    if |v| > 1 {
      IntercalateLength(v[1..], d);
      assert (|v| - 1) * |d| == (|v| - 2) * |d| + |d|;
    }
  }

  /** Exactly when the join puts the delimiter between the items: a one-character delimiter, no items
      at all, or nothing but empty strings. Any longer delimiter leaves part of itself in front. */
  lemma JoinIsIntercalateIff(v: seq<string>, d: string)
    ensures (var p := Prefixed(v, d); if p == "" then "" else p[1..]) == Intercalate(v, d)
      <==> |d| == 1 || v == [] || (d == "" && TotalLength(v) == 0)
  {
    if v != [] {
      PrefixedIsJoin(v, d);
      IntercalateLength(v, d);
      if |d| == 0 { assert (|v| - 1) * |d| == 0; }
    }
  }

  /** Split then join is the identity. */
  lemma {:induction false} SplitJoin(s: string, d: string)
    requires d != ""
    ensures Intercalate(Split(s, d), d) == s
    decreases |s|
  {
    hide At, Find;
    ReplacedUnfold(s, d, d);
    var pos := Find(s, d, 0);
    if pos >= 0 {
      SplitJoin(s[pos + |d|..], d);
      AtSlice(s, d, pos);
      assert s == s[..pos] + d + s[pos + |d|..];
    }
  }

  lemma FindChar(a: string, b: string, c: char)
    requires c !in a
    ensures Find(a + [c] + b, [c], 0) == |a|
    ensures Find(a, [c], 0) == -1
  {
    var s := a + [c] + b;
    assert At(s, [c], |a|);
    forall i: nat | i < |a| ensures !At(s, [c], i) && !At(a, [c], i) {
      assert s[i] == a[i] && [c][0] == c;
    }
  }

  /** Join then split is the identity on items free of the delimiter. */
  lemma {:induction false} JoinSplit(v: seq<string>, c: char)
    requires v != [] && forall i :: 0 <= i < |v| ==> c !in v[i]
    ensures Split(Intercalate(v, [c]), [c]) == v
  {
    if |v| == 1 {
      FindChar(v[0], "", c);
    } else {
      var rest := Intercalate(v[1..], [c]);
      FindChar(v[0], rest, c);
      var s := v[0] + [c] + rest;
      assert Intercalate(v, [c]) == s;
      assert s[..|v[0]|] == v[0] && s[|v[0]| + 1..] == rest;
      JoinSplit(v[1..], c);
    }
  }

  /** No token of a split contains the (one-character) delimiter. */
  lemma {:induction false} SplitTokensFree(s: string, c: char)
    ensures forall i :: 0 <= i < |Split(s, [c])| ==> c !in Split(s, [c])[i]
    decreases |s|
  {
    var pos := Find(s, [c], 0);
    var head := if pos < 0 then s else s[..pos];
    forall i | 0 <= i < |head| ensures head[i] != c {
      assert !At(s, [c], i);
      assert s[i..i + 1] == [s[i]];
    }
    if pos >= 0 {
      SplitTokensFree(s[pos + 1..], c);
    }
  }

  // ---- Rewriting of user variables ----

  predicate IsSpace(c: char) { c in " \t\n\U{0B}\U{0C}\r" }

  function SkipBlanks(s: string): string {
    if s != "" && IsSpace(s[0]) then SkipBlanks(s[1..]) else s
  }

  function StripSpaces(s: string): (r: string)
    ensures forall c :: c in r ==> c in s && !IsSpace(c)
  {
    if s == "" then "" else (if IsSpace(s[0]) then "" else [s[0]]) + StripSpaces(s[1..])
  }

  /** One item of a selector body: behind the first '=' the variable is replaced; an item without '='
      that contains the variable becomes the field name. */
  function AliasItem(item: string, searched: string, replaceStr: string): string
    requires searched != ""
  {
    var eq := Find(item, "=", 0);
    if eq >= 0 then item[..eq + 1] + Replaced(item[eq + 1..], searched, replaceStr)
    else if Find(item, searched, 0) >= 0 then replaceStr
    else item
  }

  function AliasItems(items: seq<string>, searched: string, replaceStr: string): (r: seq<string>)
    requires searched != ""
    ensures |r| == |items|
    ensures forall i :: 0 <= i < |r| ==> r[i] == AliasItem(items[i], searched, replaceStr)
  {
    if items == [] then []
    else [AliasItem(items[0], searched, replaceStr)] + AliasItems(items[1..], searched, replaceStr)
  }

  function SelectorAlias(input: string, searched: string, replaceStr: string): string
    requires searched != ""
  {
    if input == "" then ""
    else Intercalate(AliasItems(Split(StripSpaces(input), ","), searched, replaceStr), ",")
  }

  method ReplaceAliasesInSelectorBody(source: string, searched: string, replaceStr: string) returns (output: string)
    requires searched != ""
    ensures output == SelectorAlias(source, searched, replaceStr)
  {
    hide AliasItem, Split, Intercalate, StripSpaces;
    if source == "" { return ""; }
    var inputVec := DivideStr(StripSpaces(source), ",");
    ghost var items := inputVec;
    ghost var goal := AliasItems(items, searched, replaceStr);
    for i := 0 to |inputVec|
      invariant |inputVec| == |items|
      invariant forall k :: 0 <= k < i ==> inputVec[k] == goal[k]
      invariant forall k :: i <= k < |items| ==> inputVec[k] == items[k]
    {
      var item := RewriteItem(inputVec[i], searched, replaceStr);
      inputVec := inputVec[i := item];
    }
    assert inputVec == goal;
    output := VecOfStr2Str(inputVec, ",");
  }

  method RewriteItem(source: string, searched: string, replaceStr: string) returns (item: string)
    requires searched != ""
    ensures item == AliasItem(source, searched, replaceStr)
  {
    hide At, Find, Replaced, Split, Intercalate;
    var equalPos := Find(source, "=", 0);
    if equalPos >= 0 {
      var rightSide := FindAndReplaceAll(source[equalPos + 1..], searched, replaceStr);
      item := source[..equalPos + 1] + rightSide;
    } else {
      item := if Find(source, searched, 0) >= 0 then replaceStr else source;
    }
  }

  lemma {:induction false} IntercalateFree(v: seq<string>, d: string, c: char)
    requires c !in d && forall i :: 0 <= i < |v| ==> c !in v[i]
    ensures c !in Intercalate(v, d)
  {
    if |v| > 1 { IntercalateFree(v[1..], d, c); }
  }

  lemma {:induction false} SplitFree(s: string, d: string, c: char)
    requires d != "" && c !in s
    ensures forall i :: 0 <= i < |Split(s, d)| ==> c !in Split(s, d)[i]
    decreases |s|
  {
    var pos := Find(s, d, 0);
    if pos >= 0 { SplitFree(s[pos + |d|..], d, c); }
  }

  function Lhs(item: string): string {
    item[..Find(item, "=", 0) + 1]
  }

  /** The first occurrence of a character. */
  lemma FreeBeforeFirst(s: string, c: char)
    ensures var pos := Find(s, [c], 0); pos >= 0 ==> s[pos] == c && c !in s[..pos]
  {
    var pos := Find(s, [c], 0);
    if pos >= 0 {
      assert At(s, [c], pos) && s[pos + 0] == [c][0];
      forall i | 0 <= i < pos ensures s[i] != c {
        assert !At(s, [c], i);
        assert s[i..i + 1] == [s[i]];
      }
    }
  }

  lemma ReplacedFree(s: string, searched: string, replaceStr: string, c: char)
    requires searched != "" && c !in s && c !in replaceStr
    ensures c !in Replaced(s, searched, replaceStr)
  {
    SplitFree(s, searched, c);
    IntercalateFree(Split(s, searched), replaceStr, c);
  }

  lemma AliasItemKeepsLhs(item: string, searched: string, replaceStr: string)
    requires searched != "" && ',' !in item && ',' !in replaceStr
    ensures var r := AliasItem(item, searched, replaceStr);
            ',' !in r && (Lhs(item) != "" ==> Lhs(r) == Lhs(item))
  {
    hide Find, At, Replaced;
    var eq := Find(item, "=", 0);
    if eq >= 0 {
      var l, rhs := item[..eq], Replaced(item[eq + 1..], searched, replaceStr);
      FreeBeforeFirst(item, '=');
      ReplacedFree(item[eq + 1..], searched, replaceStr, ',');
      FindChar(l, rhs, '=');
      assert item[..eq + 1] == l + ['='];
      assert AliasItem(item, searched, replaceStr) == l + ['='] + rhs;
    }
  }

  /** A field name without a comma keeps the number of selector items and every left-hand side, and
      each item becomes its own rewriting and nothing else. */
  lemma SelectorAliasKeepsShape(input: string, searched: string, replaceStr: string)
    requires input != "" && searched != "" && ',' !in replaceStr
    ensures var before := Split(StripSpaces(input), ",");
            var after := Split(SelectorAlias(input, searched, replaceStr), ",");
            && |after| == |before|
            && forall i :: 0 <= i < |before| ==>
                 && after[i] == AliasItem(before[i], searched, replaceStr)
                 && (Lhs(before[i]) != "" ==> Lhs(after[i]) == Lhs(before[i]))
  {
    var before := Split(StripSpaces(input), ",");
    SplitTokensFree(StripSpaces(input), ',');
    var items := AliasItems(before, searched, replaceStr);
    forall i | 0 <= i < |before|
      ensures ',' !in items[i] && (Lhs(before[i]) != "" ==> Lhs(items[i]) == Lhs(before[i]))
    {
      AliasItemKeepsLhs(before[i], searched, replaceStr);
    }
    JoinSplit(items, ',');
  }
}
