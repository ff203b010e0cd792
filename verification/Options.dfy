/** The aggregator's option string: how it is cut into arguments and read back, against how the builder printed it. */
module Options {
  import opened Ast
  import opened Builder
  import opened Decimals
  import opened Tokenizer
  import opened Wrappers

  const MAX_ARGS: nat := 128

  const MAX_STRING: nat := 1024

  function Take<T>(v: seq<T>, n: nat): seq<T> { if |v| <= n then v else v[..n] }

  method GetArgcArgv(input: string) returns (argv: seq<string>)
    ensures argv == Take(Tokens(input, ' '), MAX_ARGS - 1)
  {
    hide Strtok, Tokens;
    argv := [];
    StrtokTokens(input, ' ');
    var p2 := Strtok(input, ' ');
    ghost var all := Tokens(input, ' ');
    while p2.Token? && |argv| < MAX_ARGS - 1
      invariant |argv| <= MAX_ARGS - 1
      invariant all == argv + if p2.NoToken? then [] else [p2.text] + Tokens(p2.rest, ' ')
      decreases MAX_ARGS - |argv|
    {
      argv := argv + [p2.text];
      StrtokTokens(p2.rest, ' ');
      p2 := Strtok(p2.rest, ' ');
    }
  }

  // ---- getopt ----

  const LETTERS: string := "ktsamMfloncr"

  /** The option loop: every known letter takes an argument, the rest of its word or the next word. Unknown letters and
      words that are not options are skipped. */
  function GetOpt(args: seq<string>): seq<(char, string)>
    decreases |args|, if args == [] then 0 else 1 + |args[0]|
  {
    if args == [] || args[0] == "--" then []
    else if |args[0]| < 2 || args[0][0] != '-' then GetOpt(args[1..])
    else GetOptWord(args, 1)
  }

  function GetOptWord(args: seq<string>, j: nat): seq<(char, string)>
    requires args != [] && 1 <= j <= |args[0]|
    decreases |args|, 1 + |args[0]| - j
  {
    if j == |args[0]| then GetOpt(args[1..])
    else if args[0][j] in LETTERS then
      if j + 1 < |args[0]| then [(args[0][j], args[0][j + 1..])] + GetOpt(args[1..])
      else if |args| >= 2 then [(args[0][j], args[1])] + GetOpt(args[2..])
      else []
    else GetOptWord(args, j + 1)
  }

  /** The words of these options, each letter and its argument a word of their own. */
  function Words(options: seq<(char, string)>): seq<string> {
    if options == [] then [] else [['-', options[0].0], options[0].1] + Words(options[1..])
  }

  lemma {:induction false} GetOptWords(options: seq<(char, string)>)
    requires forall i :: 0 <= i < |options| ==> options[i].0 in LETTERS
    ensures GetOpt(Words(options)) == options
  {
    if options != [] {
      var args := Words(options);
      GetOptWords(options[1..]);
      assert LETTERS[0] == 'k';
      assert options[0].0 != '-';
      assert args[2..] == Words(options[1..]);
    }
  }

  lemma {:induction false} WordsAppend(a: seq<(char, string)>, b: seq<(char, string)>)
    ensures Words(a + b) == Words(a) + Words(b)
  {
    if a == [] {
      assert a + b == b;
    } else {
      WordsAppend(a[1..], b);
      assert (a + b)[1..] == a[1..] + b;
    }
  }

  lemma {:induction false} WordsTake(options: seq<(char, string)>, n: nat)
    ensures |Words(options)| == 2 * |options|
    ensures n <= |options| ==> Words(options)[..2 * n] == Words(options[..n])
  {
    if options != [] {
      WordsTake(options[1..], if n == 0 then 0 else n - 1);
      if 0 < n <= |options| {
        assert options[..n][1..] == options[1..][..n - 1];
        assert Words(options)[..2 * n] == Words(options)[..2] + Words(options[1..])[..2 * (n - 1)];
      } else {
        assert options[..0] == [];
      }
    }
  }

  // ---- What the builder printed ----

  function FuncLetter(f: AggrFunc): char {
    match f
    case ApSum => 's'
    case ApAverage => 'a'
    case ApMinimal => 'm'
    case ApMaximal => 'M'
    case ApFirst => 'f'
    case ApLast => 'l'
    case ApOr => 'o'
    case ApAnd => 'n'
    case ApCountDistinct => 'c'
    case ApRate => 'r'
  }

  function KeyPairs(keys: seq<Unirec>): seq<(char, string)> {
    if keys == [] then [] else KeyPairs(keys[..|keys| - 1]) + [('k', UnirecName(keys[|keys| - 1]))]
  }

  function FuncPair(item: AggrItem): seq<(char, string)> {
    match item
    case WithParam(_, func, param) => [(FuncLetter(func), UnirecName(param))]
    case Count(_) => []
  }

  function FuncPairs(items: seq<AggrItem>): seq<(char, string)> {
    if items == [] then [] else FuncPairs(items[..|items| - 1]) + FuncPair(items[|items| - 1])
  }

  function TimeoutText(w: WindowSpec): string { WindowLetter(w.kind) + ":" + Decimal(w.range) }

  /** Keys, window and functions as options, in order. */
  function Pairs(keys: seq<Unirec>, w: WindowSpec, items: seq<AggrItem>): seq<(char, string)> {
    KeyPairs(keys) + [('t', TimeoutText(w))] + FuncPairs(items)
  }

  lemma UnirecNamePlain(u: Unirec)
    ensures UnirecName(u) != "" && ' ' !in UnirecName(u)
  {
  }

  lemma FuncOptionShape(f: AggrFunc)
    ensures FuncOption(f) == [' ', '-', FuncLetter(f), ' '] && FuncLetter(f) in LETTERS && FuncLetter(f) != ' '
  {
    assert LETTERS[2..] == "samMfloncr";
  }

  /** A printed letter and argument behind some text are two more words. */
  lemma TokensOption(x: string, letter: char, arg: string)
    requires letter != ' ' && arg != "" && ' ' !in arg
    ensures Tokens(x + [' ', '-', letter, ' '] + arg, ' ') == Tokens(x, ' ') + Words([(letter, arg)])
  {
    hide Tokens;
    var word := ['-', letter];
    TokensBetween(x, word + [' '] + arg, ' ');
    TokensBetween(word, arg, ' ');
    TokensWord(word, ' ');
    TokensWord(arg, ' ');
    assert x + [' '] + (word + [' '] + arg) == x + [' ', '-', letter, ' '] + arg;
    assert [(letter, arg)][1..] == [];
  }

  lemma TokensTrailing(x: string)
    ensures Tokens(x + [' '], ' ') == Tokens(x, ' ')
  {
    hide Tokens;
    TokensBetween(x, "", ' ');
    TokensWord("", ' ');
    assert x + [' '] + "" == x + [' '];
    assert Tokens(x, ' ') + [] == Tokens(x, ' ');
  }

  lemma {:induction false} KeyTokens(x: string, keys: seq<Unirec>)
    ensures Tokens(x + KeyOptions(keys), ' ') == Tokens(x, ' ') + Words(KeyPairs(keys))
  {
    hide Tokens, Words, UnirecName;
    if keys == [] {
      WordsTake([], 0);
      assert x + "" == x;
    } else {
      var init, name := keys[..|keys| - 1], UnirecName(keys[|keys| - 1]);
      KeyTokens(x, init);
      UnirecNamePlain(keys[|keys| - 1]);
      TokensOption(x + KeyOptions(init), 'k', name);
      TokensTrailing(x + KeyOptions(init) + [' ', '-', 'k', ' '] + name);
      assert " -k " == [' ', '-', 'k', ' '];
      assert x + (KeyOptions(init) + " -k " + name + " ") == x + KeyOptions(init) + [' ', '-', 'k', ' '] + name + [' '];
      WordsAppend(KeyPairs(init), [('k', name)]);
    }
  }

  lemma {:induction false} FuncTokens(x: string, items: seq<AggrItem>)
    ensures Tokens(x + FuncOptions(items), ' ') == Tokens(x, ' ') + Words(FuncPairs(items))
  {
    hide Tokens, Words, UnirecName, FuncOption, FuncLetter;
    if items == [] {
      WordsTake([], 0);
      assert x + "" == x;
    } else {
      var init, item := items[..|items| - 1], items[|items| - 1];
      FuncTokens(x, init);
      if item.Count? {
        assert x + (FuncOptions(init) + "") == x + FuncOptions(init);
        assert FuncPairs(init) + [] == FuncPairs(init);
      } else {
        UnirecNamePlain(item.param);
        FuncOptionShape(item.func);
        var name := UnirecName(item.param);
        TokensOption(x + FuncOptions(init), FuncLetter(item.func), name);
        assert x + (FuncOptions(init) + (FuncOption(item.func) + name))
            == x + FuncOptions(init) + FuncOption(item.func) + name;
        WordsAppend(FuncPairs(init), [(FuncLetter(item.func), name)]);
      }
    }
  }

  lemma TimeoutTextPlain(w: WindowSpec)
    ensures TimeoutText(w) != "" && ' ' !in TimeoutText(w)
  {
    hide Decimal;
  }

  lemma WindowTokens(x: string, w: WindowSpec)
    ensures Tokens(x + WindowOption(w), ' ') == Tokens(x, ' ') + Words([('t', TimeoutText(w))])
  {
    hide Tokens, Words, WindowLetter, Decimal;
    TimeoutTextPlain(w);
    TokensOption(x, 't', TimeoutText(w));
    TokensTrailing(x + [' ', '-', 't', ' '] + TimeoutText(w));
    assert " -t " == [' ', '-', 't', ' '];
    assert x + WindowOption(w) == x + [' ', '-', 't', ' '] + TimeoutText(w) + [' '];
  }

  /** Cut at blanks, the printed options are the program name and the words of the options. */
  lemma PrintedTokens(keys: seq<Unirec>, w: WindowSpec, items: seq<AggrItem>)
    ensures Tokens(AggOptions(keys, w, items), ' ') == ["param"] + Words(Pairs(keys, w, items))
  {
    hide Tokens, Words, KeyOptions, WindowOption, FuncOptions, KeyPairs, FuncPairs, TimeoutText;
    var x := "param ";
    assert "param" + [' '] == x;
    TokensTrailing("param");
    TokensWord("param", ' ');
    KeyTokens(x, keys);
    WindowTokens(x + KeyOptions(keys), w);
    FuncTokens(x + KeyOptions(keys) + WindowOption(w), items);
    WordsAppend(KeyPairs(keys), [('t', TimeoutText(w))]);
    WordsAppend(KeyPairs(keys) + [('t', TimeoutText(w))], FuncPairs(items));
  }

  lemma {:induction false} PairLetters(keys: seq<Unirec>, items: seq<AggrItem>)
    ensures forall i :: 0 <= i < |KeyPairs(keys)| ==> KeyPairs(keys)[i].0 == 'k'
    ensures forall i :: 0 <= i < |FuncPairs(items)| ==> FuncPairs(items)[i].0 in LETTERS
    decreases |keys| + |items|
  {
    hide FuncLetter, UnirecName;
    if keys != [] {
      PairLetters(keys[..|keys| - 1], items);
    } else if items != [] {
      PairLetters(keys, items[..|items| - 1]);
      var item := items[|items| - 1];
      if item.WithParam? { FuncOptionShape(item.func); }
    }
  }

  /** The options the aggregator's start reads from its text; None for a text that overflows the buffer it is copied to. */
  function ReadText(text: string): Option<seq<(char, string)>> {
    if |text| >= MAX_STRING then None
    else
      var argv := Take(Tokens(text, ' '), MAX_ARGS - 1);
      Some(if argv == [] then [] else GetOpt(argv[1..]))
  }

  /** What the option loop sees: the printed options in order, of which the argument table holds the first 63. */
  lemma OptionsReadBack(keys: seq<Unirec>, w: WindowSpec, items: seq<AggrItem>)
    ensures ReadText(AggOptions(keys, w, items))
         == if |AggOptions(keys, w, items)| < MAX_STRING then Some(Take(Pairs(keys, w, items), 63)) else None
  {
    hide Tokens, Words, GetOpt, AggOptions, KeyPairs, FuncPairs, TimeoutText;
    var ps := Pairs(keys, w, items);
    PrintedTokens(keys, w, items);
    WordsTake(ps, 63);
    PairLetters(keys, items);
    assert LETTERS[1] == 't' && LETTERS[0] == 'k';
    forall i | 0 <= i < |ps| ensures ps[i].0 in LETTERS {}
    var argv := Take(["param"] + Words(ps), MAX_ARGS - 1);
    if |ps| <= 63 {
      assert argv[1..] == Words(ps);
      GetOptWords(ps);
    } else {
      assert argv[1..] == Words(ps)[..126];
      GetOptWords(ps[..63]);
    }
  }

  /** Printing then reading gives back the same keys, window and functions in order, exactly when there are at most 63
      of them and their text has less than 1024 characters. */
  lemma OptionsRoundTrip(keys: seq<Unirec>, w: WindowSpec, items: seq<AggrItem>)
    ensures ReadText(AggOptions(keys, w, items)) == Some(Pairs(keys, w, items))
       <==> |Pairs(keys, w, items)| <= 63 && |AggOptions(keys, w, items)| < MAX_STRING
  {
    hide ReadText, AggOptions, Pairs;
    OptionsReadBack(keys, w, items);
  }

  // ---- How long the text is ----

  lemma UnirecNameLength(u: Unirec)
    ensures |UnirecName(u)| <= 14
  {
  }

  lemma {:induction false} KeysLength(keys: seq<Unirec>)
    ensures |KeyOptions(keys)| <= 19 * |keys| && |KeyPairs(keys)| == |keys|
  {
    hide UnirecName;
    if keys != [] {
      KeysLength(keys[..|keys| - 1]);
      UnirecNameLength(keys[|keys| - 1]);
    }
  }

  lemma {:induction false} FuncsLength(items: seq<AggrItem>)
    ensures |FuncOptions(items)| <= 18 * |FuncPairs(items)|
  {
    hide UnirecName, FuncOption, FuncLetter;
    if items != [] {
      var item := items[|items| - 1];
      FuncsLength(items[..|items| - 1]);
      if item.WithParam? {
        FuncOptionShape(item.func);
        UnirecNameLength(item.param);
      }
    }
  }

  lemma WindowLength(w: WindowSpec)
    requires |Decimal(w.range)| <= 10
    ensures |WindowOption(w)| <= 17
  {
    hide Decimal;
  }

  /** Few enough options make a short enough text. */
  lemma TextLength(keys: seq<Unirec>, w: WindowSpec, items: seq<AggrItem>)
    requires |Decimal(w.range)| <= 10 && |Pairs(keys, w, items)| <= 53
    ensures |AggOptions(keys, w, items)| < MAX_STRING
  {
    hide KeyOptions, WindowOption, FuncOptions, KeyPairs, FuncPairs, TimeoutText, Decimal;
    KeysLength(keys);
    FuncsLength(items);
    WindowLength(w);
  }
}
