/** Cutting a text into tokens, as strtok does it one call at a time. */
module Tokenizer {
  import opened StringFunctions

  lemma FirstChar(s: string, c: char)
    ensures var e := Find(s, [c], 0);
            && (forall i :: 0 <= i < |s| && (e < 0 || i < e) ==> s[i] != c)
            && (e >= 0 ==> s[e] == c)
  {
    var e := Find(s, [c], 0);
    forall i | 0 <= i < |s| && (e < 0 || i < e) ensures s[i] != c {
      assert !At(s, [c], i);
      assert s[i..i + 1] == [s[i]];
    }
    if e >= 0 { assert At(s, [c], e) && [c][0] == c; }
  }

  datatype Token = NoToken | Token(text: string, rest: string)

  /** One call of strtok with a one-character delimiter: leading delimiters are skipped. */
  function Strtok(s: string, c: char): (t: Token)
    ensures t.Token? ==> |t.rest| < |s| && t.text != "" && c !in t.text
  {
    if s == "" then NoToken
    else if s[0] == c then Strtok(s[1..], c)
    else
      var e := Find(s, [c], 0);
      FirstChar(s, c);
      if e < 0 then Token(s, "") else Token(s[..e], s[e + 1..])
  }

  function NonEmpty(v: seq<string>): seq<string> {
    if v == [] then [] else Keep(v[0]) + NonEmpty(v[1..])
  }

  function Keep(s: string): seq<string> { if s == "" then [] else [s] }

  /** The tokens of a text: the pieces between delimiters that are not empty. */
  function Tokens(s: string, c: char): seq<string> { NonEmpty(Split(s, [c])) }

  lemma {:induction false} NonEmptyAppend(v: seq<string>, w: seq<string>)
    ensures NonEmpty(v + w) == NonEmpty(v) + NonEmpty(w)
  {
    hide Keep;
    if v == [] {
      assert v + w == w;
    } else {
      NonEmptyAppend(v[1..], w);
      assert (v + w)[1..] == v[1..] + w;
      assert Keep(v[0]) + (NonEmpty(v[1..]) + NonEmpty(w)) == (Keep(v[0]) + NonEmpty(v[1..])) + NonEmpty(w);
    }
  }

  lemma {:induction false} IntercalateAppend(v: seq<string>, w: seq<string>, d: string)
    requires v != [] && w != []
    ensures Intercalate(v + w, d) == Intercalate(v, d) + d + Intercalate(w, d)
  {
    if |v| == 1 {
      assert (v + w)[1..] == w;
    } else {
      IntercalateAppend(v[1..], w, d);
      assert (v + w)[1..] == v[1..] + w;
      assert v[0] + d + (Intercalate(v[1..], d) + d + Intercalate(w, d))
          == (v[0] + d + Intercalate(v[1..], d)) + d + Intercalate(w, d);
    }
  }

  lemma SplitBetween(a: string, b: string, c: char)
    ensures Split(a + [c] + b, [c]) == Split(a, [c]) + Split(b, [c])
  {
    hide Split, Intercalate;
    var v, w := Split(a, [c]), Split(b, [c]);
    SplitJoin(a, [c]);
    SplitJoin(b, [c]);
    SplitTokensFree(a, c);
    SplitTokensFree(b, c);
    IntercalateAppend(v, w, [c]);
    JoinSplit(v + w, c);
  }

  /** A delimiter separates tokens. */
  lemma TokensBetween(a: string, b: string, c: char)
    ensures Tokens(a + [c] + b, c) == Tokens(a, c) + Tokens(b, c)
  {
    hide Split, NonEmpty;
    SplitBetween(a, b, c);
    NonEmptyAppend(Split(a, [c]), Split(b, [c]));
  }

  lemma TokensWord(s: string, c: char)
    requires c !in s
    ensures Tokens(s, c) == Keep(s)
  {
    FindChar(s, "", c);
    assert Split(s, [c]) == [s];
    assert [s][1..] == [];
    assert NonEmpty([s]) == Keep(s) + NonEmpty([s][1..]) == Keep(s) + [] == Keep(s);
  }

  /** Calling strtok until it finds nothing yields the tokens. */
  lemma {:induction false} StrtokTokens(s: string, c: char)
    ensures var t := Strtok(s, c);
            Tokens(s, c) == if t.NoToken? then [] else [t.text] + Tokens(t.rest, c)
  {
    hide Tokens, Find;
    if s == "" {
      TokensWord("", c);
    } else if s[0] == c {
      StrtokTokens(s[1..], c);
      TokensBetween("", s[1..], c);
      TokensWord("", c);
      assert "" + [c] + s[1..] == s;
      assert [] + Tokens(s[1..], c) == Tokens(s[1..], c);
    } else {
      var e := Find(s, [c], 0);
      var t := Strtok(s, c);
      TokensWord(t.text, c);
      if e < 0 {
        TokensWord("", c);
      } else {
        FirstChar(s, c);
        assert s[..e] + [c] + s[e + 1..] == s;
        TokensBetween(t.text, t.rest, c);
      }
    }
  }
}
