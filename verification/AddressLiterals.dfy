/** What address literals with a number of bits become: shortened version 4 addresses, and the version 6 addresses that the
    completion of shortened ones gets in the way of. */
module AddressLiterals {
  import opened AddressText
  import opened Bits
  import opened Decimals
  import opened Prefix
  import opened Wrappers
  import SF = StringFunctions

  /** An address text and what follows the slash. */
  function Literal(ip: string, mask: string): string { ip + ['/'] + mask }

  lemma LiteralNetwork(ip: string, mask: string)
    requires ip != "" && mask != "" && forall i :: 0 <= i < |ip| ==> !Delimiter(ip[i])
    ensures NetworkOf(Literal(ip, mask)) == NetworkFrom(ip, ReadMask(Some(mask)))
  {
    hide CutLiteral, ReadMask, NetworkFrom;
    CutAt(ip, mask, '/');
  }

  lemma BitsThere(mask: string)
    requires ReadMask(Some(mask)).PrefixBits?
    ensures mask != ""
  {
  }

  /** A printed number of bits is read as that number. */
  lemma DecimalBits(n: nat)
    requires n < 0x8000_0000
    ensures ReadMask(Some(Decimal(n))) == PrefixBits(n)
  {
    hide Decimal, NumberOf, DigitPrefix, Pton4, Pton6;
    var d := Decimal(n);
    assert IsDigit(d[0]);
    assert d[0] != '-' && d[0] != '+' && !SF.IsSpace(d[0]);
    DigitPrefixAll(d);
    NumberOfDecimal(n);
  }

  // ---- Version 4 ----

  function Parts(os: seq<nat>): (v: seq<string>)
    ensures |v| == |os| && forall i :: 0 <= i < |v| ==> v[i] == Decimal(os[i])
  {
    if os == [] then [] else [Decimal(os[0])] + Parts(os[1..])
  }

  function Dotted(os: seq<nat>): string { SF.Intercalate(Parts(os), ['.']) }

  predicate AreOctets(os: seq<nat>) { forall i :: 0 <= i < |os| ==> os[i] <= 255 }

  lemma {:induction false} NoLeadingZero(n: nat)
    requires n > 0
    ensures Decimal(n)[0] != '0'
  {
    if n >= 10 { NoLeadingZero(n / 10); }
  }

  lemma OctetDecimal(o: nat)
    requires o <= 255
    ensures Octet(Decimal(o)) == Some(o)
  {
    assert Pow10(3) == 1000;
    hide Decimal, NumberOf;
    DecimalLength(o, 3);
    NumberOfDecimal(o);
    if o > 0 { NoLeadingZero(o); } else { ZeroDecimal(); }
  }

  lemma ZeroDecimal()
    ensures Decimal(0) == "0"
  {
  }

  lemma PartsFree(os: seq<nat>, c: char)
    requires !IsDigit(c)
    ensures forall i :: 0 <= i < |os| ==> c !in Parts(os)[i]
  {
    hide Decimal;
  }

  lemma DottedSplit(os: seq<nat>)
    requires os != []
    ensures SF.Split(Dotted(os), ['.']) == Parts(os)
  {
    hide Parts, SF.Split, SF.Intercalate;
    PartsFree(os, '.');
    SF.JoinSplit(Parts(os), '.');
  }

  lemma PartsOctets(os: seq<nat>)
    requires AreOctets(os)
    ensures OctetsOf(Parts(os)) == Some(os)
  {
    hide Octet, Decimal, OctetsOf;
    var v := Parts(os);
    forall i | 0 <= i < |os| ensures Octet(v[i]) == Some(os[i]) { OctetDecimal(os[i]); }
    OctetsThere(v);
    assert OctetsOf(v).value == os;
  }

  /** Dotted octets are read as their number. */
  lemma DottedRead(os: seq<nat>)
    requires |os| == 4 && AreOctets(os)
    ensures Pton4(Dotted(os)) == Some(FourOctets(os))
  {
    hide Dotted, Parts, FourOctets, OctetsOf, SF.Split;
    DottedSplit(os);
    PartsOctets(os);
  }

  /** Removing the first character of a text of parts. */
  lemma TailParts(v: seq<string>, c: char)
    requires v != [] && v[0] != ""
    ensures SF.Intercalate(v, [c]) != ""
    ensures SF.Intercalate(v, [c])[1..] == SF.Intercalate([v[0][1..]] + v[1..], [c])
  {
    var w := [v[0][1..]] + v[1..];
    assert w[1..] == v[1..];
    if |v| > 1 {
      var rest := SF.Intercalate(v[1..], [c]);
      assert (v[0] + [c] + rest)[1..] == v[0][1..] + [c] + rest;
    }
  }

  lemma DottedOctets(os: seq<nat>)
    requires os != []
    ensures Dotted(os) != "" && Octets(Dotted(os)) == |os|
  {
    hide SF.Split, SF.Intercalate, Decimal;
    var v := Parts(os);
    TailParts(v, '.');
    PartsFree(os, '.');
    var w := [v[0][1..]] + v[1..];
    SF.JoinSplit(w, '.');
  }

  /** Missing octets are zero. */
  function Padded(os: seq<nat>): (r: seq<nat>)
    ensures |os| <= 4 ==> |r| == 4 && r[..|os|] == os && forall i :: |os| <= i < 4 ==> r[i] == 0
    decreases 4 - |os|
  {
    if |os| >= 4 then os else Padded(os + [0])
  }

  lemma {:induction false} DottedPad(os: seq<nat>)
    requires 1 <= |os| <= 4
    ensures Dotted(os) + Pad(|os|) == Dotted(Padded(os))
    decreases 4 - |os|
  {
    hide Decimal, SF.Intercalate;
    if |os| < 4 {
      DottedPad(os + [0]);
      assert Parts(os + [0]) == Parts(os) + [Decimal(0)];
      SF.IntercalateSnoc(Parts(os), Decimal(0), ['.']);
      ZeroDecimal();
      assert Dotted(os + [0]) == Dotted(os) + ".0";
      assert Dotted(os) + (".0" + Pad(|os| + 1)) == Dotted(os + [0]) + Pad(|os| + 1);
    } else {
      assert Dotted(os) + "" == Dotted(os);
    }
  }

  lemma DottedFree(os: seq<nat>, c: char)
    requires !IsDigit(c) && c != '.'
    ensures c !in Dotted(os)
  {
    hide SF.Intercalate, Parts;
    PartsFree(os, c);
    SF.IntercalateFree(Parts(os), ['.'], c);
  }

  lemma DottedPlain(os: seq<nat>)
    ensures ':' !in Dotted(os) && forall i :: 0 <= i < |Dotted(os)| ==> !Delimiter(Dotted(os)[i])
  {
    hide Dotted;
    DottedFree(os, ':');
    DottedFree(os, '/');
    DottedFree(os, BACKSLASH);
    DottedFree(os, ' ');
  }

  /** Without a colon there is one group at most, or two in front of nothing. */
  lemma {:induction false} NoColonGroups(s: Scan, t: string)
    requires AddressText.Proper(s) && s.groups == [] && s.gap.None? && ':' !in t
    ensures ReadGroups(s, t).None?
    decreases t
  {
    hide Pton4, HexNumber;
    if t != "" && t[0] != '.' && ReadChar(s, t[0]).Some? { NoColonGroups(ReadChar(s, t[0]).value, t[1..]); }
  }

  lemma NoColonNotVersion6(t: string)
    requires ':' !in t
    ensures Pton6(t).None?
  {
    hide ReadGroups;
    NoColonGroups(NOTHING, t);
  }

  /** A version 4 address of one to four octets, with a number of bits, is a network exactly when the bits reach into these
      octets only; the octets that are not there are zero. */
  lemma V4LiteralNetwork(os: seq<nat>, mask: string, n: int)
    requires 1 <= |os| <= 4 && AreOctets(os) && ReadMask(Some(mask)) == PrefixBits(n)
    ensures NetworkOf(Literal(Dotted(os), mask))
         == if 0 <= n <= 8 * |os| then Some(Bits4(FourOctets(Padded(os)), n)) else None
  {
    hide Dotted, Octets, Pton4, Pton6, ReadMask, FourOctets, Literal, NetworkOf, Pad;
    BitsThere(mask);
    DottedOctets(os);
    DottedPlain(os);
    LiteralNetwork(Dotted(os), mask);
    DottedPad(os);
    DottedRead(Padded(os));
    NoColonNotVersion6(Dotted(os));
  }

  // ---- Version 6 ----

  /** A dotted address consists of digits and dots. */
  lemma Pton4Chars(s: string, c: char)
    requires Pton4(s).Some? && !IsDigit(c) && c != '.'
    ensures c !in s
  {
    hide SF.Split, SF.Intercalate, NumberOf;
    var parts := SF.Split(s, ['.']);
    forall i | 0 <= i < |parts| ensures c !in parts[i] {
      assert Octet(parts[i]).Some?;
    }
    SF.SplitJoin(s, ['.']);
    SF.IntercalateFree(parts, ['.'], c);
  }

  /** An address consists of digits, colons and dots. */
  lemma {:induction false} ReadGroupsChars(s: Scan, t: string, c: char)
    requires AddressText.Proper(s) && ReadGroups(s, t).Some? && !IsHex(c) && c != ':' && c != '.'
    ensures c !in t
    decreases t
  {
    hide Pton4, HexNumber;
    if t != "" {
      if t[0] == '.' {
        Pton4Chars(s.tok + t, c);
        assert t == (s.tok + t)[|s.tok|..];
      } else {
        ReadGroupsChars(ReadChar(s, t[0]).value, t[1..], c);
        assert t == [t[0]] + t[1..];
      }
    }
  }

  lemma Pton6Chars(t: string, c: char)
    requires Pton6(t).Some? && !IsHex(c) && c != ':' && c != '.'
    ensures t != "" && c !in t
  {
    hide ReadGroups;
    NoColonNotVersion6("");
    if t[0] == ':' {
      ReadGroupsChars(NOTHING, t[1..], c);
      assert t == [t[0]] + t[1..];
    } else {
      ReadGroupsChars(NOTHING, t, c);
    }
  }

  lemma Version6Plain(t: string)
    requires Pton6(t).Some?
    ensures t != "" && ':' in t && forall i :: 0 <= i < |t| ==> !Delimiter(t[i])
  {
    hide Pton6;
    if ':' !in t { NoColonNotVersion6(t); }
    Pton6Chars(t, '/');
    Pton6Chars(t, BACKSLASH);
    Pton6Chars(t, ' ');
  }

  lemma {:induction false} SplitOne(s: string, c: char)
    requires c !in s
    ensures SF.Split(s, [c]) == [s]
  {
    SF.FindChar(s, "", c);
  }

  /** Without dots there is one octet, and three zeros are added. */
  lemma NoDots(t: string)
    requires t != "" && '.' !in t
    ensures Octets(t) == 1 && Complete(t) == t + ".0.0.0"
  {
    hide SF.Split;
    SplitOne(t[1..], '.');
    assert Pad(4) == "" && Pad(3) == ".0" && Pad(2) == ".0.0" && Pad(1) == ".0.0.0";
  }

  /** A dotted tail of a version 6 address has three dots. */
  lemma {:induction false} DottedTail(s: Scan, t: string)
    requires AddressText.Proper(s) && ReadGroups(s, t).Some? && '.' in t
    ensures |SF.Split(t, ['.'])| == 4
    decreases t
  {
    hide Pton4, HexNumber, SF.Split;
    if t[0] == '.' {
      TailDots(s.tok, t);
    } else {
      DottedTail(ReadChar(s, t[0]).value, t[1..]);
      SplitBehind([t[0]], t[1..], '.');
      assert t == [t[0]] + t[1..];
    }
  }

  lemma TailDots(tok: string, t: string)
    requires AllHex(tok) && Pton4(tok + t).Some?
    ensures |SF.Split(t, ['.'])| == 4
  {
    hide SF.Split;
    assert '.' !in tok;
    SplitBehind(tok, t, '.');
  }

  /** Text without the delimiter in front adds no part. */
  lemma SplitBehind(a: string, b: string, c: char)
    requires c !in a
    ensures |SF.Split(a + b, [c])| == |SF.Split(b, [c])|
  {
    hide SF.Intercalate;
    SF.SplitTokensFree(b, c);
    SF.SplitJoin(b, [c]);
    var v := SF.Split(b, [c]);
    var w := [a + v[0]] + v[1..];
    JoinBehind(a, v, c);
    SF.JoinSplit(w, c);
  }

  lemma JoinBehind(a: string, v: seq<string>, c: char)
    requires v != []
    ensures SF.Intercalate([a + v[0]] + v[1..], [c]) == a + SF.Intercalate(v, [c])
  {
    var w := [a + v[0]] + v[1..];
    assert w[1..] == v[1..];
    if |v| > 1 {
      assert (a + v[0]) + [c] + SF.Intercalate(v[1..], [c]) == a + (v[0] + [c] + SF.Intercalate(v[1..], [c]));
    }
  }

  /** So a version 6 address with dots counts as four octets and is not completed. */
  lemma DotsAreFourOctets(t: string)
    requires Pton6(t).Some? && '.' in t
    ensures t != "" && Octets(t) == 4 && Complete(t) == t
  {
    hide SF.Split, ReadGroups, Pton4;
    Version6Plain(t);
    var inner := if t[0] == ':' then t[1..] else t;
    assert t == [t[0]] + t[1..];
    DottedTail(NOTHING, inner);
    DotNotFirst(t);
    SplitBehind([t[0]], t[1..], '.');
    assert t + "" == t;
  }

  lemma DotNotFirst(t: string)
    requires t != ""
    ensures ReadGroups(NOTHING, t).Some? ==> t[0] != '.'
  {
    hide Pton4;
  }

  /** Reading a text without dots. */
  function ReadText(s: Scan, t: string): (r: Option<Scan>)
    requires AddressText.Proper(s) && '.' !in t
    ensures r.Some? ==> AddressText.Proper(r.value)
    decreases t
  {
    if t == "" then Some(s)
    else
      var next := ReadChar(s, t[0]);
      if next.None? then None else ReadText(next.value, t[1..])
  }

  lemma {:induction false} ReadTextThen(s: Scan, t: string, u: string)
    requires AddressText.Proper(s) && '.' !in t
    ensures ReadGroups(s, t + u)
         == if ReadText(s, t).None? then None else ReadGroups(ReadText(s, t).value, u)
    decreases t
  {
    hide ReadChar, Finish, FinishDotted;
    if t == "" {
      assert t + u == u;
    } else {
      assert (t + u)[0] == t[0] && (t + u)[1..] == t[1..] + u;
      var next := ReadChar(s, t[0]);
      if next.Some? { ReadTextThen(next.value, t[1..], u); }
    }
  }

  /** What has been read after a text without dots. */
  function Reading(t: string): (r: Option<Scan>)
    requires '.' !in t
    ensures r.Some? ==> AddressText.Proper(r.value)
  {
    if t != "" && t[0] == ':' then (if |t| >= 2 && t[1] == ':' then ReadText(NOTHING, t[1..]) else None)
    else ReadText(NOTHING, t)
  }

  lemma ReadWhole(t: string, u: string)
    requires '.' !in t && (t == ":" || t == "" ==> u == "" || u[0] != ':')
    ensures Groups6(t + u) == if Reading(t).None? then None else ReadGroups(Reading(t).value, u)
  {
    hide ReadText, ReadGroups;
    if t == "" {
      assert t + u == u;
      ReadTextThen(NOTHING, "", u);
    } else if t[0] == ':' {
      assert (t + u)[1..] == t[1..] + u;
      ReadTextThen(NOTHING, t[1..], u);
      assert |t| == 1 ==> t == ":";
    } else {
      ReadTextThen(NOTHING, t, u);
    }
  }

  const THREE: string := ".0.0.0"

  lemma TailOctets(tok: string)
    requires AllHex(tok)
    ensures var w := Pton4(tok + THREE);
            w == if Octet(tok).Some? then Some(Octet(tok).value * 0x100_0000) else None
  {
    hide SF.Split, NumberOf, OctetsOf;
    var v := [tok, "0", "0", "0"];
    assert SF.Intercalate(v, ['.']) == tok + THREE by {
      assert v[1..] == ["0", "0", "0"] && v[1..][1..] == ["0", "0"] && v[1..][1..][1..] == ["0"];
      assert SF.Intercalate(["0"], ['.']) == "0";
      assert SF.Intercalate(["0", "0"], ['.']) == "0.0";
      assert SF.Intercalate(["0", "0", "0"], ['.']) == "0.0.0";
      assert tok + ['.'] + "0.0.0" == tok + THREE;
    }
    forall i | 0 <= i < 4 ensures '.' !in v[i] {}
    SF.JoinSplit(v, '.');
    OctetDecimal(0);
    ZeroDecimal();
    assert Octet(v[1]) == Octet(v[2]) == Octet(v[3]) == Some(0) && v[0] == tok;
    var r := OctetsOf(v);
    if Octet(tok).None? {
      assert Octet(v[0]).None?;
    } else {
      forall i | 0 <= i < 4 ensures Octet(v[i]).Some? {}
      OctetsThere(v);
      assert r.Some?;
      assert r.value == [Octet(tok).value, 0, 0, 0];
    }
  }

  /** Exactly when a text without dots can be completed to a version 6 address: its last group is a decimal octet, which
      with the three zeros takes the place of two groups, and there is room for these. */
  lemma CompletedIff(t: string)
    requires t != "" && '.' !in t
    ensures Pton6(t + THREE).Some?
       <==> && Reading(t).Some? && Octet(Reading(t).value.tok).Some?
            && if Reading(t).value.gap.Some? then |Reading(t).value.groups| < 6 else |Reading(t).value.groups| == 6
  {
    hide Reading, Octet, Pton4, ReadChar;
    ReadWhole(t, THREE);
    if Reading(t).Some? { TailOctets(Reading(t).value.tok); }
  }

  /** The text of a network whose address ends in a colon cannot be completed. */
  lemma ColonEnds(t: string)
    requires t != "" && '.' !in t && t[|t| - 1] == ':'
    ensures Pton6(t + THREE).None?
  {
    hide ReadText, ReadChar;
    CompletedIff(t);
    if t[0] == ':' && |t| >= 2 {
      LastColon(NOTHING, t[1..]);
    } else {
      LastColon(NOTHING, t);
    }
  }

  lemma {:induction false} LastColon(s: Scan, t: string)
    requires AddressText.Proper(s) && t != "" && '.' !in t && t[|t| - 1] == ':'
    ensures ReadText(s, t).Some? ==> ReadText(s, t).value.tok == ""
    decreases t
  {
    hide HexNumber;
    if |t| > 1 && ReadChar(s, t[0]).Some? { LastColon(ReadChar(s, t[0]).value, t[1..]); }
  }

  lemma FirstGroup(s: Scan)
    requires AddressText.Proper(s) && Finish(s).Some? && FinishDotted(s, THREE).Some?
    ensures Finish(s).value[0] == FinishDotted(s, THREE).value[0]
  {
    hide Pton4, HexNumber;
  }

  /** Where both the text and its completion are addresses, they have the same first byte. */
  lemma FirstByte(t: string)
    requires t != "" && '.' !in t && Pton6(t).Some? && Pton6(t + THREE).Some?
    ensures Pton6(t).value[0] / 0x100_0000 == Pton6(t + THREE).value[0] / 0x100_0000
  {
    hide Reading, Finish, FinishDotted, Pton4, ReadChar;
    ReadWhole(t, "");
    ReadWhole(t, THREE);
    assert t + "" == t;
    FirstGroup(Reading(t).value);
    FirstWord(Groups6(t).value);
    FirstWord(Groups6(t + THREE).value);
  }

  lemma FirstWord(g: seq<nat>)
    requires Groups(g)
    ensures WordsOf(g)[0] / 0x100_0000 == g[0] / 0x100
  {
  }

  /** Up to eight bits look at the first byte only. */
  lemma ShortMeaning(a: seq<nat>, b: seq<nat>, n: nat, rc: seq<nat>)
    requires Address(a) && Address(b) && Address(rc) && n <= 8 && a[0] / 0x100_0000 == b[0] / 0x100_0000
    ensures V6Meaning(a, n, rc) <==> V6Meaning(b, n, rc)
  {
    hide Value, V4Shaped;
    FirstByteValue(a);
    FirstByteValue(b);
    ShorterPrefix(Value(a), Value(b), 128 - n, 120);
  }

  lemma FirstByteValue(a: seq<nat>)
    requires Address(a)
    ensures Value(a) / Pow2(120) == a[0] / 0x100_0000
  {
    hide Value, Pow2;
    SplitNumbers(a, a);
    Pow2Add(24, 96);
    TwentyFour();
    DivBig(a[0], Pow2(96), Value(a[1..]), Pow2(24));
  }

  lemma TwentyFour()
    ensures Pow2(24) == 0x100_0000
  {
    Pow2Add(12, 12);
    assert Pow2(12) == 0x1000 by { Pow2Add(6, 6); assert Pow2(6) == 64; }
  }

  /** A text with a colon and a number of bits: completed to four octets when the bits reach no further than those that its
      dots make. */
  lemma V6LiteralNetwork(t: string, mask: string, n: int)
    requires ':' in t && (forall i :: 0 <= i < |t| ==> !Delimiter(t[i])) && ReadMask(Some(mask)) == PrefixBits(n)
    ensures NetworkOf(Literal(t, mask))
         == if n < 0 || n > 128 then None
            else Version6(if n <= 8 * Octets(t) then Complete(t) else t, a => Bits6(a, n))
  {
    hide Octets, Pton6, Pton4, ReadMask, Literal, NetworkOf, Pad;
    BitsThere(mask);
    LiteralNetwork(t, mask);
    if Pton4(Complete(t)).Some? { Pton4Chars(Complete(t), ':'); }
  }

  /** What the literal t/n becomes for a version 6 address t. With dots it is always the network of the address; without
      dots it is that from 9 bits on, and up to 8 bits that of the completed text, if this is an address at all. */
  lemma V6AddressNetwork(t: string, mask: string, n: nat)
    requires Pton6(t).Some? && n <= 128 && ReadMask(Some(mask)) == PrefixBits(n)
    ensures NetworkOf(Literal(t, mask))
         == if n > 8 || '.' in t then Some(Bits6(Pton6(t).value, n))
            else if Pton6(t + THREE).Some? then Some(Bits6(Pton6(t + THREE).value, n))
            else None
  {
    hide Octets, Pton6, Complete, ReadMask, Literal, NetworkOf;
    Version6Plain(t);
    V6LiteralNetwork(t, mask, n);
    if '.' in t { DotsAreFourOctets(t); } else { NoDots(t); }
  }

  /** The records that a literal matches are those that share the leading n bits of its address. */
  ghost predicate LiteralMeans(text: string, a: seq<nat>, n: nat)
    requires Address(a) && n <= 128
  {
    && NetworkOf(text).Some? && ProperNetwork(NetworkOf(text).value)
    && forall rc: seq<nat> :: Address(rc) ==> (Matches(NetOf(NetworkOf(text).value), rc) <==> V6Meaning(a, n, rc))
  }

  /** Exactly when t/n means what it says for a version 6 address t: there is at least one bit, and with no more than 8 bits
      and no dots the completed text is an address as well. So ff00::/8, fc00::/7 and 2000::/3 are refused. */
  lemma V6LiteralIff(t: string, mask: string, n: nat)
    requires Pton6(t).Some? && n <= 128 && ReadMask(Some(mask)) == PrefixBits(n)
    ensures LiteralMeans(Literal(t, mask), Pton6(t).value, n)
       <==> n >= 1 && (n > 8 || '.' in t || Pton6(t + THREE).Some?)
  {
    hide Pton6, ReadMask, Literal, NetworkOf, Matches, NetOf, V6Meaning;
    V6AddressNetwork(t, mask, n);
    var text := Literal(t, mask);
    if NetworkOf(text).Some? {
      var w := NetworkOf(text).value;
      NetworkMeaningIff(w);
      forall rc: seq<nat> | Address(rc) ensures Means(w, rc) <==> V6Meaning(Pton6(t).value, n, rc) {
        if n <= 8 && '.' !in t {
          Version6Plain(t);
          FirstByte(t);
          ShortMeaning(w.a6, Pton6(t).value, n, rc);
        }
      }
    }
  }

  /** Fewer bits match more, whatever the address text: where t/n and t/m are networks and 1 <= m <= n, all that t/n
      matches t/m matches. */
  lemma LiteralMonotone(t: string, mask: string, n: nat, mask': string, m: nat, rc: seq<nat>)
    requires t != "" && (forall i :: 0 <= i < |t| ==> !Delimiter(t[i])) && Address(rc) && 1 <= m <= n
    requires ReadMask(Some(mask)) == PrefixBits(n) && ReadMask(Some(mask')) == PrefixBits(m)
    requires NetworkOf(Literal(t, mask)).Some? && NetworkOf(Literal(t, mask')).Some?
    ensures var w, w' := NetworkOf(Literal(t, mask)).value, NetworkOf(Literal(t, mask')).value;
            ProperNetwork(w) && ProperNetwork(w') && (Matches(NetOf(w), rc) ==> Matches(NetOf(w'), rc))
  {
    hide Pton4, Pton6, ReadMask, Literal, Matches, V4Net, V6Net, Octets, Complete;
    BitsThere(mask);
    BitsThere(mask');
    NetworkProper(Literal(t, mask));
    NetworkProper(Literal(t, mask'));
    LiteralNetwork(t, mask);
    LiteralNetwork(t, mask');
    hide NetworkOf;
    if Pton6(Complete(t)).Some? {
      Version6Plain(Complete(t));
      if Pton4(Complete(t)).Some? { Pton4Chars(Complete(t), ':'); }
    }
    var w, w' := NetworkOf(Literal(t, mask)).value, NetworkOf(Literal(t, mask')).value;
    if w.Bits4? {
      assert w' == Bits4(w.a, m);
      PrefixMonotone(w.a, [0, 0, 0, 0], m, n, rc);
    } else if w'.Bits6? && w'.a6 == w.a6 {
      PrefixMonotone(0, w.a6, m, n, rc);
    } else {
      MonotoneAcross(t, n, m, w, w', rc);
    }
  }

  /** The longer one is read as it stands, the shorter one completed. */
  lemma MonotoneAcross(t: string, n: nat, m: nat, w: Network, w': Network, rc: seq<nat>)
    requires t != "" && Address(rc) && 1 <= m <= n <= 128 && m <= 8 * Octets(t)
    requires n > 8 * Octets(t) && Pton6(t).Some? && w == Bits6(Pton6(t).value, n) && ProperNetwork(w)
    requires Some(w') == if m > 32 then Version6(Complete(t), a => Bits6(a, m))
                         else EitherVersion(Complete(t), (a: nat) => Bits4(a, m), a => Bits6(a, m))
    requires ProperNetwork(w')
    ensures Matches(NetOf(w), rc) ==> Matches(NetOf(w'), rc)
  {
    hide Pton4, Pton6, Matches, V4Net, V6Net, Octets, V6Meaning;
    Version6Plain(t);
    if Pton4(Complete(t)).Some? { Pton4Chars(Complete(t), ':'); }
    if '.' in t {
      DotsAreFourOctets(t);
      PrefixMonotone(0, w.a6, m, n, rc);
    } else {
      NoDots(t);
      FirstByte(t);
      PrefixMonotone(0, w.a6, m, n, rc);
      V6PrefixMatches(w.a6, m, rc);
      V6PrefixMatches(w'.a6, m, rc);
      ShortMeaning(w.a6, w'.a6, m, rc);
    }
  }

  // ---- Networks of one group ----

  lemma {:induction false} ReadDigits(s: Scan, d: string, u: string)
    requires AddressText.Proper(s) && AllHex(d) && d != "" && |s.tok| + |d| <= 4
    ensures AllHex(s.tok + d)
    ensures ReadGroups(s, d + u) == ReadGroups(Scan(s.groups, s.gap, s.tok + d, false), u)
    decreases d
  {
    hide Finish, FinishDotted;
    var next := Scan(s.groups, s.gap, s.tok + [d[0]], false);
    assert IsHex(d[0]) && d[0] != '.';
    assert (d + u)[0] == d[0] && (d + u)[1..] == d[1..] + u;
    assert ReadGroups(s, d + u) == ReadGroups(next, d[1..] + u);
    assert s.tok + [d[0]] + d[1..] == s.tok + d;
    if |d| == 1 {
      assert d[1..] + u == u && s.tok + [d[0]] == s.tok + d;
    } else {
      ReadDigits(next, d[1..], u);
    }
  }

  /** One group and "::". */
  lemma OneGroup(d: string)
    requires AllHex(d) && 1 <= |d| <= 4
    ensures Pton6(d + "::") == Some([HexNumber(d) * 0x1_0000, 0, 0, 0])
  {
    hide HexNumber, ReadGroups, Groups6;
    DigitsFirst(d, "::");
    GroupEnds(d);
    GroupThenGap(HexNumber(d));
  }

  lemma DigitsFirst(d: string, u: string)
    requires AllHex(d) && 1 <= |d| <= 4
    ensures Groups6(d + u) == ReadGroups(Scan([], None, d, false), u)
  {
    hide ReadGroups;
    ReadDigits(NOTHING, d, u);
    assert "" + d == d && (d + u)[0] == d[0];
    assert IsHex(d[0]);
  }

  lemma GroupEnds(d: string)
    requires AllHex(d) && 1 <= |d| <= 4
    ensures ReadGroups(Scan([], None, d, false), "::") == ReadGroups(Scan([HexNumber(d)], None, "", true), ":")
  {
    hide HexNumber, Finish, FinishDotted;
    assert "::"[1..] == ":" && [] + [HexNumber(d)] == [HexNumber(d)];
  }

  lemma GroupThenGap(g: nat)
    requires g < 0x1_0000
    ensures ReadGroups(Scan([g], None, "", true), ":") == Some([g, 0, 0, 0, 0, 0, 0, 0])
  {
    assert ":"[1..] == "" && [g][..1] == [g] && [g][1..] == [];
    assert Finish(Scan([g], Some(1), "", false)) == Some([g] + Zeros(7) + []);
    assert [g] + Zeros(7) + [] == [g, 0, 0, 0, 0, 0, 0, 0];
  }

  /** A single group with up to 8 bits is an address, but no network: ff00::/8, fc00::/7 and 2000::/3 are refused. */
  lemma OneGroupRefused(d: string, n: nat)
    requires AllHex(d) && 1 <= |d| <= 4 && n <= 8
    ensures Pton6(d + "::").Some? && NetworkOf(Literal(d + "::", Decimal(n))) == None
  {
    hide Pton6, Literal, NetworkOf, Decimal, ReadMask, HexNumber;
    OneGroup(d);
    DecimalBits(n);
    assert forall i :: 0 <= i < |d| ==> d[i] != '.' by { assert forall i :: 0 <= i < |d| ==> IsHex(d[i]); }
    ColonEnds(d + "::");
    V6AddressNetwork(d + "::", Decimal(n), n);
  }
}
