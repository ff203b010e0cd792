/** IP addresses in filters: netmasks, address literals and prefix matching, against "the leading n bits agree". An
    address is four 32-bit words, each read with its most significant byte first. */
module Prefix {
  import opened AddressText
  import opened Bits
  import opened Wrappers

  const ONES: nat := 0xffff_ffff

  const WORD: nat := 0x1_0000_0000

  lemma WordIsPow2()
    ensures Pow2(32) == WORD
  {
    Pow2Add(16, 16);
    assert Pow2(8) == 256;
    Pow2Add(8, 8);
  }

  /** Four words. */
  predicate Address(ws: seq<nat>) { |ws| == 4 && Words(ws) }

  predicate Words(ws: seq<nat>) { forall i :: 0 <= i < |ws| ==> ws[i] < WORD }

  /** The number that the words spell, most significant word first. */
  function Value(ws: seq<nat>): nat {
    if ws == [] then 0 else ws[0] * Pow2(32 * (|ws| - 1)) + Value(ws[1..])
  }

  // ---- Netmasks ----

  /** All ones above the low bits that a shift by k leaves. */
  function PartialWord(k: nat): nat { ONES - ONES / Pow2(k) }

  function NetmaskWord(n: int, before: nat, i: nat): nat {
    var q := if n < 0 then 0 else n / 32;
    if i < q then ONES else if i == q then PartialWord(n % 32) else before
  }

  function Netmask(n: int, before: seq<nat>): (r: seq<nat>)
    requires |before| == 4
    ensures |r| == 4 && forall i :: 0 <= i < 4 ==> r[i] == NetmaskWord(n, before[i], i)
  {
    [NetmaskWord(n, before[0], 0), NetmaskWord(n, before[1], 1), NetmaskWord(n, before[2], 2), NetmaskWord(n, before[3], 3)]
  }

  /** A number of bits outside 0..128 is reported, though the mask is written all the same; from 160 on words behind the
      mask are written too, which `outside` tells. */
  method IntToNetmask(numbits: int, mask: array<nat>) returns (retval: nat, outside: bool)
    requires mask.Length == 4
    modifies mask
    ensures mask[..] == Netmask(numbits, old(mask[..]))
    ensures retval == if numbits > 128 || numbits < 0 then 1 else 0
    ensures outside <==> numbits >= 160
  {
    hide PartialWord;
    retval, outside := 0, false;
    if numbits > 128 || numbits < 0 { retval := 1; }
    var x := 0;
    while x < numbits / 32
      invariant 0 <= x && (x == 0 || x <= numbits / 32)
      invariant outside <==> x > 4
      invariant forall i :: 0 <= i < x && i < 4 ==> mask[i] == ONES
      invariant forall i :: x <= i < 4 ==> mask[i] == old(mask[i])
    {
      if x < mask.Length { mask[x] := ONES; } else { outside := true; }
      x := x + 1;
    }
    if x < 4 { mask[x] := PartialWord(numbits % 32); }
  }

  /** The leading n of 32*l bits are ones. */
  function MaskWords(n: nat, l: nat): (r: seq<nat>)
    ensures |r| == l
  {
    if l == 0 then [] else if n >= 32 then [ONES] + MaskWords(n - 32, l - 1) else [PartialWord(n)] + MaskWords(0, l - 1)
  }

  lemma PartialWordIs(k: nat)
    requires k < 32
    ensures Pow2(32 - k) <= WORD && PartialWord(k) == WORD - Pow2(32 - k)
  {
    hide Pow2;
    WordIsPow2();
    Pow2Add(k, 32 - k);
    Pow2Mono(32 - k, 32);
    OnesDiv(Pow2(k), Pow2(32 - k));
  }

  lemma OnesDiv(c: nat, d: nat)
    requires c >= 1 && d >= 1 && c * d == WORD
    ensures ONES / c == d - 1
  {
    assert c * (d - 1) == c * d - c;
    ModUnique(ONES, c, d - 1, c - 1);
  }

  lemma NetmaskIsMaskWords(n: nat)
    requires n <= 128
    ensures Netmask(n, [0, 0, 0, 0]) == MaskWords(n, 4)
  {
    hide PartialWord, Netmask;
    var m := Netmask(n, [0, 0, 0, 0]);
    assert PartialWord(0) == 0 by { PartialWordIs(0); WordIsPow2(); }
    assert MaskWords(0, 1) == [0] && MaskWords(0, 2) == [0, 0] && MaskWords(0, 3) == [0, 0, 0];
    if n < 32 {
      assert n / 32 == 0 && n % 32 == n;
    } else if n < 64 {
      assert n / 32 == 1 && n % 32 == n - 32;
      assert MaskWords(n - 32, 3) == [PartialWord(n - 32)] + [0, 0];
    } else if n < 96 {
      assert n / 32 == 2 && n % 32 == n - 64;
      assert MaskWords(n - 64, 2) == [PartialWord(n - 64)] + [0];
      assert MaskWords(n - 32, 3) == [ONES] + MaskWords(n - 64, 2);
    } else {
      LastMaskWord(n);
    }
  }

  lemma LastMaskWord(n: nat)
    requires 96 <= n <= 128
    ensures Netmask(n, [0, 0, 0, 0]) == MaskWords(n, 4)
  {
    hide PartialWord, Netmask;
    var last := if n < 128 then PartialWord(n - 96) else ONES;
    assert n < 128 ==> n / 32 == 3 && n % 32 == n - 96;
    assert MaskWords(n - 96, 1) == [last] + MaskWords(if n < 128 then 0 else 0, 0);
    assert MaskWords(n - 64, 2) == [ONES] + MaskWords(n - 96, 1);
    assert MaskWords(n - 32, 3) == [ONES] + MaskWords(n - 64, 2);
    assert Netmask(n, [0, 0, 0, 0]) == [ONES, ONES, ONES, last];
  }

  lemma ValueCons(w: nat, ws: seq<nat>)
    ensures Value([w] + ws) == w * Pow2(32 * |ws|) + Value(ws)
  {
    assert ([w] + ws)[1..] == ws;
  }

  lemma {:induction false} MaskWordsValue(n: nat, l: nat)
    requires n <= 32 * l
    ensures Pow2(32 * l - n) <= Pow2(32 * l)
    ensures Value(MaskWords(n, l)) == Pow2(32 * l) - Pow2(32 * l - n)
  {
    hide PartialWord, Pow2, Value;
    Pow2Mono(32 * l - n, 32 * l);
    if l == 0 {
      ValueNothing();
    } else {
      var q := Pow2(32 * (l - 1));
      WordIsPow2();
      Pow2Add(32, 32 * (l - 1));
      assert 32 + 32 * (l - 1) == 32 * l;
      if n >= 32 {
        MaskWordsValue(n - 32, l - 1);
        ValueCons(ONES, MaskWords(n - 32, l - 1));
        assert 32 * (l - 1) - (n - 32) == 32 * l - n;
      } else {
        MaskWordsValue(0, l - 1);
        ValueCons(PartialWord(n), MaskWords(0, l - 1));
        PartialWordIs(n);
        Pow2Add(32 - n, 32 * (l - 1));
        assert 32 - n + 32 * (l - 1) == 32 * l - n;
        MinusTimes(WORD, Pow2(32 - n), q);
      }
    }
  }

  lemma ValueNothing()
    ensures Value([]) == 0
  {
  }

  lemma MinusTimes(a: int, b: int, q: int)
    ensures (a - b) * q == a * q - b * q
  {
  }

  /** The netmask of n bits is 2^128 - 2^(128-n). */
  lemma NetmaskValue(n: nat)
    requires n <= 128
    ensures Pow2(128 - n) <= Pow2(128)
    ensures Value(Netmask(n, [0, 0, 0, 0])) == Pow2(128) - Pow2(128 - n)
  {
    hide Netmask, MaskWords, Value, Pow2;
    NetmaskIsMaskWords(n);
    MaskWordsValue(n, 4);
  }

  // ---- Masked comparison ----

  predicate SameMasked(a: seq<nat>, b: seq<nat>, mask: seq<nat>)
    requires |a| == |b| == |mask|
  {
    forall i :: 0 <= i < |a| ==> And(a[i], mask[i]) == And(b[i], mask[i])
  }

  lemma {:induction false} ValueBound(ws: seq<nat>)
    requires Words(ws)
    ensures Value(ws) < Pow2(32 * |ws|)
  {
    if ws != [] {
      ValueBound(ws[1..]);
      var q := Pow2(32 * (|ws| - 1));
      WordIsPow2();
      Pow2Add(32, 32 * (|ws| - 1));
      assert ws[0] * q <= (WORD - 1) * q by { MulMono(ws[0], WORD - 1, q); }
    }
  }

  lemma MulMono(a: nat, b: nat, c: nat)
    requires a <= b
    ensures a * c <= b * c
  {
    assert (b - a) * c >= 0;
  }

  /** Dividing by a divisor of the word's weight. */
  lemma DivSplit(x: nat, v: nat, d: nat, e: nat)
    requires d >= 1 && e >= 1 && v < d * e
    ensures (x * (d * e) + v) / d == x * e + v / d && v / d < e
  {
    var y, r := v / d, v % d;
    assert v == d * y + r;
    assert x * (d * e) + v == d * (x * e + y) + r by { assert x * (d * e) == d * (x * e); }
    ModUnique(x * (d * e) + v, d, x * e + y, r);
    DivLess(v, d, e);
  }

  lemma DivLess(v: nat, d: nat, e: nat)
    requires d >= 1 && v < d * e
    ensures v / d < e
  {
    assert d * (v / d) <= v;
    if v / d >= e {
      MulMono(e, v / d, d);
      assert false;
    }
  }

  lemma SplitUnique(e: nat, x: nat, y: nat, x': nat, y': nat)
    requires e >= 1 && y < e && y' < e
    ensures x * e + y == x' * e + y' <==> x == x' && y == y'
  {
    assert x * e + y == e * x + y && x' * e + y' == e * x' + y';
    ModUnique(x * e + y, e, x, y);
    ModUnique(x' * e + y', e, x', y');
  }

  /** Dividing by more than the word's weight leaves nothing of the words behind it. */
  lemma DivBig(x: nat, q: nat, v: nat, c: nat)
    requires q >= 1 && c >= 1 && v < q
    ensures c * q >= 1 && (x * q + v) / (c * q) == x / c
  {
    var y, r := x / c, x % c;
    assert x == c * y + r;
    MulMono(1, c, q);
    assert x * q + v == (c * q) * y + (r * q + v) by { assert (c * y + r) * q == (c * q) * y + r * q; }
    assert r * q + v < c * q by { MulMono(r, c - 1, q); assert (c - 1) * q == c * q - q; }
    ModUnique(x * q + v, c * q, y, r * q + v);
  }

  lemma TopEqual(x: nat, y: nat, c: nat)
    requires c >= 1
    ensures x - x % c == y - y % c <==> x / c == y / c
  {
    assert x - x % c == c * (x / c) && y - y % c == c * (y / c);
    if c * (x / c) == c * (y / c) {
      ModUnique(c * (x / c), c, x / c, 0);
      ModUnique(c * (y / c), c, y / c, 0);
    }
  }

  lemma AndZero(x: nat)
    ensures And(x, 0) == 0
  {
  }

  lemma AndWord(x: nat, k: nat)
    requires x < WORD && k < 32
    ensures And(x, PartialWord(k)) == x - x % Pow2(32 - k) && And(x, ONES) == x
  {
    WordIsPow2();
    PartialWordIs(k);
    AndTopMask(x, 32, 32 - k);
    AndAllOnes(x, 32);
  }

  /** The numbers agree above their low d bits. */
  predicate SameAbove(a: seq<nat>, b: seq<nat>, d: nat) { Value(a) / Pow2(d) == Value(b) / Pow2(d) }

  /** Words that agree under the mask of n bits are those whose numbers agree in the leading n bits. */
  lemma {:induction false} MaskedIsPrefix(a: seq<nat>, b: seq<nat>, n: nat)
    requires Words(a) && Words(b) && |a| == |b| && n <= 32 * |a|
    ensures SameMasked(a, b, MaskWords(n, |a|)) <==> SameAbove(a, b, 32 * |a| - n)
    decreases |a|
  {
    hide PartialWord, And, Pow2, Value, SameMasked, SameAbove;
    var l := |a|;
    if l == 0 {
      assert a == b == [];
      NothingMasked(a, b);
      assert MaskWords(0, 0) == MaskWords(n, 0);
      SameAboveItself(a, 32 * |a| - n);
    } else {
      var m := MaskWords(n, l);
      SameMaskedSplit(a, b, m);
      if n >= 32 {
        assert m[1..] == MaskWords(n - 32, l - 1);
        MaskedIsPrefix(a[1..], b[1..], n - 32);
        AndWord(a[0], 0);
        AndWord(b[0], 0);
        LongerPrefix(a, b, n);
      } else {
        assert m[1..] == MaskWords(0, l - 1);
        NothingMasked(a[1..], b[1..]);
        AndWord(a[0], n);
        AndWord(b[0], n);
        PrefixWithin(a, b, n);
      }
    }
  }

  lemma SameAboveItself(a: seq<nat>, d: nat)
    ensures SameAbove(a, a, d)
  {
  }

  lemma LongerPrefix(a: seq<nat>, b: seq<nat>, n: nat)
    requires Words(a) && Words(b) && |a| == |b| && a != [] && 32 <= n <= 32 * |a|
    ensures SameAbove(a, b, 32 * |a| - n) <==> a[0] == b[0] && SameAbove(a[1..], b[1..], 32 * |a[1..]| - (n - 32))
  {
    hide Pow2, Value;
    SplitNumbers(a, b);
    var k := 32 * (|a| - 1);
    BeyondWord(a[0], b[0], Value(a[1..]), Value(b[1..]), 32 * |a| - n, n - 32, k);
    assert 32 * |a[1..]| - (n - 32) == 32 * |a| - n;
  }

  lemma PrefixWithin(a: seq<nat>, b: seq<nat>, n: nat)
    requires Words(a) && Words(b) && |a| == |b| && a != [] && n < 32
    ensures SameAbove(a, b, 32 * |a| - n) <==> a[0] - a[0] % Pow2(32 - n) == b[0] - b[0] % Pow2(32 - n)
  {
    hide Pow2, Value;
    SplitNumbers(a, b);
    var k := 32 * (|a| - 1);
    WithinWord(a[0], b[0], Value(a[1..]), Value(b[1..]), n, k);
    assert 32 - n + k == 32 * |a| - n;
  }

  lemma SplitNumbers(a: seq<nat>, b: seq<nat>)
    requires Words(a) && Words(b) && |a| == |b| && a != []
    ensures var q := Pow2(32 * (|a| - 1));
            && Value(a) == a[0] * q + Value(a[1..]) && Value(a[1..]) < q
            && Value(b) == b[0] * q + Value(b[1..]) && Value(b[1..]) < q
  {
    hide Pow2, Value;
    assert a == [a[0]] + a[1..] && b == [b[0]] + b[1..];
    ValueCons(a[0], a[1..]);
    ValueCons(b[0], b[1..]);
    ValueBound(a[1..]);
    ValueBound(b[1..]);
  }

  /** The prefix reaches beyond the first word. */
  lemma BeyondWord(x: nat, y: nat, v: nat, w: nat, i: nat, j: nat, k: nat)
    requires i + j == k && v < Pow2(k) && w < Pow2(k)
    ensures (x * Pow2(k) + v) / Pow2(i) == (y * Pow2(k) + w) / Pow2(i)
      <==> x == y && v / Pow2(i) == w / Pow2(i)
  {
    hide Pow2;
    Pow2Add(i, j);
    SplitAt(x, v, Pow2(i), Pow2(j), Pow2(k));
    SplitAt(y, w, Pow2(i), Pow2(j), Pow2(k));
    SplitUnique(Pow2(j), x, v / Pow2(i), y, w / Pow2(i));
  }

  lemma SplitAt(x: nat, v: nat, d: nat, e: nat, q: nat)
    requires d >= 1 && e >= 1 && q == d * e && v < q
    ensures (x * q + v) / d == x * e + v / d && v / d < e
  {
    DivSplit(x, v, d, e);
    assert x * q + v == x * (d * e) + v;
  }

  /** The prefix ends within the first word. */
  lemma WithinWord(x: nat, y: nat, v: nat, w: nat, n: nat, k: nat)
    requires n < 32 && v < Pow2(k) && w < Pow2(k)
    ensures (x * Pow2(k) + v) / Pow2(32 - n + k) == (y * Pow2(k) + w) / Pow2(32 - n + k)
      <==> x - x % Pow2(32 - n) == y - y % Pow2(32 - n)
  {
    hide Pow2;
    Pow2Add(32 - n, k);
    DivBig(x, Pow2(k), v, Pow2(32 - n));
    DivBig(y, Pow2(k), w, Pow2(32 - n));
    TopEqual(x, y, Pow2(32 - n));
  }

  lemma SameMaskedSplit(a: seq<nat>, b: seq<nat>, m: seq<nat>)
    requires |a| == |b| == |m| && a != []
    ensures SameMasked(a, b, m) <==> And(a[0], m[0]) == And(b[0], m[0]) && SameMasked(a[1..], b[1..], m[1..])
  {
    hide And;
    if And(a[0], m[0]) == And(b[0], m[0]) && SameMasked(a[1..], b[1..], m[1..]) {
      forall i | 0 <= i < |a| ensures And(a[i], m[i]) == And(b[i], m[i]) {
        assert i > 0 ==> a[i] == a[1..][i - 1] && b[i] == b[1..][i - 1] && m[i] == m[1..][i - 1];
      }
    }
    if SameMasked(a, b, m) {
      forall i | 0 <= i < |a| - 1 ensures And(a[1..][i], m[1..][i]) == And(b[1..][i], m[1..][i]) {
        assert a[1..][i] == a[i + 1] && b[1..][i] == b[i + 1] && m[1..][i] == m[i + 1];
      }
    }
  }

  lemma {:induction false} NothingMasked(a: seq<nat>, b: seq<nat>)
    requires |a| == |b|
    ensures SameMasked(a, b, MaskWords(0, |a|))
    decreases |a|
  {
    if a != [] {
      NothingMasked(a[1..], b[1..]);
      var m := MaskWords(0, |a|);
      assert m[1..] == MaskWords(0, |a| - 1);
      assert m[0] == 0 by { PartialWordIs(0); WordIsPow2(); }
      AndZero(a[0]);
      AndZero(b[0]);
      SameMaskedSplit(a, b, m);
    }
  }

  // ---- Address literals ----

  /** A network in a filter node. */
  datatype Net = Net(ver: nat, ip: seq<nat>, mask: seq<nat>)

  function AndWords(a: seq<nat>, m: seq<nat>): (r: seq<nat>)
    requires |a| == |m|
    ensures |r| == |a| && forall i :: 0 <= i < |a| ==> r[i] == And(a[i], m[i])
  {
    if a == [] then [] else [And(a[0], m[0])] + AndWords(a[1..], m[1..])
  }

  /** The network that a literal denotes: an address with a number of bits or with a mask of its own. */
  datatype Network =
    | Bits4(a: nat, n: nat)
    | Bits6(a6: seq<nat>, n: nat)
    | Mask4(a: nat, m: nat)
    | Mask6(a6: seq<nat>, ms: seq<nat>)

  predicate ProperNetwork(w: Network) {
    match w
    case Bits4(a, n) => a < WORD && n <= 32
    case Bits6(a, n) => Address(a) && n <= 128
    case Mask4(a, m) => a < WORD && m < WORD
    case Mask6(a, ms) => Address(a) && Address(ms)
  }

  /** A text of either version, preferring version 4. */
  function EitherVersion(text: string, four: nat -> Network, six: seq<nat> -> Network): Option<Network> {
    if Pton4(text).Some? then Some(four(Pton4(text).value))
    else if Pton6(text).Some? then Some(six(Pton6(text).value))
    else None
  }

  function Version6(text: string, six: seq<nat> -> Network): Option<Network> {
    if Pton6(text).Some? then Some(six(Pton6(text).value)) else None
  }

  /** The network of an address text and what follows it. A number of bits that reaches beyond the octets of the text makes
      it a version 6 address; otherwise the text is completed to four octets. */
  function NetworkFrom(ip: string, mask: MaskText): (w: Option<Network>)
    requires mask.PrefixBits? ==> ip != ""
  {
    match mask
    case NoMask => EitherVersion(ip, (a: nat) => Bits4(a, 32), a => Bits6(a, 128))
    case PrefixBits(n) =>
      if n < 0 || n > 128 then None
      else
        var bits: nat := n;
        if n > 8 * Octets(ip) then Version6(ip, a => Bits6(a, bits))
        else if n > 32 then Version6(Complete(ip), a => Bits6(a, bits))
        else EitherVersion(Complete(ip), (a: nat) => Bits4(a, bits), a => Bits6(a, bits))
    case MaskV4(m) => EitherVersion(ip, (a: nat) => Mask4(a, m), a => Mask6(a, [m, 0, 0, 0]))
    case MaskV6(ms) => Version6(ip, a => Mask6(a, ms))
    case BadMask => None
  }

  function NetworkOf(text: string): Option<Network> {
    var (ip, mask) := CutLiteral(text);
    NetworkFrom(ip, ReadMask(mask))
  }

  lemma NetworkProper(text: string)
    ensures NetworkOf(text).Some? ==> ProperNetwork(NetworkOf(text).value)
  {
    hide Pton4, Pton6, CutLiteral, ReadMask, Complete, Octets;
  }

  /** What a filter node holds of a network: a version 4 address and mask in the last word, a version 6 one as it is; the
      address cut to the mask. */
  function NetOf(w: Network): (net: Net)
    requires ProperNetwork(w)
    ensures ProperNet(net)
  {
    match w
    case Bits4(a, n) => V4Net(a, n)
    case Bits6(a, n) => V6Net(a, n)
    case Mask4(a, m) => Net4(a, m)
    case Mask6(a, ms) => Net6(a, ms)
  }

  function Net4(a: nat, m: nat): Net { Net(4, [0, 0, 0, And(a, m)], [0, 0, 0, m]) }

  function Net6(a: seq<nat>, ms: seq<nat>): Net
    requires |a| == 4 && |ms| == 4
  {
    Net(6, AndWords(a, ms), ms)
  }

  function V4Net(a: nat, n: nat): (net: Net)
    ensures ProperNet(net)
  {
    Net4(a, Netmask(n, [0, 0, 0, 0])[0])
  }

  function V6Net(a: seq<nat>, n: nat): (net: Net)
    requires |a| == 4
    ensures ProperNet(net)
  {
    Net6(a, Netmask(n, [0, 0, 0, 0]))
  }

  predicate ProperNet(net: Net) { |net.ip| == 4 && |net.mask| == 4 }

  /** The mask before it is placed. */
  function MaskOf(mask: MaskText): (m: seq<nat>)
    requires mask.MaskV6? ==> |mask.words| == 4
    ensures |m| == 4
  {
    match mask
    case NoMask => [ONES, ONES, ONES, ONES]
    case PrefixBits(n) => Netmask(n, [0, 0, 0, 0])
    case MaskV4(word) => [word, 0, 0, 0]
    case MaskV6(words) => words
    case BadMask => [0, 0, 0, 0]
  }

  predicate MaskAccepted(mask: MaskText) {
    !mask.BadMask? && (mask.PrefixBits? ==> 0 <= mask.n <= 128)
  }

  /** Fills the mask and guesses the version, 0 for none; a text with a number of bits is completed if it can be. */
  method FillMask(maskText: MaskText, mask: array<nat>, ip: string)
    returns (ok: bool, numbits: int, ipVer: nat, text: string)
    requires mask.Length == 4 && mask[..] == [0, 0, 0, 0] && (maskText.PrefixBits? ==> ip != "")
    requires maskText.MaskV6? ==> |maskText.words| == 4
    modifies mask
    ensures ok <==> MaskAccepted(maskText)
    ensures ok ==> mask[..] == MaskOf(maskText)
    ensures ok ==> numbits == (if maskText.PrefixBits? then maskText.n else 0)
    ensures ok && maskText.PrefixBits? ==>
      if numbits <= 8 * Octets(ip) then ipVer == 4 && text == Complete(ip) else ipVer == 6 && text == ip
    ensures ok && !maskText.PrefixBits? ==> text == ip && (ipVer == 6 <==> maskText.MaskV6?)
  {
    hide Netmask, Complete, Octets;
    ok, numbits, ipVer, text := true, 0, 0, ip;
    match maskText {
      case NoMask =>
        for i := 0 to 4
          invariant forall k :: 0 <= k < i ==> mask[k] == ONES
        {
          mask[i] := ONES;
        }
      case PrefixBits(n) =>
        numbits := n;
        var bad, outside := IntToNetmask(numbits, mask);
        if bad != 0 { return false, numbits, 0, ip; }
        var unwrapped := UnwrapIp(ip, numbits);
        if unwrapped.Some? {
          ipVer := 4;
          text := unwrapped.value;
        } else {
          ipVer := 6;
        }
      case MaskV4(word) =>
        mask[0] := word;
        ipVer := 4;
      case MaskV6(words) =>
        for i := 0 to 4
          invariant forall k :: 0 <= k < i ==> mask[k] == words[k]
        {
          mask[i] := words[i];
        }
        ipVer := 6;
      case BadMask => ok := false;
    }
  }

  method ApplyMask(ip: array<nat>, mask: array<nat>)
    requires ip.Length == 4 && mask.Length == 4 && ip != mask
    modifies ip
    ensures ip[..] == AndWords(old(ip[..]), mask[..])
  {
    hide And;
    for x := 0 to 4
      invariant forall k :: 0 <= k < x ==> ip[k] == And(old(ip[k]), mask[k])
      invariant forall k :: x <= k < 4 ==> ip[k] == old(ip[k])
    {
      ip[x] := And(ip[x], mask[x]);
    }
  }

  method StrToAddr(str: string) returns (res: Option<Net>)
    ensures res.Some? <==> NetworkOf(str).Some?
    ensures res.Some? ==> ProperNetwork(NetworkOf(str).value) && res.value == NetOf(NetworkOf(str).value)
  {
    hide And, AndWords, MaskOf, MaskAccepted, Netmask, Pton4, Pton6, CutLiteral, ReadMask, Complete, Octets, NetworkOf,
         NetworkFrom, NetOf;
    var (ipText, maskRest) := CutLiteral(str);
    var maskText := ReadMask(maskRest);
    NetworkProper(str);
    var mask := new nat[4](_ => 0);
    var ip := new nat[4](_ => 0);
    assert mask[..] == [0, 0, 0, 0] && ip[..] == [0, 0, 0, 0];
    var ok, numbits, ipVer, text := FillMask(maskText, mask, ipText);
    NetworkRead(str, ok, numbits, ipVer, text);
    if !ok { return None; }
    ghost var m := mask[..];
    var ver := 6;
    var v4, v6 := Pton4(text), Pton6(text);
    if v4.Some? { ip[3] := v4.value; }
    if v4.Some? && numbits <= 32 && ipVer != 6 {
      mask[3] := mask[0];
      mask[0] := 0;
      mask[1] := 0;
      mask[2] := 0;
      ver := 4;
      assert ip[..] == [0, 0, 0, v4.value] && mask[..] == [0, 0, 0, m[0]];
      AndLast(v4.value, m[0]);
    } else if v6.Some? {
      ip[0], ip[1], ip[2], ip[3] := v6.value[0], v6.value[1], v6.value[2], v6.value[3];
      assert ip[..] == v6.value && mask[..] == m;
    } else {
      return None;
    }
    ApplyMask(ip, mask);
    res := Some(Net(ver, ip[..], mask[..]));
  }

  /** The network in terms of what the program has found before it reads the address. */
  lemma NetworkRead(str: string, ok: bool, numbits: int, ipVer: nat, text: string)
    requires var (ip, rest) := CutLiteral(str);
             var mask := ReadMask(rest);
             && (ok <==> MaskAccepted(mask))
             && (ok ==> numbits == if mask.PrefixBits? then mask.n else 0)
             && (ok && mask.PrefixBits? ==>
                   if numbits <= 8 * Octets(ip) then ipVer == 4 && text == Complete(ip) else ipVer == 6 && text == ip)
             && (ok && !mask.PrefixBits? ==> text == ip && (ipVer == 6 <==> mask.MaskV6?))
    ensures var m := MaskOf(ReadMask(CutLiteral(str).1));
            var w := NetworkOf(str);
            && (w.Some? ==> ProperNetwork(w.value))
            && if !ok then w == None
               else if Pton4(text).Some? && numbits <= 32 && ipVer != 6 then
                 w.Some? && NetOf(w.value) == Net4(Pton4(text).value, m[0])
               else if Pton6(text).Some? then w.Some? && NetOf(w.value) == Net6(Pton6(text).value, m)
               else w == None
  {
    hide And, AndWords, Netmask, Pton4, Pton6, CutLiteral, ReadMask, Complete, Octets;
    NetworkProper(str);
    FullMask();
  }

  lemma FullMask()
    ensures Netmask(32, [0, 0, 0, 0])[0] == ONES && Netmask(128, [0, 0, 0, 0]) == [ONES, ONES, ONES, ONES]
  {
  }

  lemma AndLast(x: nat, m: nat)
    ensures AndWords([0, 0, 0, x], [0, 0, 0, m]) == [0, 0, 0, And(x, m)]
  {
    AndNothing();
    var r := AndWords([0, 0, 0, x], [0, 0, 0, m]);
    assert r[0] == And(0, 0) && r[1] == And(0, 0) && r[2] == And(0, 0) && r[3] == And(x, m);
  }

  lemma AndNothing()
    ensures And(0, 0) == 0
  {
  }

  // ---- Record addresses ----

  /** The program's test for a version 4 address in a record. */
  predicate IsIp4(a: seq<nat>)
    requires |a| == 4
  {
    a[0] == 0 && a[1] == 0 && a[3] == ONES
  }

  /** The record data as filters see it: a version 4 address in the last word, others as they are. */
  function Seen(a: seq<nat>): (r: seq<nat>)
    requires Address(a)
    ensures Address(r)
  {
    if IsIp4(a) then [0, 0, 0, a[2]] else a
  }

  method DataFunc(addr: seq<nat>, ui64: array<nat>) returns (data: seq<nat>)
    requires Address(addr) && ui64.Length == 2
    modifies ui64
    ensures data == Seen(addr)
  {
    if IsIp4(addr) {
      ui64[0] := addr[0] + addr[1] * WORD;
      ui64[1] := addr[2] + addr[3] * WORD;
      ui64[1] := ui64[1] * WORD % (WORD * WORD);
      ShiftedWord(addr[2], addr[3]);
      data := [ui64[0] % WORD, ui64[0] / WORD, ui64[1] % WORD, ui64[1] / WORD];
    } else {
      data := addr;
    }
  }

  lemma ShiftedWord(low: nat, high: nat)
    requires low < WORD && high < WORD
    ensures (low + high * WORD) * WORD % (WORD * WORD) == low * WORD
    ensures low * WORD % WORD == 0 && low * WORD / WORD == low
  {
  }

  // ---- Matching ----

  datatype AddrOp = ExactV4 | ExactV6 | PrefixOp

  /** A zero mask makes the comparison exact. */
  function ValidateAddr(net: Net): AddrOp
    requires |net.mask| == 4
  {
    if net.ver == 4 && net.mask[3] == 0 then ExactV4
    else if net.ver == 6 && net.mask[0] == 0 && net.mask[1] == 0 && net.mask[2] == 0 && net.mask[3] == 0 then ExactV6
    else PrefixOp
  }

  predicate V4Shaped(rc: seq<nat>)
    requires |rc| == 4
  {
    rc[0] == 0 && rc[1] == 0 && rc[2] == 0
  }

  predicate AddrEval(op: AddrOp, net: Net, rc: seq<nat>)
    requires ProperNet(net) && |rc| == 4
  {
    match op
    case ExactV4 => V4Shaped(rc) && rc[3] == net.ip[3]
    case ExactV6 => rc == net.ip
    case PrefixOp =>
      && !(net.ver == 6 && V4Shaped(rc))
      && (forall x :: 0 <= x < 4 ==> And(rc[x], net.mask[x]) == net.ip[x])
      && !(net.ver == 4 && !V4Shaped(rc))
  }

  method PrefixEval(net: Net, rc: seq<nat>) returns (res: bool)
    requires ProperNet(net) && |rc| == 4
    ensures res == AddrEval(PrefixOp, net, rc)
  {
    hide And;
    res := true;
    if net.ver == 6 && rc[0] == 0 && rc[1] == 0 && rc[2] == 0 { return false; }
    for x := 0 to 4
      invariant res <==> forall k :: 0 <= k < x ==> And(rc[k], net.mask[k]) == net.ip[k]
    {
      res := res && And(rc[x], net.mask[x]) == net.ip[x];
    }
    if res && net.ver == 4 && (rc[0] != 0 || rc[1] != 0 || rc[2] != 0) { return false; }
  }

  predicate Matches(net: Net, rc: seq<nat>)
    requires ProperNet(net) && |rc| == 4
  {
    AddrEval(ValidateAddr(net), net, rc)
  }

  /** What a/n means. */
  predicate V4Meaning(a: nat, n: nat, rc: seq<nat>)
    requires |rc| == 4 && n <= 32
  {
    V4Shaped(rc) && rc[3] / Pow2(32 - n) == a / Pow2(32 - n)
  }

  predicate V6Meaning(a: seq<nat>, n: nat, rc: seq<nat>)
    requires |rc| == 4 && n <= 128
  {
    !V4Shaped(rc) && Value(rc) / Pow2(128 - n) == Value(a) / Pow2(128 - n)
  }

  lemma FirstMaskWord(n: nat)
    requires n <= 32
    ensures Netmask(n, [0, 0, 0, 0])[0] == MaskWords(n, 1)[0]
    ensures n >= 1 ==> MaskWords(n, 1)[0] > 0
    ensures n == 0 ==> MaskWords(n, 1)[0] == 0
  {
    hide PartialWord;
    if n < 32 {
      PartialWordIs(n);
      WordIsPow2();
      if n >= 1 { Pow2Less(32 - n, 32); }
    }
  }

  lemma Pow2Less(m: nat, n: nat)
    requires m < n
    ensures Pow2(m) < Pow2(n)
  {
    Pow2Mono(m, n - 1);
  }

  /** A version 4 network with at least one bit matches exactly the version 4 addresses that share its leading bits. */
  lemma V4PrefixMatches(a: nat, n: nat, rc: seq<nat>)
    requires a < WORD && 1 <= n <= 32 && Address(rc)
    ensures Matches(V4Net(a, n), rc) <==> V4Meaning(a, n, rc)
  {
    hide And, PartialWord, Netmask;
    var net := V4Net(a, n);
    var m := MaskWords(n, 1)[0];
    FirstMaskWord(n);
    assert net == Net(4, [0, 0, 0, And(a, m)], [0, 0, 0, m]);
    AndZero(rc[0]);
    AndZero(rc[1]);
    AndZero(rc[2]);
    MaskedIsPrefix([rc[3]], [a], n);
    assert MaskWords(n, 1) == [m];
    SingleValue(rc[3]);
    SingleValue(a);
    assert SameMasked([rc[3]], [a], [m]) <==> And(rc[3], m) == And(a, m) by {
      assert [rc[3]][0] == rc[3] && [a][0] == a && [m][0] == m;
    }
  }

  lemma SingleValue(x: nat)
    ensures Value([x]) == x
  {
    assert [x][1..] == [];
  }

  lemma MaskNotZero(n: nat)
    requires 1 <= n <= 128
    ensures Netmask(n, [0, 0, 0, 0])[0] != 0
  {
    if n < 32 { FirstMaskWord(n); }
  }

  /** A version 6 network with at least one bit matches exactly the other addresses that share its leading bits. */
  lemma V6PrefixMatches(a: seq<nat>, n: nat, rc: seq<nat>)
    requires Address(a) && 1 <= n <= 128 && Address(rc)
    ensures Matches(V6Net(a, n), rc) <==> V6Meaning(a, n, rc)
  {
    hide And, Netmask, Value;
    var m := Netmask(n, [0, 0, 0, 0]);
    MaskNotZero(n);
    NetmaskIsMaskWords(n);
    MaskedIsPrefix(rc, a, n);
    assert V6Net(a, n) == Net(6, AndWords(a, m), m);
  }

  /** A version 4 record matches a version 4 network by its own leading bits, and no version 6 network. */
  lemma V4RecordMatches(a: nat, a6: seq<nat>, n: nat, rec: seq<nat>)
    requires a < WORD && Address(a6) && Address(rec) && IsIp4(rec) && 1 <= n
    ensures n <= 32 ==> (Matches(V4Net(a, n), Seen(rec)) <==> rec[2] / Pow2(32 - n) == a / Pow2(32 - n))
    ensures n <= 128 ==> !Matches(V6Net(a6, n), Seen(rec))
  {
    hide Matches, V4Net, V6Net, Value;
    if n <= 32 { V4PrefixMatches(a, n, Seen(rec)); }
    if n <= 128 { V6PrefixMatches(a6, n, Seen(rec)); }
  }

  lemma {:induction false} ShorterPrefix(x: nat, y: nat, m: nat, n: nat)
    requires m >= n && x / Pow2(n) == y / Pow2(n)
    ensures x / Pow2(m) == y / Pow2(m)
    decreases m
  {
    if m > n {
      ShorterPrefix(x, y, m - 1, n);
      HalfDiv(x, Pow2(m - 1));
      HalfDiv(y, Pow2(m - 1));
    }
  }

  lemma HalfDiv(x: nat, c: nat)
    requires c >= 1
    ensures x / (2 * c) == (x / c) / 2
  {
    var y, r := x / c, x % c;
    assert x == c * y + r;
    assert x == (2 * c) * (y / 2) + (c * (y % 2) + r) by { assert c * y == c * (2 * (y / 2) + y % 2); }
    assert c * (y % 2) + r < 2 * c;
    ModUnique(x, 2 * c, y / 2, c * (y % 2) + r);
  }

  /** Fewer bits match more: a/n implies a/m for 1 <= m <= n. */
  lemma PrefixMonotone(a: nat, a6: seq<nat>, m: nat, n: nat, rc: seq<nat>)
    requires a < WORD && Address(a6) && Address(rc) && 1 <= m <= n
    ensures n <= 32 && Matches(V4Net(a, n), rc) ==> Matches(V4Net(a, m), rc)
    ensures n <= 128 && Matches(V6Net(a6, n), rc) ==> Matches(V6Net(a6, m), rc)
  {
    hide Matches, V4Net, V6Net, Value;
    if n <= 32 {
      V4PrefixMatches(a, n, rc);
      V4PrefixMatches(a, m, rc);
      if V4Meaning(a, n, rc) { ShorterPrefix(rc[3], a, 32 - m, 32 - n); }
    }
    if n <= 128 {
      V6PrefixMatches(a6, n, rc);
      V6PrefixMatches(a6, m, rc);
      if V6Meaning(a6, n, rc) { ShorterPrefix(Value(rc), Value(a6), 128 - m, 128 - n); }
    }
  }

  /** With no bits at all the comparison is exact, with the zero address: a/0 accepts nothing else. */
  lemma NoBits(a: nat, a6: seq<nat>, rc: seq<nat>)
    requires a < WORD && Address(a6) && Address(rc)
    ensures Matches(V4Net(a, 0), rc) <==> rc == [0, 0, 0, 0]
    ensures Matches(V6Net(a6, 0), rc) <==> rc == [0, 0, 0, 0]
  {
    hide Matches, PartialWord, Net4, Net6;
    PartialWordIs(0);
    WordIsPow2();
    assert Netmask(0, [0, 0, 0, 0]) == [0, 0, 0, 0];
    ExactNet4(a, rc);
    ExactNet6(a6, rc);
  }

  // ---- What a network means ----

  /** An address of the network's version whose masked part is the network's. */
  predicate Means(w: Network, rc: seq<nat>)
    requires ProperNetwork(w) && |rc| == 4
  {
    match w
    case Bits4(a, n) => V4Meaning(a, n, rc)
    case Bits6(a, n) => V6Meaning(a, n, rc)
    case Mask4(a, m) => V4Shaped(rc) && And(rc[3], m) == And(a, m)
    case Mask6(a, ms) => !V4Shaped(rc) && SameMasked(rc, a, ms)
  }

  predicate HasMask(w: Network)
    requires ProperNetwork(w)
  {
    match w
    case Bits4(_, n) => n >= 1
    case Bits6(_, n) => n >= 1
    case Mask4(_, m) => m != 0
    case Mask6(_, ms) => ms != [0, 0, 0, 0]
  }

  lemma MaskMatches(w: Network, rc: seq<nat>)
    requires ProperNetwork(w) && (w.Mask4? || w.Mask6?) && HasMask(w) && Address(rc)
    ensures Matches(NetOf(w), rc) <==> Means(w, rc)
  {
    hide And;
    match w {
      case Mask4(a, m) =>
        AndZero(rc[0]);
        AndZero(rc[1]);
        AndZero(rc[2]);
      case Mask6(a, ms) =>
        assert ms == [ms[0], ms[1], ms[2], ms[3]];
        assert ValidateAddr(NetOf(w)) == PrefixOp;
    }
  }

  lemma NetworkMatches(w: Network, rc: seq<nat>)
    requires ProperNetwork(w) && HasMask(w) && Address(rc)
    ensures Matches(NetOf(w), rc) <==> Means(w, rc)
  {
    hide Matches, V4Net, V6Net, V4Meaning, V6Meaning, SameMasked, Net4, Net6;
    match w
    case Bits4(a, n) => V4PrefixMatches(a, n, rc);
    case Bits6(a, n) => V6PrefixMatches(a, n, rc);
    case _ => MaskMatches(w, rc);
  }

  /** A mask of zeros is compared exactly: only the zero address matches. */
  lemma ZeroMask(w: Network, rc: seq<nat>)
    requires ProperNetwork(w) && !HasMask(w) && Address(rc)
    ensures Matches(NetOf(w), rc) <==> rc == [0, 0, 0, 0]
  {
    hide Matches, V4Net, V6Net, Net4, Net6;
    match w
    case Bits4(a, n) => NoBits(a, [0, 0, 0, 0], rc);
    case Bits6(a, n) => NoBits(0, a, rc);
    case Mask4(a, m) => ExactNet4(a, rc);
    case Mask6(a, ms) => ExactNet6(a, rc);
  }

  lemma ExactNet4(a: nat, rc: seq<nat>)
    requires a < WORD && Address(rc)
    ensures Matches(Net4(a, 0), rc) <==> rc == [0, 0, 0, 0]
  {
    hide And;
    AndZero(a);
  }

  lemma ExactNet6(a: seq<nat>, rc: seq<nat>)
    requires Address(a) && Address(rc)
    ensures Matches(Net6(a, [0, 0, 0, 0]), rc) <==> rc == [0, 0, 0, 0]
  {
    hide And;
    AndZero(a[0]);
    AndZero(a[1]);
    AndZero(a[2]);
    AndZero(a[3]);
    assert AndWords(a, [0, 0, 0, 0]) == [0, 0, 0, 0];
  }

  /** A network means what it says for every record exactly when its mask is not empty. */
  lemma NetworkMeaningIff(w: Network)
    requires ProperNetwork(w)
    ensures (forall rc: seq<nat> :: Address(rc) ==> (Matches(NetOf(w), rc) <==> Means(w, rc))) <==> HasMask(w)
  {
    hide Matches, NetOf, HasMask, Means;
    if HasMask(w) {
      forall rc: seq<nat> | Address(rc) ensures Matches(NetOf(w), rc) <==> Means(w, rc) {
        NetworkMatches(w, rc);
      }
    } else {
      var one, zero := [0, 0, 0, 1], [0, 0, 0, 0];
      ZeroMask(w, one);
      ZeroMask(w, zero);
      assert one != zero by { assert one[3] != zero[3]; }
      ZeroMaskMeans(w, one, zero);
      assert Address(one) && Address(zero);
    }
  }

  lemma ZeroMaskMeans(w: Network, one: seq<nat>, zero: seq<nat>)
    requires ProperNetwork(w) && !HasMask(w) && one == [0, 0, 0, 1] && zero == [0, 0, 0, 0]
    ensures Means(w, one) || !Means(w, zero)
  {
    hide And, Value;
    match w {
      case Bits4(a, n) => AllBitsDropped(a);
      case Mask4(a, m) =>
        AndZero(1);
        AndZero(a);
      case _ => assert V4Shaped(zero);
    }
  }

  lemma AllBitsDropped(a: nat)
    requires a < WORD
    ensures a / Pow2(32) == 0 && 1 / Pow2(32) == 0
  {
    WordIsPow2();
  }
}
