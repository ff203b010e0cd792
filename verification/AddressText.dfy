/** The text of address literals in filters: cutting a literal into address and mask, reading either, and completing
    shortened version 4 addresses. Address texts are those of inet_pton: dotted decimal, and the forms of section 2.2 of
    RFC 4291. */
module AddressText {
  import opened Decimals
  import opened Wrappers
  import SF = StringFunctions

  // ---- Dotted decimal ----

  /** One to three digits without a leading zero, up to 255. */
  function Octet(s: string): (r: Option<nat>)
    ensures r.Some? ==> r.value <= 255
  {
    if 1 <= |s| <= 3 && AllDigits(s) && (|s| > 1 ==> s[0] != '0') && NumberOf(s) <= 255 then Some(NumberOf(s)) else None
  }

  function OctetsOf(parts: seq<string>): (r: Option<seq<nat>>)
    ensures r.Some? ==> |r.value| == |parts| && forall i :: 0 <= i < |parts| ==> Octet(parts[i]) == Some(r.value[i])
  {
    if parts == [] then Some([])
    else
      var o, rest := Octet(parts[0]), OctetsOf(parts[1..]);
      if o.None? || rest.None? then None else Some([o.value] + rest.value)
  }

  lemma {:induction false} OctetsThere(parts: seq<string>)
    requires forall i :: 0 <= i < |parts| ==> Octet(parts[i]).Some?
    ensures OctetsOf(parts).Some?
  {
    hide Octet;
    if parts != [] {
      assert forall i :: 0 <= i < |parts[1..]| ==> parts[1..][i] == parts[i + 1];
      OctetsThere(parts[1..]);
    }
  }

  function FourOctets(os: seq<nat>): (r: nat)
    requires |os| == 4
    ensures (forall i :: 0 <= i < 4 ==> os[i] <= 255) ==> r < 0x1_0000_0000
  {
    ((os[0] * 256 + os[1]) * 256 + os[2]) * 256 + os[3]
  }

  /** inet_pton for version 4. */
  function Pton4(s: string): (r: Option<nat>)
    ensures r.Some? ==> r.value < 0x1_0000_0000
  {
    var parts := SF.Split(s, ['.']);
    if |parts| != 4 || OctetsOf(parts).None? then None else Some(FourOctets(OctetsOf(parts).value))
  }

  // ---- Hexadecimal groups ----

  predicate IsHex(c: char) { IsDigit(c) || 'a' <= c <= 'f' || 'A' <= c <= 'F' }

  function HexValue(c: char): (d: nat)
    requires IsHex(c)
    ensures d < 16
  {
    if IsDigit(c) then DigitValue(c)
    else if 'a' <= c <= 'f' then c as int - 'a' as int + 10
    else c as int - 'A' as int + 10
  }

  predicate AllHex(s: string) { forall i :: 0 <= i < |s| ==> IsHex(s[i]) }

  function HexNumber(s: string): (n: nat)
    requires AllHex(s)
    ensures |s| == 0 ==> n < 1
    ensures |s| == 1 ==> n < 0x10
    ensures |s| == 2 ==> n < 0x100
    ensures |s| == 3 ==> n < 0x1000
    ensures |s| == 4 ==> n < 0x1_0000
  {
    if s == "" then 0 else 16 * HexNumber(s[..|s| - 1]) + HexValue(s[|s| - 1])
  }

  /** Where the reading of a version 6 address is: the groups so far, how many of them stand before the "::", the digits of
      the group being read, and whether a colon that ended a group was the last character. */
  datatype Scan = Scan(groups: seq<nat>, gap: Option<nat>, tok: string, open: bool)

  predicate Proper(s: Scan) {
    && |s.groups| <= 8 && (forall i :: 0 <= i < |s.groups| ==> s.groups[i] < 0x1_0000)
    && (s.gap.Some? ==> s.gap.value <= |s.groups|)
    && |s.tok| <= 4 && AllHex(s.tok)
  }

  const NOTHING: Scan := Scan([], None, "", false)

  /** One character that is not a dot. */
  function ReadChar(s: Scan, c: char): (r: Option<Scan>)
    requires Proper(s)
    ensures r.Some? ==> Proper(r.value)
  {
    if IsHex(c) then
      if |s.tok| < 4 then Some(Scan(s.groups, s.gap, s.tok + [c], false)) else None
    else if c != ':' then None
    else if s.tok != "" then
      if |s.groups| < 8 then Some(Scan(s.groups + [HexNumber(s.tok)], s.gap, "", true)) else None
    else if s.gap.Some? then None
    else Some(Scan(s.groups, Some(|s.groups|), "", false))
  }

  function Zeros(n: nat): (r: seq<nat>)
    ensures |r| == n && forall i :: 0 <= i < n ==> r[i] == 0
  {
    if n == 0 then [] else [0] + Zeros(n - 1)
  }

  /** Zero groups for the "::", which stands for at least one. */
  function Expand(groups: seq<nat>, gap: Option<nat>): (r: Option<seq<nat>>)
    requires gap.Some? ==> gap.value <= |groups|
    ensures r.Some? ==> |r.value| == 8
    ensures r.Some? ==> forall i :: 0 <= i < 8 ==> r.value[i] == 0 || r.value[i] in groups
  {
    if gap.None? then (if |groups| == 8 then Some(groups) else None)
    else if |groups| >= 8 then None
    else Some(groups[..gap.value] + Zeros(8 - |groups|) + groups[gap.value..])
  }

  function Finish(s: Scan): (r: Option<seq<nat>>)
    requires Proper(s)
    ensures r.Some? ==> Groups(r.value)
  {
    if s.tok == "" then (if s.open then None else Expand(s.groups, s.gap))
    else if |s.groups| < 8 then Expand(s.groups + [HexNumber(s.tok)], s.gap)
    else None
  }

  predicate Groups(g: seq<nat>) { |g| == 8 && forall i :: 0 <= i < 8 ==> g[i] < 0x1_0000 }

  /** A dot: the group being read was the first part of a dotted tail, which takes the place of two groups. */
  function FinishDotted(s: Scan, rest: string): (r: Option<seq<nat>>)
    requires Proper(s)
    ensures r.Some? ==> Groups(r.value)
  {
    var w := Pton4(s.tok + rest);
    if |s.groups| + 2 <= 8 && w.Some? then Expand(s.groups + [w.value / 0x1_0000, w.value % 0x1_0000], s.gap) else None
  }

  function ReadGroups(s: Scan, t: string): (r: Option<seq<nat>>)
    requires Proper(s)
    ensures r.Some? ==> Groups(r.value)
    decreases t
  {
    if t == "" then Finish(s)
    else if t[0] == '.' then FinishDotted(s, t)
    else
      var next := ReadChar(s, t[0]);
      if next.None? then None else ReadGroups(next.value, t[1..])
  }

  /** Four words of two groups each. */
  function WordsOf(g: seq<nat>): (ws: seq<nat>)
    requires Groups(g)
    ensures |ws| == 4 && forall i :: 0 <= i < 4 ==> ws[i] < 0x1_0000_0000
  {
    [g[0] * 0x1_0000 + g[1], g[2] * 0x1_0000 + g[3], g[4] * 0x1_0000 + g[5], g[6] * 0x1_0000 + g[7]]
  }

  /** A text may begin with "::", of which the first colon is skipped, but not with a single colon. */
  function Groups6(s: string): (r: Option<seq<nat>>)
    ensures r.Some? ==> Groups(r.value)
  {
    if s != "" && s[0] == ':' then (if |s| >= 2 && s[1] == ':' then ReadGroups(NOTHING, s[1..]) else None)
    else ReadGroups(NOTHING, s)
  }

  /** inet_pton for version 6. */
  function Pton6(s: string): (r: Option<seq<nat>>)
    ensures r.Some? ==> |r.value| == 4 && forall i :: 0 <= i < 4 ==> r.value[i] < 0x1_0000_0000
  {
    match Groups6(s)
    case None => None
    case Some(g) => Some(WordsOf(g))
  }

  // ---- Masks ----

  /** What follows the address: nothing, a number of bits, a dotted or a colon mask, or none of these. */
  datatype MaskText = NoMask | PrefixBits(n: int) | MaskV4(word: nat) | MaskV6(words: seq<nat>) | BadMask

  const ULONG_MAX: nat := 0xffff_ffff_ffff_ffff

  /** strtoul, stored in an int, of a text that is a number as a whole. */
  function BitsOf(mask: string): Option<int> {
    var t := SF.SkipBlanks(mask);
    var u := if t != "" && (t[0] == '-' || t[0] == '+') then t[1..] else t;
    var d := DigitPrefix(u);
    if d == "" || d != u then None
    else
      var n := NumberOf(d);
      Some(ToInt32(if n > ULONG_MAX then ULONG_MAX else if t[0] == '-' then (ULONG_MAX + 1 - n) % (ULONG_MAX + 1) else n))
  }

  function ReadMask(mask: Option<string>): (m: MaskText)
    ensures m.PrefixBits? ==> mask.Some?
    ensures m.MaskV4? ==> m.word < 0x1_0000_0000
    ensures m.MaskV6? ==> |m.words| == 4 && forall i :: 0 <= i < 4 ==> m.words[i] < 0x1_0000_0000
  {
    if mask.None? then NoMask
    else if BitsOf(mask.value).Some? then PrefixBits(BitsOf(mask.value).value)
    else if Pton4(mask.value).Some? then MaskV4(Pton4(mask.value).value)
    else if Pton6(mask.value).Some? then MaskV6(Pton6(mask.value).value)
    else BadMask
  }

  const BACKSLASH: char := '\U{5C}'

  predicate Delimiter(c: char) { c == BACKSLASH || c == '/' || c == ' ' }

  /** Where the first token from i on begins. */
  function TokenStart(s: string, i: nat): (r: nat)
    requires i <= |s|
    ensures i <= r <= |s| && (r < |s| ==> !Delimiter(s[r]))
    decreases |s| - i
  {
    if i < |s| && Delimiter(s[i]) then TokenStart(s, i + 1) else i
  }

  /** Where the token that contains position i ends. */
  function TokenEnd(s: string, i: nat): (r: nat)
    requires i <= |s|
    ensures i <= r <= |s| && (r < |s| ==> Delimiter(s[r])) && forall k :: i <= k < r ==> !Delimiter(s[k])
    decreases |s| - i
  {
    if i < |s| && !Delimiter(s[i]) then TokenEnd(s, i + 1) else i
  }

  /** A literal's address and, if there is more text, its mask. */
  function CutLiteral(s: string): (r: (string, Option<string>))
    ensures r.1.Some? ==> r.0 != "" && r.1.value != ""
  {
    var end := TokenEnd(s, TokenStart(s, 0));
    (s[..end], if end + 1 < |s| then Some(s[end + 1..]) else None)
  }

  lemma CutAt(ip: string, mask: string, c: char)
    requires ip != "" && mask != "" && Delimiter(c) && forall i :: 0 <= i < |ip| ==> !Delimiter(ip[i])
    ensures CutLiteral(ip + [c] + mask) == (ip, Some(mask))
  {
    var s := ip + [c] + mask;
    assert s[0] == ip[0];
    assert TokenStart(s, 0) == 0;
    var end := TokenEnd(s, 0);
    assert s[|ip|] == c && forall i :: 0 <= i < |ip| ==> s[i] == ip[i];
    assert end == |ip|;
    assert s[..|ip|] == ip && s[|ip| + 1..] == mask;
  }

  // ---- Shortened addresses ----

  /** How many parts the dots behind the first character make. */
  function Octets(s: string): (n: nat)
    requires s != ""
    ensures n >= 1
  {
    |SF.Split(s[1..], ['.'])|
  }

  /** The octets that are missing. */
  function Pad(octets: nat): string
    decreases 4 - octets
  {
    if octets >= 4 then "" else ".0" + Pad(octets + 1)
  }

  function Complete(s: string): string
    requires s != ""
  {
    s + Pad(Octets(s))
  }

  /** How many octets a number of bits reaches into. */
  function MinOctets(numbits: nat): nat { numbits / 8 + (if numbits % 8 > 0 then 1 else 0) }

  /** The completed address, or null when the bits reach beyond the octets that are there. */
  method UnwrapIp(s: string, numbits: nat) returns (ip: Option<string>)
    requires s != ""
    ensures ip == if numbits <= 8 * Octets(s) then Some(Complete(s)) else None
  {
    hide SF.Find, SF.At, SF.Split;
    var octet := 0;
    var pos: int := 0;
    while pos >= 0
      invariant pos < |s|
      invariant Octets(s) == octet + if pos >= 0 then |SF.Split(s[pos + 1..], ['.'])| else 0
      decreases if pos >= 0 then |s| - pos else 0
    {
      var next := SF.Find(s, ['.'], pos + 1);
      NextDot(s, pos);
      pos := next;
      octet := octet + 1;
    }
    if octet < MinOctets(numbits) { return None; }
    var suffix := "";
    while octet < 4
      invariant Pad(Octets(s)) == suffix + Pad(octet)
      decreases 4 - octet
    {
      suffix := suffix + ".0";
      octet := octet + 1;
    }
    assert suffix + "" == suffix;
    ip := Some(s + suffix);
  }

  /** The parts from one dot on. */
  lemma NextDot(s: string, pos: nat)
    requires pos < |s|
    ensures var next := SF.Find(s, ['.'], pos + 1);
            && (next >= 0 ==> pos < next < |s|)
            && |SF.Split(s[pos + 1..], ['.'])| == 1 + if next >= 0 then |SF.Split(s[next + 1..], ['.'])| else 0
  {
    hide SF.At;
    var a, b := s[..pos + 1], s[pos + 1..];
    assert s == a + b;
    SF.FindShift(a, b, ['.']);
    var f := SF.Find(b, ['.'], 0);
    if f >= 0 { assert b[f + 1..] == s[pos + 1 + f + 1..]; }
  }
}
