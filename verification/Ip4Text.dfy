/** Dotted IPv4 text: the loose grammar of inet_aton (section 3.1.1 of RFC 6943) and its canonical form. */
module Ip4Text {
  import opened Common

  type U32 = x: nat | x < 0x1_0000_0000

  const TWO32: nat := 0x1_0000_0000

  // ---------------------------------------------------------------- characters

  predicate IsDigit(c: char) { '0' <= c <= '9' }
  predicate IsXDigit(c: char) { IsDigit(c) || 'a' <= c <= 'f' || 'A' <= c <= 'F' }
  predicate IsSpace(c: char) { c == ' ' || c == '\t' || c == '\n' || c == '\r' || c as int == 0x0b || c as int == 0x0c }

  /** Which characters these are: the white space of the C locale, and the digits by their place. */
  lemma CharClasses(c: char)
    ensures IsSpace(c) <==> c == ' ' || 9 <= c as int <= 13
    ensures IsDigit(c) <==> c in "0123456789"
    ensures IsXDigit(c) <==> c in "0123456789abcdef" || c in "0123456789ABCDEF"
  {
    LowerDigit(c);
    UpperDigit(c);
  }

  lemma LowerDigit(c: char)
    ensures c in "0123456789abcdef" <==> IsDigit(c) || 'a' <= c <= 'f'
    ensures c in "0123456789abcdef" ==> DigitValue(c) < 16 && c == "0123456789abcdef"[DigitValue(c)]
  {
  }

  lemma UpperDigit(c: char)
    ensures c in "0123456789ABCDEF" <==> IsDigit(c) || 'A' <= c <= 'F'
    ensures c in "0123456789ABCDEF" ==> DigitValue(c) < 16 && c == "0123456789ABCDEF"[DigitValue(c)]
  {
  }

  /** What the pointer sees at offset `i` of a C string. */
  function CharAt(s: string, i: nat): char { if i < |s| then s[i] else '\0' }

  function DigitValue(c: char): nat {
    if IsDigit(c) then c as int - '0' as int
    else if 'a' <= c <= 'f' then c as int - 'a' as int + 10
    else if 'A' <= c <= 'F' then c as int - 'A' as int + 10
    else 0
  }

  ghost predicate AllDigits(t: string) { forall k :: 0 <= k < |t| ==> IsDigit(t[k]) }
  ghost predicate AllXDigits(t: string) { forall k :: 0 <= k < |t| ==> IsXDigit(t[k]) }

  // ---------------------------------------------------------------- numbers

  /** The value of a digit string, unbounded. */
  function Numeral(t: string, base: nat): nat {
    if t == [] then 0 else Numeral(t[..|t| - 1], base) * base + DigitValue(t[|t| - 1])
  }

  predicate IsHex(t: string) { |t| >= 2 && t[0] == '0' && (t[1] == 'x' || t[1] == 'X') }

  function BaseOf(t: string): nat {
    if IsHex(t) then 16 else if t != [] && t[0] == '0' then 8 else 10
  }

  /** The digits of a number, without the prefix that tells its base. */
  function DigitsOf(t: string): string {
    if IsHex(t) then t[2..] else if t != [] && t[0] == '0' then t[1..] else t
  }

  /** A C-style number as inet_aton takes it: octal may contain 8 and 9, and "0x" alone is 0. */
  ghost predicate IsNumber(t: string) {
    t != [] && IsDigit(t[0]) && if IsHex(t) then AllXDigits(t[2..]) else AllDigits(t)
  }

  function NumberValue(t: string): U32 { Numeral(DigitsOf(t), BaseOf(t)) % TWO32 }

  // ---------------------------------------------------------------- dotted parts

  function Join(parts: seq<string>): string {
    if parts == [] then [] else if |parts| == 1 then parts[0] else parts[0] + "." + Join(parts[1..])
  }

  /** `s` begins with `parts` joined by dots, and white space or the end of the string follows. */
  ghost predicate Spells(s: string, parts: seq<string>) {
    && 1 <= |parts| <= 4 && (forall t :: t in parts ==> IsNumber(t))
    && Join(parts) <= s && Ends(s, |Join(parts)|)
  }

  predicate Ends(s: string, k: nat) { CharAt(s, k) == '\0' || IsSpace(CharAt(s, k)) }

  function Values(parts: seq<string>): seq<U32> { seq(|parts|, i requires 0 <= i < |parts| => NumberValue(parts[i])) }

  /** All but the last part are octets, and the last fits the bytes that remain. */
  predicate Fits(vals: seq<U32>)
    requires 1 <= |vals| <= 4
  {
    match |vals|
    case 1 => true
    case 2 => vals[0] <= 0xff && vals[1] <= 0xffffff
    case 3 => vals[0] <= 0xff && vals[1] <= 0xff && vals[2] <= 0xffff
    case _ => vals[0] <= 0xff && vals[1] <= 0xff && vals[2] <= 0xff && vals[3] <= 0xff
  }

  /** The address as a number: the parts before the last are its leading bytes. */
  function Concocted(vals: seq<U32>): (v: U32)
    requires 1 <= |vals| <= 4 && Fits(vals)
  {
    match |vals|
    case 1 => vals[0]
    case 2 => vals[0] * 0x1000000 + vals[1]
    case 3 => vals[0] * 0x1000000 + vals[1] * 0x10000 + vals[2]
    case _ => vals[0] * 0x1000000 + vals[1] * 0x10000 + vals[2] * 0x100 + vals[3]
  }

  // ---------------------------------------------------------------- canonical text

  function Digit(d: nat): char
    requires d < 10
  {
    ['0', '1', '2', '3', '4', '5', '6', '7', '8', '9'][d]
  }

  /** Decimal text without leading zeros, as printf's %d gives it. */
  function Dec(n: nat): (t: string)
    ensures t != [] && IsDigit(t[0]) && (t[0] == '0' <==> n == 0)
    ensures n < 10 <==> |t| == 1
  {
    if n < 10 then [Digit(n)] else Dec(n / 10) + [Digit(n % 10)]
  }

  /** An address, byte by byte in memory (network) order. */
  type Address = o: seq<Octet> | |o| == 4 witness [0, 0, 0, 0]

  function Parts(o: Address): seq<string> { [Dec(o[0]), Dec(o[1]), Dec(o[2]), Dec(o[3])] }

  function Dotted(o: Address): string { Join(Parts(o)) }

  lemma DottedIs(o: Address)
    ensures Dotted(o) == Dec(o[0]) + "." + Dec(o[1]) + "." + Dec(o[2]) + "." + Dec(o[3])
  {
    var p := Parts(o);
    assert p[1..][1..][1..] == [Dec(o[3])];
    assert Join(p[1..][1..]) == Dec(o[2]) + "." + Dec(o[3]);
    assert Join(p[1..]) == Dec(o[1]) + "." + (Dec(o[2]) + "." + Dec(o[3]));
  }

  lemma {:induction false} DecIsNumeral(n: nat)
    ensures AllDigits(Dec(n)) && Numeral(Dec(n), 10) == n
  {
    if n >= 10 {
      DecIsNumeral(n / 10);
      assert Dec(n)[..|Dec(n)| - 1] == Dec(n / 10);
    } else {
      assert Dec(n)[..0] == [];
    }
  }

  lemma OctetText(n: Octet)
    ensures |Dec(n)| <= 3 && IsNumber(Dec(n)) && NumberValue(Dec(n)) == n
  {
    hide Dec;
    DecIsNumeral(n);
    OctetLength(n);
  }

  lemma OctetLength(n: Octet)
    ensures |Dec(n)| <= 3 && (n == 0 ==> Dec(n) == "0")
  {
    if n >= 100 {
      assert |Dec(n / 10 / 10)| == 1;
    }
  }

  lemma DottedFits(o: Address)
    ensures 7 <= |Dotted(o)| <= 15
  {
    DottedIs(o);
    OctetText(o[0]); OctetText(o[1]); OctetText(o[2]); OctetText(o[3]);
  }

  // ---------------------------------------------------------------- bytes and words

  function Pow2(k: nat): (p: nat)
    ensures p > 0
  {
    if k == 0 then 1 else 2 * Pow2(k - 1)
  }

  /** Bitwise or of unsigned words. */
  function BitOr(a: nat, b: nat): nat {
    if a == 0 && b == 0 then 0
    else (if a % 2 == 1 || b % 2 == 1 then 1 else 0) + 2 * BitOr(a / 2, b / 2)
  }

  lemma {:induction false} OrZero(b: nat)
    ensures BitOr(0, b) == b && BitOr(b, 0) == b
  {
    if b != 0 { OrZero(b / 2); }
  }

  /** Or-ing into cleared low bits is addition. */
  lemma {:induction false} OrAdds(a: nat, b: nat, k: nat)
    requires b < Pow2(k)
    ensures BitOr(a * Pow2(k), b) == a * Pow2(k) + b && BitOr(b, a * Pow2(k)) == a * Pow2(k) + b
  {
    if k == 0 {
      OrZero(a);
    } else if a == 0 {
      OrZero(b);
    } else {
      var high := a * Pow2(k - 1);
      assert a * Pow2(k) == 2 * high;
      OrAdds(a, b / 2, k - 1);
    }
  }

  lemma {:induction false} Pow2Add(a: nat, b: nat)
    ensures Pow2(a + b) == Pow2(a) * Pow2(b)
  {
    if a > 0 { Pow2Add(a - 1, b); }
  }

  lemma Powers()
    ensures Pow2(4) == 0x10 && Pow2(8) == 0x100 && Pow2(16) == 0x10000 && Pow2(24) == 0x1000000 && Pow2(32) == TWO32
  {
    assert Pow2(2) == 4;
    Pow2Add(2, 2);
    Pow2Add(4, 4);
    Pow2Add(8, 8);
    Pow2Add(8, 16);
    Pow2Add(16, 16);
  }

  lemma {:induction false} OrBound(a: nat, b: nat, k: nat)
    requires a < Pow2(k) && b < Pow2(k)
    ensures BitOr(a, b) < Pow2(k)
  {
    if k > 0 { OrBound(a / 2, b / 2, k - 1); }
  }

  lemma OrAddsAt(p: nat, low: nat, k: nat, m: nat)
    requires m == Pow2(k) && low < m
    ensures BitOr(p * m, low) == BitOr(low, p * m) == p * m + low
  {
    OrAdds(p, low, k);
  }

  /** A 32-bit or; where one operand is a multiple of `m` and the other below it, that is addition. */
  method Or(a: U32, b: U32, ghost m: nat) returns (r: U32)
    requires m == 0x10 || m == 0x100 || m == 0x10000 || m == 0x1000000
    ensures (a % m == 0 && b < m) || (b % m == 0 && a < m) ==> r == a + b
  {
    hide BitOr, Pow2;
    Powers();
    OrBound(a, b, 32);
    r := BitOr(a, b);
    OrAligned(a, b, m);
  }

  lemma OrAligned(a: nat, b: nat, m: nat)
    requires m == 0x10 || m == 0x100 || m == 0x10000 || m == 0x1000000
    ensures (a % m == 0 && b < m) || (b % m == 0 && a < m) ==> BitOr(a, b) == a + b
  {
    hide BitOr, Pow2;
    Powers();
    var k := if m == 0x10 then 4 else if m == 0x100 then 8 else if m == 0x10000 then 16 else 24;
    if a % m == 0 && b < m { Aligned(a, m); OrAddsAt(a / m, b, k, m); }
    if b % m == 0 && a < m { Aligned(b, m); OrAddsAt(b / m, a, k, m); }
  }

  lemma Aligned(a: nat, m: nat)
    requires m > 0 && a % m == 0
    ensures a / m * m == a
  {
  }

  /** The octets of a word, most significant first: what htonl leaves in memory. */
  function NetworkOctets(v: U32): Address { [v / 0x1000000, v / 0x10000 % 0x100, v / 0x100 % 0x100, v % 0x100] }

  /** The octets of a word, least significant first. */
  function WordOctets(v: U32): Address { [v % 0x100, v / 0x100 % 0x100, v / 0x10000 % 0x100, v / 0x1000000] }

  function WordOf(o: Address): U32 {
    var a: nat, b: nat, c: nat, d: nat := o[0], o[1], o[2], o[3];
    a + b * 0x100 + c * 0x10000 + d * 0x1000000
  }
}
