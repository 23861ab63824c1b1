/** The printers of dotted quads: ip4addr_ntoa_r, ip4_sockaddr_to_ipstr_port and netmgr's format_ip. */
module Ip4Print {
  import opened Common
  import opened Ip4Text

  /** The text of the first `n` octets, each followed by a dot. */
  function Dots(o: Address, n: nat): string
    requires n <= 4
  {
    if n == 0 then [] else Dots(o, n - 1) + Dec(o[n - 1]) + "."
  }

  lemma DotsIsDotted(o: Address)
    ensures Dots(o, 4) == Dotted(o) + "."
  {
    DottedIs(o);
    assert Dots(o, 1) == Dec(o[0]) + ".";
    assert Dots(o, 2) == Dec(o[0]) + "." + Dec(o[1]) + ".";
    assert Dots(o, 3) == Dec(o[0]) + "." + Dec(o[1]) + "." + Dec(o[2]) + ".";
  }

  lemma {:induction false} DotsPrefix(o: Address, n: nat, m: nat)
    requires n <= m <= 4
    ensures Dots(o, n) <= Dots(o, m)
  {
    if n < m { DotsPrefix(o, n, m - 1); }
  }

  ghost predicate IsWhole(o: Address, text: string) { text == Dots(o, 4) }

  /** The whole text, dot and all. */
  lemma WholeText(o: Address) returns (text: string)
    ensures IsWhole(o, text) && text == Dotted(o) + "."
  {
    text := Dots(o, 4);
    DotsIsDotted(o);
  }

  /** Where octet `n` and its dot stand in the whole text. */
  lemma DotsAt(o: Address, n: nat, text: string)
    requires n < 4 && IsWhole(o, text)
    ensures |Dots(o, n + 1)| == |Dots(o, n)| + |Dec(o[n])| + 1 <= |text|
    ensures n + 1 == 4 ==> |Dots(o, n + 1)| == |text|
    ensures forall k :: 0 <= k < |Dec(o[n])| ==> text[|Dots(o, n)| + k] == Dec(o[n])[k]
    ensures text[|Dots(o, n)| + |Dec(o[n])|] == '.'
  {
    DotsPrefix(o, n + 1, 4);
  }

  /** The decimal digits of an octet, least significant first, into a buffer of three. */
  method InverseDigits(octet: Octet) returns (inv: seq<char>)
    ensures |inv| == |Dec(octet)| <= 3
    ensures forall k :: 0 <= k < |inv| ==> inv[k] == Dec(octet)[|inv| - 1 - k]
  {
    OctetText(octet);
    var ap: nat := octet;
    inv := [Digit(ap % 10)];
    ap := ap / 10;
    while ap != 0
      invariant ap == 0 ==> |inv| == |Dec(octet)|
      invariant ap != 0 ==> |Dec(ap)| + |inv| == |Dec(octet)| && Dec(octet)[..|Dec(ap)|] == Dec(ap)
      invariant |inv| <= |Dec(octet)| && forall k :: 0 <= k < |inv| ==> inv[k] == Dec(octet)[|Dec(octet)| - 1 - k]
    {
      inv := inv + [Digit(ap % 10)];
      ap := ap / 10;
    }
  }

  /** One octet and its dot, which `text` has at `start`; false as soon as `buflen` characters are written. */
  method PutOctet(octet: Octet, buf: array<char>, start: nat, buflen: int, ghost text: string)
    returns (ok: bool, len: nat)
    requires buflen <= buf.Length && start <= buf.Length
    requires start + |Dec(octet)| + 1 <= |text| && text[start + |Dec(octet)|] == '.'
    requires forall k :: 0 <= k < |Dec(octet)| ==> text[start + k] == Dec(octet)[k]
    modifies buf
    ensures ok <==> start + |Dec(octet)| + 1 <= buflen
    ensures ok ==> len == start + |Dec(octet)| + 1 && forall i :: start <= i < len ==> buf[i] == text[i]
    ensures forall i :: 0 <= i < buf.Length && (i < start || i >= buflen || (ok && i >= len)) ==> buf[i] == old(buf[i])
  {
    len := start;
    var inv := InverseDigits(octet);
    var i := |inv|;
    while i > 0
      invariant 0 <= i <= |inv| && len == start + |inv| - i <= buf.Length
      invariant i < |inv| ==> len <= buflen
      invariant forall k :: start <= k < len ==> buf[k] == text[k]
      invariant forall k :: 0 <= k < buf.Length && (k < start || k >= len) ==> buf[k] == old(buf[k])
    {
      i := i - 1;
      if len >= buflen { return false, len; }
      assert text[start + (|inv| - 1 - i)] == inv[i];
      buf[len] := inv[i];
      len := len + 1;
    }
    if len >= buflen { return false, len; }
    buf[len] := '.';
    len := len + 1;
    return true, len;
  }

  lemma NoDots(o: Address)
    ensures Dots(o, 0) == []
  {
  }

  /** The loop over the octets, each with its dot. */
  method PutOctets(o: Address, buf: array<char>, buflen: int, ghost text: string) returns (ok: bool, len: nat)
    requires buflen <= buf.Length && IsWhole(o, text)
    modifies buf
    ensures ok <==> |text| <= buflen
    ensures ok ==> len == |text| && len > 0 && forall k :: 0 <= k < len ==> buf[k] == text[k]
    ensures forall k :: 0 <= k < buf.Length && (k >= buflen || (ok && k >= len)) ==> buf[k] == old(buf[k])
  {
    hide IsWhole, Dec, Dots;
    NoDots(o);
    var n := 0;
    len := 0;
    while n < 4
      invariant n <= 4 && len == |Dots(o, n)| <= |text| && len <= buf.Length
      invariant (n == 4 ==> len == |text|) && (n > 0 ==> 0 < len <= buflen)
      invariant forall k :: 0 <= k < len ==> buf[k] == text[k]
      invariant forall k :: len <= k < buf.Length ==> buf[k] == old(buf[k])
    {
      DotsAt(o, n, text);
      ok, len := PutOctet(o[n], buf, len, buflen, text);
      if !ok { return false, len; }
      n := n + 1;
    }
    return true, len;
  }

  /**
   * ip4addr_ntoa_r: writes the text and a NUL, or gives up once `buflen` characters are written.
   * The caller's buffer is at least as long as it says.
   */
  method NtoaR(o: Address, buf: array<char>, buflen: int) returns (ok: bool)
    requires buflen <= buf.Length
    modifies buf
    ensures ok <==> buflen >= |Dotted(o)| + 1
    ensures ok ==> buf[..|Dotted(o)| + 1] == Dotted(o) + ['\0']
    ensures forall k :: 0 <= k < buf.Length && (k >= buflen || (ok && k > |Dotted(o)|)) ==> buf[k] == old(buf[k])
  {
    hide IsWhole, Dec, Dots, Dotted;
    ghost var text := WholeText(o);
    var len;
    ok, len := PutOctets(o, buf, buflen, text);
    if !ok { return false; }
    buf[len - 1] := '\0';
    assert buf[..len - 1] == text[..len - 1];
    assert text[..len - 1] == Dotted(o);
    return true;
  }

  /** ip4_sockaddr_to_ipstr_port: the text in a 16-byte buffer, NUL to its end. */
  method SockaddrToIpstr(o: Address, ip: array<char>)
    requires ip.Length == 16
    modifies ip
    ensures |Dotted(o)| < 16 && ip[..|Dotted(o)|] == Dotted(o)
    ensures forall k :: |Dotted(o)| <= k < 16 ==> ip[k] == '\0'
  {
    DottedFits(o);
    var text := Dotted(o);
    forall k | 0 <= k < 16 { ip[k] := if k < |text| then text[k] else '\0'; }
  }

  lemma ShiftRight(ip: U32, i: nat)
    requires i < 4
    ensures ip / Pow2((3 - i) * 8) % 0x100 == WordOctets(ip)[3 - i]
  {
    Powers();
    assert Pow2(0) == 1;
  }

  /** netmgr's format_ip: the text of a word whose least significant octet comes first. */
  method FormatIp(ip: U32) returns (text: string)
    ensures text == Dotted(WordOctets(ip))
  {
    var octet := new Octet[4](_ => 0);
    var i := 0;
    while i < 4
      invariant i <= 4 && forall k :: 0 <= k < i ==> octet[k] == WordOctets(ip)[3 - k]
    {
      ShiftRight(ip, i);
      octet[i] := ip / Pow2((3 - i) * 8) % 0x100;
      i := i + 1;
    }
    DottedIs(WordOctets(ip));
    text := Dec(octet[3]) + "." + Dec(octet[2]) + "." + Dec(octet[1]) + "." + Dec(octet[0]);
  }
}
