/** The other two parsers, ipstr_to_u32 and translate_addr, and how all the codecs fit together. */
module Ip4Codecs {
  import opened Common
  import opened Ip4Text
  import opened Ip4Aton
  import opened Ip4Print

  // ---------------------------------------------------------------- ipstr_to_u32

  /** The fields of a text between its dots. */
  function Split(t: string): (f: seq<string>)
    ensures f != []
  {
    if t == [] then [[]]
    else
      var f, c := Split(t[..|t| - 1]), t[|t| - 1];
      if c == '.' then f + [[]] else f[..|f| - 1] + [f[|f| - 1] + [c]]
  }

  /** The first `k` characters are digits and dots. */
  ghost predicate DigitsAndDots(s: string, k: nat)
    requires k <= |s|
  {
    forall i :: 0 <= i < k ==> IsDigit(s[i]) || s[i] == '.'
  }

  /** At most the first 15 characters are looked at. */
  function Window(s: string): nat { if |s| <= 15 then |s| else 15 }

  /** Reading on: a dot opens a field at 0, a digit goes into the last field, modulo 256. */
  function ReadOn(read: seq<Octet>, c: char): (r: seq<Octet>)
    requires read != []
    ensures r != []
  {
    var last := |read| - 1;
    if c == '.' then read + [0] else read[..last] + [(read[last] as int * 10 + DigitValue(c)) % 0x100]
  }

  /** The octets the fields of the first `k` characters leave behind, read character by character. */
  ghost function FieldOctets(s: string, k: nat): (q: seq<Octet>)
    requires k <= |s|
    ensures q != []
  {
    if k == 0 then [0] else ReadOn(FieldOctets(s, k - 1), s[k - 1])
  }

  /** What a field leaves in a uint8_t: its decimal value modulo 256. */
  ghost function FieldValue(f: string): Octet { Numeral(f, 10) % 0x100 }

  ghost predicate AreValues(q: seq<Octet>, fields: seq<string>) {
    |q| == |fields| && forall j :: 0 <= j < |q| ==> q[j] == FieldValue(fields[j])
  }

  lemma AreValuesStep(q: seq<Octet>, fields: seq<string>, c: char)
    requires AreValues(q, fields) && fields != []
    ensures c == '.' ==> AreValues(ReadOn(q, c), fields + [[]])
    ensures c != '.' ==> AreValues(ReadOn(q, c), fields[..|fields| - 1] + [fields[|fields| - 1] + [c]])
  {
    hide FieldValue, DigitValue;
    EmptyField();
    if c != '.' { FieldStep(fields[|fields| - 1], c); }
  }

  lemma EmptyField()
    ensures FieldValue([]) == 0
  {
  }

  /** They are the decimal values of the fields between the dots. */
  lemma {:induction false} FieldOctetsAreValues(s: string, k: nat)
    requires k <= |s|
    ensures AreValues(FieldOctets(s, k), Split(s[..k]))
  {
    hide AreValues, FieldValue;
    if k == 0 {
      NoFields();
    } else {
      FieldOctetsAreValues(s, k - 1);
      assert s[..k][..k - 1] == s[..k - 1] && s[..k][k - 1] == s[k - 1];
      AreValuesStep(FieldOctets(s, k - 1), Split(s[..k - 1]), s[k - 1]);
    }
  }

  lemma NoFields()
    ensures AreValues([0], Split([]))
  {
  }

  lemma FieldOctetsStart(s: string)
    ensures FieldOctets(s, 0) == [0]
  {
  }

  lemma FieldOctetsStep(s: string, k: nat)
    requires k < |s|
    ensures FieldOctets(s, k + 1) == ReadOn(FieldOctets(s, k), s[k])
  {
  }

  lemma {:induction false} FieldOctetsGrow(s: string, k: nat, m: nat)
    requires k <= m <= |s|
    ensures |FieldOctets(s, k)| <= |FieldOctets(s, m)|
  {
    if k < m { FieldOctetsGrow(s, k, m - 1); }
  }

  /** One accepted character: a dot stores the running field and starts the next. */
  method TakeChar(c: char, q: array<Octet>, dotnum: nat, n: Octet, ghost read: seq<Octet>)
    returns (dotnum': nat, n': Octet)
    requires q.Length == 4 && dotnum < 4 && (IsDigit(c) || c == '.')
    requires |read| == dotnum + 1 && read[dotnum] == n && forall j :: 0 <= j < dotnum ==> q[j] == read[j]
    modifies q
    ensures var read' := ReadOn(read, c);
            && |read'| == dotnum' + 1 && read'[dotnum'] == n' && dotnum' <= 4
            && forall j :: 0 <= j < dotnum' ==> q[j] == read'[j]
    ensures dotnum <= dotnum' && forall j :: dotnum' <= j < 4 ==> q[j] == old(q[j])
  {
    if c == '.' {
      q[dotnum] := n;
      return dotnum + 1, 0;
    }
    return dotnum, (n as int * 10 + (c as int - '0' as int)) % 0x100;
  }

  /**
   * ipstr_to_u32 into the four octets `q`: refuses a foreign character or a fourth dot; otherwise
   * each field's value goes, modulo 256, to the octet of its position.
   */
  method IpstrToU32(s: string, q: array<Octet>) returns (ret: int)
    requires q.Length == 4 && '\0' !in s
    modifies q
    ensures ret == 0 || ret == -1
    ensures ret == 0 <==> DigitsAndDots(s, Window(s)) && |FieldOctets(s, Window(s))| <= 4
    ensures ret == 0 ==> forall j :: 0 <= j < 4 ==>
                q[j] == if j < |FieldOctets(s, Window(s))| then FieldOctets(s, Window(s))[j] else old(q[j])
  {
    hide FieldOctets, ReadOn;
    FieldOctetsStart(s);
    var n: Octet, stridx, dotnum := 0, 0, 0;
    ghost var read := FieldOctets(s, 0);
    while stridx < |s| && stridx < 15 && dotnum < 4
      invariant stridx <= Window(s) && dotnum <= 4 && DigitsAndDots(s, stridx)
      invariant read == FieldOctets(s, stridx) && |read| == dotnum + 1 && read[dotnum] == n
      invariant forall j :: 0 <= j < dotnum ==> q[j] == read[j]
      invariant forall j :: dotnum <= j < 4 ==> q[j] == old(q[j])
    {
      var c := s[stridx];
      if c != '.' && (c < '0' || c > '9') { return -1; }
      dotnum, n := TakeChar(c, q, dotnum, n, read);
      FieldOctetsStep(s, stridx);
      stridx := stridx + 1;
      read := ReadOn(read, c);
    }
    if dotnum >= 4 || stridx > 15 {
      FieldOctetsGrow(s, stridx, Window(s));
      return -1;
    }
    assert stridx == Window(s) && read == FieldOctets(s, Window(s));
    q[dotnum] := n;
    return 0;
  }

  lemma Mod256(a: nat, k: nat)
    ensures (a + k * 0x100) % 0x100 == a % 0x100
  {
  }

  lemma FieldStep(f: string, c: char)
    ensures FieldValue(f + [c]) == (FieldValue(f) as int * 10 + DigitValue(c)) % 0x100
  {
    assert (f + [c])[..|f|] == f;
    var x, d := Numeral(f, 10), DigitValue(c);
    Mod256(x % 0x100 * 10 + d, x / 0x100 * 10);
    assert x * 10 + d == (x % 0x100 * 10 + d) + (x / 0x100 * 10) * 0x100;
  }

  lemma {:induction false} SplitField(t: string, f: string)
    requires AllDigits(f)
    ensures Split(t + "." + f) == Split(t) + [f]
    decreases |f|
  {
    if f == [] {
      assert (t + "." + f)[..|t|] == t;
    } else {
      var g, c := f[..|f| - 1], f[|f| - 1];
      assert IsDigit(c) && (t + "." + f)[|t| + |f|] == c;
      assert (t + "." + f)[..|t| + |f|] == t + "." + g;
      assert g + [c] == f;
      SplitField(t, g);
      assert (Split(t) + [g])[..|Split(t)|] == Split(t);
    }
  }

  lemma {:induction false} SplitDigits(f: string)
    requires AllDigits(f)
    ensures Split(f) == [f]
  {
    if f != [] {
      var g, c := f[..|f| - 1], f[|f| - 1];
      assert IsDigit(c) && g + [c] == f;
      SplitDigits(g);
    }
  }

  /** Four fields of digits. */
  ghost predicate Fields(f: seq<string>) { |f| == 4 && forall i {:trigger f[i]} :: 0 <= i < 4 ==> AllDigits(f[i]) }

  lemma JoinFour(f: seq<string>)
    requires |f| == 4
    ensures Join(f) == f[0] + "." + f[1] + "." + f[2] + "." + f[3]
  {
    assert f[1..][1..][1..] == [f[3]];
    assert Join(f[1..][1..]) == f[2] + "." + f[3];
    assert Join(f[1..]) == f[1] + "." + (f[2] + "." + f[3]);
  }

  lemma SplitFour(f: seq<string>)
    requires Fields(f)
    ensures Split(Join(f)) == f
  {
    hide Join, AllDigits, Split;
    JoinFour(f);
    SplitDigits(f[0]);
    SplitField(f[0], f[1]);
    SplitField(f[0] + "." + f[1], f[2]);
    SplitField(f[0] + "." + f[1] + "." + f[2], f[3]);
  }

  lemma DotAndDigits(t: string, f: string)
    requires DigitsAndDots(t, |t|) && AllDigits(f)
    ensures var u := t + "." + f; DigitsAndDots(u, |u|)
  {
  }

  lemma DigitsAlone(f: string)
    requires AllDigits(f)
    ensures DigitsAndDots(f, |f|)
  {
  }

  lemma CharsFour(f: seq<string>)
    requires Fields(f)
    ensures DigitsAndDots(Join(f), |Join(f)|) && '\0' !in Join(f)
  {
    hide Join, AllDigits;
    JoinFour(f);
    DigitsAlone(f[0]);
    DotAndDigits(f[0], f[1]);
    DotAndDigits(f[0] + "." + f[1], f[2]);
    DotAndDigits(f[0] + "." + f[1] + "." + f[2], f[3]);
  }

  /** The octets ipstr_to_u32 reads from four fields in its window are their values. */
  lemma OctetsOfFields(f: seq<string>)
    requires Fields(f)
    ensures FieldOctets(Join(f), |Join(f)|) == [FieldValue(f[0]), FieldValue(f[1]), FieldValue(f[2]), FieldValue(f[3])]
  {
    hide FieldOctets, FieldValue, Join, Split;
    var t := Join(f);
    assert t[..|t|] == t;
    SplitFour(f);
    FieldOctetsAreValues(t, |t|);
  }

  // ---------------------------------------------------------------- translate_addr

  function SkipSpaces(s: string, i: nat): (j: nat)
    requires i <= |s|
    ensures i <= j <= |s|
    decreases |s| - i
  {
    if i < |s| && IsSpace(s[i]) then SkipSpaces(s, i + 1) else i
  }

  /** One "%d": the value, if there are digits, and where the conversion stopped. */
  function Convert(s: string, i: nat): (r: (seq<int>, nat))
    requires i <= |s|
    ensures r.1 <= |s| && |r.0| <= 1
  {
    var j := SkipSpaces(s, i);
    var k := if CharAt(s, j) == '-' || CharAt(s, j) == '+' then j + 1 else j;
    var e := Run(s, k, false);
    var x: int := Numeral(s[k..e], 10);
    if e == k then ([], e) else ([if CharAt(s, j) == '-' then -x else x], e)
  }

  /** The values sscanf converts by "%d.%d..." with `n` conversions left, from offset `i`. */
  function Sscanf(s: string, i: nat, n: nat): seq<int>
    requires i <= |s|
    decreases n
  {
    if n == 0 then [] else
    var (v, e) := Convert(s, i);
    if v == [] then [] else if CharAt(s, e) == '.' then v + Sscanf(s, e + 1, n - 1) else v
  }

  /** The bits of a 32-bit int. */
  function Bits(x: int): U32 { x % TWO32 }

  /**
   * translate_addr; `junk` is what its four variables held, which is all they hold after a conversion
   * that did not take place.  The octets are the values if and only if these are octets.
   */
  method TranslateAddr(str: string, junk: seq<int>) returns (address: U32)
    requires |junk| == 4
    ensures var v := Scanned(str, junk);
            (forall j :: 0 <= j < 4 ==> 0 <= v[j] < 0x100)
            <==> forall j :: 0 <= j < 4 ==> v[j] == WordOctets(address)[j]
  {
    hide Sscanf;
    var v := Scanned(str, junk);
    address := Combine(v[0], v[1], v[2], v[3]);
    if forall j :: 0 <= j < 4 ==> 0 <= v[j] < 0x100 {
      OctetsOfNumber([v[0], v[1], v[2], v[3]]);
    }
  }

  /** What the four variables hold after sscanf. */
  function Scanned(str: string, junk: seq<int>): (v: seq<int>)
    requires |junk| == 4
    ensures |v| == 4
  {
    SscanfCount(str, 0, 4);
    Sscanf(str, 0, 4) + junk[|Sscanf(str, 0, 4)|..]
  }

  lemma {:induction false} SscanfCount(s: string, i: nat, n: nat)
    requires i <= |s|
    ensures |Sscanf(s, i, n)| <= n
    decreases n
  {
    hide Convert;
    if n > 0 && CharAt(s, Convert(s, i).1) == '.' {
      SscanfCount(s, Convert(s, i).1 + 1, n - 1);
    }
  }

  /** The shifts and ors of translate_addr. */
  method Combine(a: int, b: int, c: int, d: int) returns (address: U32)
    ensures 0 <= a < 0x100 && 0 <= b < 0x100 && 0 <= c < 0x100 && 0 <= d < 0x100 ==>
              address == a + b * 0x100 + c * 0x10000 + d * 0x1000000
  {
    address := CombineHigh(c, d);
    address := Or(address, Bits(b * 0x100), 0x10000);
    address := Or(address, Bits(a), 0x100);
  }

  method CombineHigh(c: int, d: int) returns (address: U32)
    ensures 0 <= c < 0x100 && 0 <= d < 0x100 ==> address == c * 0x10000 + d * 0x1000000
  {
    address := 0;
    address := Or(address, Bits(d * 0x1000000), 0x1000000);
    address := Or(address, Bits(c * 0x10000), 0x1000000);
  }

  lemma SkipNone(s: string, i: nat)
    requires i < |s| && !IsSpace(s[i])
    ensures SkipSpaces(s, i) == i
  {
  }

  lemma DigitAhead(s: string, i: nat, t: string, k: nat)
    requires AllDigits(t) && i + |t| <= |s| && s[i..i + |t|] == t && i <= k < i + |t|
    ensures IsDigit(s[k])
  {
    assert s[k] == t[k - i];
  }

  lemma RunDigits(s: string, i: nat, t: string)
    requires t != [] && AllDigits(t) && i + |t| <= |s| && s[i..i + |t|] == t && !IsDigit(CharAt(s, i + |t|))
    ensures Run(s, i, false) == i + |t| && IsDigit(s[i])
  {
    hide Run, IsHex, IsDigit, AllDigits;
    forall k: nat | i <= k < i + |t| ensures IsDigit(s[k]) { DigitAhead(s, i, t, k); }
    RunEnds(s, i, i + |t|, false);
  }

  /** One conversion on a digit string that a non-digit follows. */
  lemma ConvertDigits(s: string, i: nat, t: string)
    requires t != [] && AllDigits(t) && i + |t| <= |s| && s[i..i + |t|] == t && !IsDigit(CharAt(s, i + |t|))
    ensures Convert(s, i) == ([Numeral(t, 10) as int], i + |t|)
  {
    hide *;
    RunDigits(s, i, t);
    ConvertRun(s, i, t);
  }

  lemma ConvertRun(s: string, i: nat, t: string)
    requires t != [] && i + |t| <= |s| && s[i..i + |t|] == t && IsDigit(s[i]) && Run(s, i, false) == i + |t|
    ensures Convert(s, i) == ([Numeral(t, 10) as int], i + |t|)
  {
    hide Numeral, Run, IsHex, SkipSpaces;
    SkipNone(s, i);
  }

  /** What one "%d" takes: white space, a sign perhaps, and digits. */
  datatype Field = Field(spaces: string, sign: string, digits: string) {
    ghost predicate Ok() {
      AllSpaces(spaces) && (sign == "" || sign == "-" || sign == "+") && digits != [] && AllDigits(digits)
    }

    function Text(): string { spaces + sign + digits }

    ghost function Value(): int { if sign == "-" then -(Numeral(digits, 10) as int) else Numeral(digits, 10) }
  }

  ghost predicate AllSpaces(t: string) { forall k :: 0 <= k < |t| ==> IsSpace(t[k]) }

  ghost predicate TextAt(s: string, i: nat, t: string) { i + |t| <= |s| && s[i..i + |t|] == t }

  lemma TextParts(s: string, i: nat, t: string, u: string)
    ensures TextAt(s, i, t + u) <==> TextAt(s, i, t) && TextAt(s, i + |t|, u)
  {
    if i + |t + u| <= |s| {
      assert s[i..i + |t + u|] == s[i..i + |t|] + s[i + |t|..i + |t| + |u|];
      assert (t + u)[..|t|] == t && (t + u)[|t|..] == u;
    }
  }

  lemma {:induction false} SpacesSkipped(s: string, i: nat, t: string)
    requires AllSpaces(t) && TextAt(s, i, t) && !IsSpace(CharAt(s, i + |t|))
    ensures SkipSpaces(s, i) == i + |t|
    decreases |t|
  {
    if t != [] {
      assert s[i] == s[i..i + |t|][0] == t[0];
      assert s[i + 1..i + 1 + |t[1..]|] == s[i..i + |t|][1..];
      SpacesSkipped(s, i + 1, t[1..]);
    }
  }

  /** One conversion of any such field that no further digit follows. */
  lemma ConvertField(s: string, i: nat, f: Field)
    requires f.Ok() && TextAt(s, i, f.Text()) && !IsDigit(CharAt(s, i + |f.Text()|))
    ensures Convert(s, i) == ([f.Value()], i + |f.Text()|)
  {
    hide Numeral, AllSpaces, AllDigits, Run, SkipSpaces, Convert, IsSpace, IsDigit, TextAt;
    var j := i + |f.spaces|;
    var k := j + |f.sign|;
    TextParts(s, i, f.spaces + f.sign, f.digits);
    TextParts(s, i, f.spaces, f.sign);
    TextIs(s, k, f.digits);
    RunDigits(s, k, f.digits);
    SignAhead(s, j, f.sign);
    NoSpaceAhead(CharAt(s, j));
    SpacesSkipped(s, i, f.spaces);
    ConvertAt(s, i, j, k, k + |f.digits|);
  }

  lemma TextIs(s: string, i: nat, t: string)
    requires TextAt(s, i, t)
    ensures i + |t| <= |s| && s[i..i + |t|] == t
  {
  }

  lemma SignAhead(s: string, j: nat, sign: string)
    requires TextAt(s, j, sign) && |sign| <= 1
    ensures sign != "" ==> CharAt(s, j) == sign[0]
  {
    assert sign != "" ==> s[j] == s[j..j + |sign|][0];
  }

  lemma ConvertAt(s: string, i: nat, j: nat, k: nat, e: nat)
    requires i <= |s| && SkipSpaces(s, i) == j && k <= |s| && Run(s, k, false) == e && k < e
    requires k == if CharAt(s, j) == '-' || CharAt(s, j) == '+' then j + 1 else j
    ensures var x: int := Numeral(s[k..e], 10);
            Convert(s, i) == ([if CharAt(s, j) == '-' then -x else x], e)
  {
    hide Numeral, Run, SkipSpaces;
  }

  lemma NoSpaceAhead(c: char)
    ensures IsDigit(c) || c == '-' || c == '+' ==> !IsSpace(c)
    ensures IsDigit(c) ==> c != '-' && c != '+'
  {
  }

  /** Where no digit follows white space and sign there is no conversion. */
  lemma ConvertNothing(s: string, i: nat, spaces: string, sign: string)
    requires AllSpaces(spaces) && (sign == "" || sign == "-" || sign == "+") && TextAt(s, i, spaces + sign)
    requires var c := CharAt(s, i + |spaces + sign|);
             !IsDigit(c) && (sign == "" ==> !IsSpace(c) && c != '-' && c != '+')
    ensures Convert(s, i).0 == []
  {
    hide Numeral, AllSpaces;
    var j := i + |spaces|;
    TextParts(s, i, spaces, sign);
    assert sign != "" ==> CharAt(s, j) == s[j..j + |sign|][0] == sign[0];
    NoSpaceAhead(CharAt(s, j));
    SpacesSkipped(s, i, spaces);
    assert i + |spaces + sign| == j + |sign|;
    hide SkipSpaces;
  }

  ghost function FieldsText(fields: seq<Field>): string {
    if fields == [] then "" else fields[0].Text() + if |fields| == 1 then "" else "." + FieldsText(fields[1..])
  }

  ghost function FieldsValues(fields: seq<Field>): seq<int> {
    if fields == [] then [] else [fields[0].Value()] + FieldsValues(fields[1..])
  }

  /**
   * sscanf converts as many fields as are there, with a dot between each two, and stops after the last one
   * wanted, or where no dot follows or no field behind the dot.
   */
  lemma {:induction false} SscanfFields(s: string, i: nat, fields: seq<Field>, n: nat)
    requires 0 < |fields| <= n && TextAt(s, i, FieldsText(fields)) && AllOk(fields)
    requires var e := i + |FieldsText(fields)|;
             !IsDigit(CharAt(s, e)) && (|fields| < n && CharAt(s, e) == '.' ==> Convert(s, e + 1).0 == [])
    ensures Sscanf(s, i, n) == FieldsValues(fields)
    decreases |fields|
  {
    hide Convert, Field.Text, Field.Value, Field.Ok, Sscanf, FieldsText, FieldsValues, IsDigit, TextAt, AllOk, CharAt;
    var f, rest := fields[0], fields[1..];
    FieldsHead(fields);
    if rest == [] {
      LastField(s, i, f, n);
    } else {
      var tail := "." + FieldsText(rest);
      TextParts(s, i, f.Text(), tail);
      TextParts(s, i + |f.Text()|, ".", FieldsText(rest));
      DotAt(s, i + |f.Text()|);
      ConvertField(s, i, f);
      SscanfStep(s, i, n);
      SscanfFields(s, i + |f.Text()| + 1, rest, n - 1);
    }
  }

  lemma LastField(s: string, i: nat, f: Field, n: nat)
    requires n > 0 && f.Ok() && TextAt(s, i, f.Text())
    requires var e := i + |f.Text()|;
             !IsDigit(CharAt(s, e)) && (n > 1 && CharAt(s, e) == '.' ==> Convert(s, e + 1).0 == [])
    ensures Sscanf(s, i, n) == [f.Value()]
  {
    hide Convert, Field.Text, Field.Value, Field.Ok, Sscanf, IsDigit, TextAt;
    var e := i + |f.Text()|;
    ConvertField(s, i, f);
    SscanfStep(s, i, n);
    if CharAt(s, e) == '.' {
      SscanfNone(s, e + 1);
      if n > 1 {
        SscanfStep(s, e + 1, n - 1);
      }
    }
  }

  ghost predicate AllOk(fields: seq<Field>) { forall f :: f in fields ==> f.Ok() }

  lemma FieldsHead(fields: seq<Field>)
    requires fields != []
    ensures FieldsText(fields)
         == if |fields| == 1 then fields[0].Text() else fields[0].Text() + ("." + FieldsText(fields[1..]))
    ensures FieldsValues(fields) == [fields[0].Value()] + if |fields| == 1 then [] else FieldsValues(fields[1..])
    ensures AllOk(fields) ==> fields[0].Ok() && AllOk(fields[1..])
  {
  }

  lemma SscanfStep(s: string, i: nat, n: nat)
    requires i <= |s| && n > 0
    ensures var (v, e) := Convert(s, i);
            Sscanf(s, i, n) == v + if v != [] && CharAt(s, e) == '.' then Sscanf(s, e + 1, n - 1) else []
  {
    hide Convert;
  }

  lemma SscanfNone(s: string, i: nat)
    requires i <= |s|
    ensures Sscanf(s, i, 0) == []
  {
  }

  lemma DotAt(s: string, i: nat)
    requires TextAt(s, i, ".")
    ensures CharAt(s, i) == '.' && !IsDigit(CharAt(s, i)) && i < |s|
  {
    assert s[i] == s[i..i + 1][0];
  }

  ghost function Numerals(parts: seq<string>): seq<int> {
    if parts == [] then [] else [Numeral(parts[0], 10) as int] + Numerals(parts[1..])
  }

  ghost predicate AllDecimal(parts: seq<string>) {
    parts == [] || (AllDigits(parts[0]) && AllDecimal(parts[1..]))
  }

  lemma Tail(s: string, i: nat, parts: seq<string>)
    requires SpellsFrom(s, i, parts) && AllDecimal(parts) && |parts| > 1
    ensures i + |parts[0]| < |s| && s[i + |parts[0]|] == '.'
    ensures SpellsFrom(s, i + |parts[0]| + 1, parts[1..]) && AllDecimal(parts[1..])
  {
  }

  /** sscanf reads every part of a dotted decimal text. */
  lemma {:induction false} SscanfParts(s: string, i: nat, parts: seq<string>, n: nat)
    requires SpellsFrom(s, i, parts) && AllDecimal(parts) && n == |parts|
    ensures i <= |s| && Sscanf(s, i, n) == Numerals(parts)
    decreases n
  {
    hide Convert, Numeral, AllDigits, IsHex;
    var j := i + |parts[0]| + 1;
    ConvertDigits(s, i, parts[0]);
    if n > 1 {
      Tail(s, i, parts);
      SscanfParts(s, j, parts[1..], n - 1);
    }
  }

  lemma NumeralsOfParts(o: Address)
    ensures AllDecimal(Parts(o))
    ensures Numerals(Parts(o)) == [o[0] as int, o[1] as int, o[2] as int, o[3] as int]
  {
    DecIsNumeral(o[0]); DecIsNumeral(o[1]); DecIsNumeral(o[2]); DecIsNumeral(o[3]);
    var p := Parts(o);
    assert AllDecimal(p[1..][1..]) && AllDecimal(p[1..]);
    assert Numerals(p[1..][1..][1..]) == [o[3] as int];
    assert Numerals(p[1..][1..]) == [o[2] as int, o[3] as int];
    assert Numerals(p[1..]) == [o[1] as int, o[2] as int, o[3] as int];
  }

  lemma SscanfDotted(o: Address)
    ensures Sscanf(Dotted(o), 0, 4) == [o[0] as int, o[1] as int, o[2] as int, o[3] as int]
  {
    DottedSpelled(o);
    assert Dotted(o)[0..] == Dotted(o);
    SpellsFromIsJoin(Dotted(o), 0, Parts(o));
    NumeralsOfParts(o);
    SscanfParts(Dotted(o), 0, Parts(o), 4);
  }

  // ---------------------------------------------------------------- round trips and agreement

  lemma Below(q: nat, r: nat)
    ensures r < 0x100 ==> (q * 0x100 + r) / 0x100 == q && (q * 0x100 + r) % 0x100 == r
    ensures r < 0x10000 ==> (q * 0x10000 + r) / 0x10000 == q
    ensures r < 0x1000000 ==> (q * 0x1000000 + r) / 0x1000000 == q
  {
  }

  lemma OctetsOfNumber(o: Address)
    ensures NetworkOctets(o[0] as int * 0x1000000 + o[1] as int * 0x10000 + o[2] as int * 0x100 + o[3]) == o
    ensures WordOctets(WordOf(o)) == o
  {
    OctetsOf(o[0], o[1], o[2], o[3]);
    OctetsOf(o[3], o[2], o[1], o[0]);
  }

  lemma OctetsOf(a: Octet, b: Octet, c: Octet, d: Octet)
    ensures var v: U32 := a as int * 0x1000000 + b as int * 0x10000 + c as int * 0x100 + d;
            v / 0x1000000 == a && v / 0x10000 % 0x100 == b && v / 0x100 % 0x100 == c && v % 0x100 == d
  {
    var x: nat := a as int * 0x100 + b;
    var y: nat := a as int * 0x10000 + b as int * 0x100 + c;
    var z: nat := b as int * 0x10000 + c as int * 0x100 + d;
    Below(a, z);
    Below(x, c as int * 0x100 + d);
    Below(a, b);
    Below(y, d);
    Below(x, c);
  }

  lemma DottedSpelled(o: Address)
    ensures Spells(Dotted(o), Parts(o)) && Values(Parts(o)) == [o[0], o[1], o[2], o[3]]
  {
    OctetText(o[0]); OctetText(o[1]); OctetText(o[2]); OctetText(o[3]);
  }

  lemma DottedRead(o: Address)
    ensures Spells(Dotted(o), Parts(o)) && Fits(Values(Parts(o))) && NetworkOctets(Concocted(Values(Parts(o)))) == o
  {
    DottedSpelled(o);
    OctetsOfNumber(o);
  }

  // each parser on the canonical text of an address

  method AtonOfDotted(s: string, ghost o: Address) returns (back: Address)
    requires s == Dotted(o)
    ensures back == o
  {
    hide Dotted, Spells, Fits, Concocted, Values;
    DottedRead(o);
    var ok;
    ok, back := Aton(s, [0, 0, 0, 0]);
  }

  method IpstrOfDotted(o: Address) returns (q: array<Octet>)
    ensures q[..] == o
  {
    q := new Octet[4](_ => 0);
    ReadBack(o);
    var ret := IpstrToU32(Dotted(o), q);
    assert q[..] == o;
  }

  method TranslateOfDotted(o: Address, junk: seq<int>) returns (w: U32)
    requires |junk| == 4
    ensures w == WordOf(o) && WordOctets(w) == o
  {
    hide Sscanf, Dotted;
    SscanfDotted(o);
    w := TranslateAddr(Dotted(o), junk);
    assert WordOctets(w) == o;
    WordOfOctets(w);
  }

  /** On every canonical dotted quad the three parsers give the same four octets. */
  method ThreeParsersAgree(o: Address, junk: seq<int>) returns (a: Address, q: array<Octet>, w: U32)
    requires |junk| == 4
    ensures a == q[..] == WordOctets(w) == o
  {
    a := AtonOfDotted(Dotted(o), o);
    w := TranslateOfDotted(o, junk);
    q := IpstrOfDotted(o);
  }

  // each printer, read back from the buffer it filled

  method AtonOfNtoa(o: Address) returns (back: Address)
    ensures back == o
  {
    var buf := new char[16](_ => ' ');
    DottedFits(o);
    var ok := NtoaR(o, buf, 16);
    assert buf[..|Dotted(o)|] == buf[..|Dotted(o)| + 1][..|Dotted(o)|] == Dotted(o);
    back := AtonOfDotted(buf[..|Dotted(o)|], o);
  }

  method IpstrOfSockaddr(o: Address) returns (q: array<Octet>)
    ensures q[..] == o
  {
    var ip := new char[16](_ => ' ');
    SockaddrToIpstr(o, ip);
    q := new Octet[4](_ => 0);
    ReadBack(o);
    var ret := IpstrToU32(ip[..|Dotted(o)|], q);
    assert q[..] == o;
  }

  lemma ReadBack(o: Address)
    ensures Window(Dotted(o)) == |Dotted(o)| && DigitsAndDots(Dotted(o), |Dotted(o)|) && '\0' !in Dotted(o)
    ensures FieldOctets(Dotted(o), |Dotted(o)|) == o
  {
    hide Dec, Numeral, FieldOctets, Join, DigitsAndDots;
    DottedFits(o);
    DecIsNumeral(o[0]); DecIsNumeral(o[1]); DecIsNumeral(o[2]); DecIsNumeral(o[3]);
    CharsFour(Parts(o));
    OctetsOfFields(Parts(o));
  }

  lemma WordOfOctets(ip: U32)
    ensures WordOf(WordOctets(ip)) == ip
  {
    var high := ip / 0x100;
    assert ip / 0x10000 == high / 0x100 && ip / 0x1000000 == high / 0x100 / 0x100;
  }

  method TranslateOfFormat(ip: U32, junk: seq<int>) returns (back: U32)
    requires |junk| == 4
    ensures back == ip
  {
    var text := FormatIp(ip);
    WordOfOctets(ip);
    back := TranslateOfDotted(WordOctets(ip), junk);
  }
}
