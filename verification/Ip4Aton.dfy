/** ip4addr_aton (device/sal/ip4_addr.c) against the grammar of Ip4Text. */
module Ip4Aton {
  import opened Ip4Text

  datatype Scanned = Refused | Read(vals: seq<U32>)

  predicate InNumber(c: char, hex: bool) { if hex then IsXDigit(c) else IsDigit(c) }

  /** The first offset from `i` on that holds no digit of the base. */
  function Run(s: string, i: nat, hex: bool): (j: nat)
    requires i <= |s|
    ensures i <= j <= |s|
    ensures forall k :: i <= k < j ==> InNumber(s[k], hex)
    ensures j < |s| ==> !InNumber(s[j], hex)
    decreases |s| - i
  {
    if i < |s| && InNumber(s[i], hex) then Run(s, i + 1, hex) else i
  }

  predicate HexAt(s: string, i: nat) { CharAt(s, i) == '0' && (CharAt(s, i + 1) == 'x' || CharAt(s, i + 1) == 'X') }

  /** Where the number that starts at `i` ends: as many characters as its base allows. */
  function NumberEnd(s: string, i: nat): (j: nat)
    requires IsDigit(CharAt(s, i))
    ensures i < j <= |s|
  {
    if HexAt(s, i) then Run(s, i + 2, true) else Run(s, i + 1, false)
  }

  /** The numbers from `i` on, after `done` earlier ones. */
  function Scan(s: string, i: nat, done: seq<U32>): (r: Scanned)
    requires i <= |s| && |done| <= 3
    ensures r.Read? ==> |done| < |r.vals| <= 4
    decreases |s| - i
  {
    if !IsDigit(CharAt(s, i)) then Refused
    else
      var j := NumberEnd(s, i);
      var v := NumberValue(s[i..j]);
      if CharAt(s, j) == '.' then
        if |done| >= 3 then Refused else Scan(s, j + 1, done + [v])
      else if Ends(s, j) then Read(done + [v])
      else Refused
  }

  lemma ScanStep(s: string, i: nat, done: seq<U32>, v: U32)
    requires i <= |s| && |done| <= 3 && IsDigit(CharAt(s, i)) && v == NumberValue(s[i..NumberEnd(s, i)])
    ensures var j := NumberEnd(s, i);
            Scan(s, i, done)
            == if CharAt(s, j) == '.' then (if |done| >= 3 then Refused else Scan(s, j + 1, done + [v]))
               else if Ends(s, j) then Read(done + [v]) else Refused
  {
  }

  // ---------------------------------------------------------------- the scanner is the grammar

  lemma NumberEndIsNumber(s: string, i: nat)
    requires IsDigit(CharAt(s, i))
    ensures IsNumber(s[i..NumberEnd(s, i)])
  {
    var j := NumberEnd(s, i);
    var t := s[i..j];
    if HexAt(s, i) {
      assert t[2..] == s[i + 2..j];
    } else {
      assert forall k :: 0 <= k < |t| ==> t[k] == s[i + k];
      assert !IsHex(t);
    }
  }

  /** A number followed by a dot, white space or the end is read whole. */
  lemma NumberEndOf(s: string, i: nat, t: string)
    requires IsNumber(t) && i + |t| <= |s| && s[i..i + |t|] == t
    requires CharAt(s, i + |t|) == '.' || Ends(s, i + |t|)
    ensures IsDigit(CharAt(s, i)) && NumberEnd(s, i) == i + |t|
  {
    var j := i + |t|;
    assert forall k :: 0 <= k < |t| ==> s[i + k] == t[k];
    assert s[i] == t[0];
    if |t| >= 2 { assert s[i + 1] == t[1]; }
    assert HexAt(s, i) <==> IsHex(t);
    if IsHex(t) {
      forall k | i + 2 <= k < j ensures IsXDigit(s[k]) { assert s[k] == t[2..][k - i - 2]; }
      RunEnds(s, i + 2, j, true);
    } else {
      RunEnds(s, i + 1, j, false);
    }
  }

  lemma RunEnds(s: string, i: nat, j: nat, hex: bool)
    requires i <= j <= |s| && (forall k :: i <= k < j ==> InNumber(s[k], hex)) && (j < |s| ==> !InNumber(s[j], hex))
    ensures Run(s, i, hex) == j
  {
  }

  /** `s` has these parts from offset `i` on: number, dot, number, ..., number, end. */
  ghost predicate SpellsFrom(s: string, i: nat, parts: seq<string>)
    decreases |parts|
  {
    && parts != [] && IsNumber(parts[0])
    && i + |parts[0]| <= |s| && s[i..i + |parts[0]|] == parts[0]
    && var j := i + |parts[0]|;
       if |parts| == 1 then Ends(s, j) else CharAt(s, j) == '.' && SpellsFrom(s, j + 1, parts[1..])
  }

  ghost predicate AllNumbers(parts: seq<string>) { forall t :: t in parts ==> IsNumber(t) }

  lemma AllNumbersHead(t: string, rest: seq<string>)
    ensures AllNumbers([t] + rest) <==> IsNumber(t) && AllNumbers(rest)
  {
    assert t in [t] + rest;
    assert forall u :: u in rest ==> u in [t] + rest;
  }

  /** Part by part is what the joined text says. */
  lemma {:induction false} SpellsFromIsJoin(s: string, i: nat, parts: seq<string>)
    requires i <= |s| && parts != []
    ensures SpellsFrom(s, i, parts) <==> AllNumbers(parts) && Join(parts) <= s[i..] && Ends(s, i + |Join(parts)|)
    decreases |parts|
  {
    hide IsNumber, AllNumbers, Join, SpellsFrom, Ends;
    var t, rest, j := parts[0], parts[1..], i + |parts[0]|;
    assert parts == [t] + rest;
    AllNumbersHead(t, rest);
    SpellsHead(s, i, parts);
    JoinHead(parts);
    if rest == [] {
      NoNumbers();
      OneText(s, i, t);
    } else {
      SplitText(s, i, t, Join(rest));
      assert |Join(parts)| == |t| + 1 + |Join(rest)|;
      if j < |s| { SpellsFromIsJoin(s, j + 1, rest); }
    }
  }

  lemma SpellsHead(s: string, i: nat, parts: seq<string>)
    requires parts != []
    ensures var t, j := parts[0], i + |parts[0]|;
            SpellsFrom(s, i, parts) <==>
              && IsNumber(t) && j <= |s| && s[i..j] == t
              && if |parts| == 1 then Ends(s, j) else j < |s| && s[j] == '.' && SpellsFrom(s, j + 1, parts[1..])
  {
    hide IsNumber;
  }

  lemma JoinHead(parts: seq<string>)
    requires parts != []
    ensures Join(parts) == if |parts| == 1 then parts[0] else parts[0] + "." + Join(parts[1..])
  {
  }

  lemma OneText(s: string, i: nat, t: string)
    requires i <= |s|
    ensures t <= s[i..] <==> i + |t| <= |s| && s[i..i + |t|] == t
  {
  }

  lemma NoNumbers()
    ensures AllNumbers([])
  {
  }

  lemma SplitText(s: string, i: nat, t: string, rest: string)
    requires i <= |s|
    ensures t + "." + rest <= s[i..] <==>
              i + |t| < |s| && s[i..i + |t|] == t && s[i + |t|] == '.' && rest <= s[i + |t| + 1..]
  {
    var j, u := i + |t|, t + "." + rest;
    if j < |s| && s[i..j] == t && s[j] == '.' && rest <= s[j + 1..] {
      assert s[i..] == s[i..j] + [s[j]] + s[j + 1..];
    }
    if u <= s[i..] {
      assert s[i..][..|t|] == u[..|t|] == t && s[i..][|t|] == u[|t|] && s[i..][|t| + 1..|u|] == u[|t| + 1..];
      assert s[i..][..|t|] == s[i..j] && s[i..][|t|] == s[j];
      assert s[j + 1..][..|rest|] == s[i..][|t| + 1..|u|];
    }
  }

  lemma ValuesHead(t: string, rest: seq<string>, done: seq<U32>)
    ensures done + Values([t] + rest) == (done + [NumberValue(t)]) + Values(rest)
  {
    assert Values([t] + rest) == [NumberValue(t)] + Values(rest);
  }

  /** Whatever the grammar spells, the scanner reads. */
  lemma {:induction false} ScanComplete(s: string, i: nat, parts: seq<string>, done: seq<U32>)
    requires i <= |s| && |done| + |parts| <= 4 && SpellsFrom(s, i, parts)
    ensures Scan(s, i, done) == Read(done + Values(parts))
    decreases |parts|
  {
    hide IsNumber, NumberValue, NumberEnd;
    var t, rest := parts[0], parts[1..];
    assert parts == [t] + rest;
    ValuesHead(t, rest, done);
    NumberEndOf(s, i, t);
    ScanStep(s, i, done, NumberValue(t));
    if rest != [] { ScanComplete(s, i + |t| + 1, rest, done + [NumberValue(t)]); }
  }

  /** Whatever the scanner reads, the grammar spells. */
  lemma {:induction false} ScanSound(s: string, i: nat, done: seq<U32>) returns (parts: seq<string>)
    requires i <= |s| && |done| <= 3 && Scan(s, i, done).Read?
    ensures SpellsFrom(s, i, parts) && |done| + |parts| <= 4
    decreases |s| - i
  {
    hide IsNumber, NumberValue, NumberEnd;
    var j := NumberEnd(s, i);
    var t := s[i..j];
    NumberEndIsNumber(s, i);
    ScanStep(s, i, done, NumberValue(t));
    if CharAt(s, j) == '.' {
      var rest := ScanSound(s, j + 1, done + [NumberValue(t)]);
      parts := [t] + rest;
      assert parts[1..] == rest;
    } else {
      parts := [t];
    }
  }

  /** The scanner accepts exactly the texts of the grammar, and reads their values. */
  lemma ScanIsGrammar(s: string)
    ensures Scan(s, 0, []).Read? <==> exists parts :: Spells(s, parts)
    ensures forall parts :: Spells(s, parts) ==> Scan(s, 0, []) == Read(Values(parts))
  {
    hide IsNumber, NumberValue;
    assert s[0..] == s;
    forall parts | Spells(s, parts) ensures Scan(s, 0, []) == Read(Values(parts)) {
      SpellsFromIsJoin(s, 0, parts);
      ScanComplete(s, 0, parts, []);
      assert [] + Values(parts) == Values(parts);
    }
    if Scan(s, 0, []).Read? {
      var parts := ScanSound(s, 0, []);
      SpellsFromIsJoin(s, 0, parts);
      assert Spells(s, parts);
    }
  }

  // ---------------------------------------------------------------- the code

  lemma ModStep(x: nat, base: nat, d: nat)
    requires base == 8 || base == 10 || base == 16
    ensures (x % TWO32 * base + d) % TWO32 == (x * base + d) % TWO32
  {
    var q, r := x / TWO32, x % TWO32;
    assert x == q * TWO32 + r;
    ModPeriod(r * base + d, q * base);
    assert x * base + d == (r * base + d) + (q * base) * TWO32;
  }

  lemma {:induction false} ModPeriod(a: nat, k: nat)
    ensures (a + k * TWO32) % TWO32 == a % TWO32
  {
    if k > 0 {
      ModPeriod(a, k - 1);
      assert a + k * TWO32 == (a + (k - 1) * TWO32) + TWO32;
    }
  }

  /** A u32_t shifted left by four loses its top four bits. */
  lemma ShiftLeft(val: U32, d: nat)
    requires d < 16
    ensures val * 16 % TWO32 == val % 0x1000_0000 * 16
    ensures (val * 16 + d) % TWO32 == val % 0x1000_0000 * 16 + d
  {
    var q, a := val / 0x1000_0000, val % 0x1000_0000;
    assert val * 16 == a * 16 + q * TWO32;
    ModPeriod(a * 16, q);
    ModPeriod(a * 16 + d, q);
  }

  /** One more digit: by multiplication below 10, by shift and or above. */
  method AddDigit(val: U32, base: nat, c: char) returns (val': U32)
    requires InNumber(c, base == 16)
    ensures val' == (val * base + DigitValue(c)) % TWO32
  {
    if IsDigit(c) {
      val' := (val * base + (c as int - '0' as int)) % TWO32;
    } else {
      var d := c as int + 10 - (if 'a' <= c <= 'z' then 'a' else 'A') as int;
      ShiftLeft(val, d);
      val' := Or(val * 16 % TWO32, d, 0x10);
    }
  }

  lemma NumeralSnoc(s: string, i: nat, j: nat, base: nat)
    requires i <= j < |s|
    ensures Numeral(s[i..j + 1], base) == Numeral(s[i..j], base) * base + DigitValue(s[j])
  {
    assert s[i..j + 1][..j - i] == s[i..j];
  }

  /** The inner half of the loop: one number, its base told by its first characters. */
  method CollectNumber(s: string, i: nat) returns (val: U32, j: nat)
    requires IsDigit(CharAt(s, i))
    ensures j == NumberEnd(s, i) && val == NumberValue(s[i..j])
  {
    var base := 10;
    j := i;
    if s[i] == '0' {
      j := j + 1;
      if CharAt(s, j) == 'x' || CharAt(s, j) == 'X' {
        base := 16;
        j := j + 1;
      } else {
        base := 8;
      }
    }
    ghost var start := j;
    val, j := CollectDigits(s, j, base);
    NumberParts(s, i, j, start);
  }

  /** The digit loop. */
  method CollectDigits(s: string, start: nat, base: nat) returns (val: U32, j: nat)
    requires start <= |s| && (base == 8 || base == 10 || base == 16)
    ensures j == Run(s, start, base == 16) && val == Numeral(s[start..j], base) % TWO32
  {
    hide Numeral, Run, IsHex;
    NumeralNone(s, start, base);
    val, j := 0, start;
    ghost var x := 0;
    while InNumber(CharAt(s, j), base == 16)
      invariant start <= j <= |s| && x == Numeral(s[start..j], base) && val == x % TWO32
      invariant forall k :: start <= k < j ==> InNumber(s[k], base == 16)
      decreases |s| - j
    {
      var c := CharAt(s, j);
      NumeralSnoc(s, start, j, base);
      ModStep(x, base, DigitValue(c));
      val := AddDigit(val, base, c);
      x := x * base + DigitValue(c);
      j := j + 1;
    }
    RunEnds(s, start, j, base == 16);
  }

  lemma NumeralNone(s: string, i: nat, base: nat)
    requires i <= |s|
    ensures Numeral(s[i..i], base) == 0
  {
    assert s[i..i] == [];
  }

  /** The text of a number read up to `j` has its digits from `start` on. */
  lemma NumberParts(s: string, i: nat, j: nat, start: nat)
    requires i < j <= |s|
    requires start == if HexAt(s, i) then i + 2 else if s[i] == '0' then i + 1 else i
    requires start <= j && (HexAt(s, i) ==> i + 2 <= |s|)
    ensures DigitsOf(s[i..j]) == s[start..j]
    ensures BaseOf(s[i..j]) == if HexAt(s, i) then 16 else if s[i] == '0' then 8 else 10
  {
  }

  /** The loop over the parts, and the check of what follows the last. */
  method CollectParts(s: string) returns (ok: bool, vals: seq<U32>)
    ensures Scan(s, 0, []) == if ok then Read(vals) else Refused
  {
    hide NumberValue, NumberEnd;
    var i := 0;
    vals := [];
    while true
      invariant i <= |s| && |vals| <= 3 && Scan(s, 0, []) == Scan(s, i, vals)
      decreases |s| - i
    {
      if !IsDigit(CharAt(s, i)) { return false, vals; }
      ghost var from := i;
      var val;
      val, i := CollectNumber(s, i);
      ScanStep(s, from, vals, val);
      if CharAt(s, i) == '.' {
        if |vals| >= 3 { return false, vals; }
        vals := vals + [val];
        i := i + 1;
      } else {
        return Ends(s, i), vals + [val];
      }
    }
  }

  /** The switch on the number of parts, with its shifts and ors. */
  method Concoct(vals: seq<U32>) returns (ok: bool, v: U32)
    requires 1 <= |vals| <= 4
    ensures ok <==> Fits(vals)
    ensures ok ==> v == Concocted(vals)
  {
    v := vals[|vals| - 1];
    match |vals| {
      case 1 =>
      case 2 =>
        if v > 0xffffff || vals[0] > 0xff { return false, v; }
        v := WithLast(v, vals[0] * 0x1000000, 0x1000000);
      case 3 =>
        if v > 0xffff || vals[0] > 0xff || vals[1] > 0xff { return false, v; }
        v := ThreeParts(vals[0], vals[1], v);
      case _ =>
        if v > 0xff || vals[0] > 0xff || vals[1] > 0xff || vals[2] > 0xff { return false, v; }
        v := FourParts(vals[0], vals[1], vals[2], v);
    }
    return true, v;
  }

  method ThreeParts(a: U32, b: U32, last: U32) returns (v: U32)
    requires a <= 0xff && b <= 0xff && last <= 0xffff
    ensures v == a * 0x1000000 + b * 0x10000 + last
  {
    var high := TwoHigh(a, b);
    v := WithLast(last, high, 0x10000);
  }

  method FourParts(a: U32, b: U32, c: U32, last: U32) returns (v: U32)
    requires a <= 0xff && b <= 0xff && c <= 0xff && last <= 0xff
    ensures v == a * 0x1000000 + b * 0x10000 + c * 0x100 + last
  {
    var high := ThreeHigh(a, b, c);
    v := WithLast(last, high, 0x100);
  }

  /** The last part, below `m`, under the others, a multiple of it. */
  method WithLast(last: U32, high: U32, ghost m: nat) returns (v: U32)
    requires m == 0x100 || m == 0x10000 || m == 0x1000000
    requires last < m && high % m == 0
    ensures v == high + last
  {
    v := Or(last, high, m);
  }

  /** The parts above the last, each in its byte. */
  method TwoHigh(a: U32, b: U32) returns (high: U32)
    requires a <= 0xff && b <= 0xff
    ensures high == a * 0x1000000 + b * 0x10000
  {
    high := Or(a * 0x1000000, b * 0x10000, 0x1000000);
  }

  method ThreeHigh(a: U32, b: U32, c: U32) returns (high: U32)
    requires a <= 0xff && b <= 0xff && c <= 0xff
    ensures high == a * 0x1000000 + b * 0x10000 + c * 0x100
  {
    high := TwoHigh(a, b);
    high := Or(high, c * 0x100, 0x10000);
  }

  /** Accepts the texts of the grammar whose parts fit, and nothing else; `was` is what `addr` held. */
  method Aton(s: string, was: Address) returns (ok: bool, addr: Address)
    ensures ok <==> exists parts :: Spells(s, parts) && Fits(Values(parts))
    ensures ok ==> forall parts :: Spells(s, parts) ==>
              Fits(Values(parts)) && addr == NetworkOctets(Concocted(Values(parts)))
    ensures !ok ==> addr == was
  {
    ScanIsGrammar(s);
    addr := was;
    var vals, v;
    ok, vals := CollectParts(s);
    if ok {
      ok, v := Concoct(vals);
      if ok { addr := NetworkOctets(v); }
    }
  }
}
