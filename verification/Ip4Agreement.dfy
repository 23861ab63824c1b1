/** Off the canonical form: when ip4addr_aton and ipstr_to_u32 read the same address from four decimal fields. */
module Ip4Agreement {
  import opened Common
  import opened Ip4Text
  import opened Ip4Aton
  import opened Ip4Codecs

  predicate AllZero(t: string) { forall k :: 0 <= k < |t| ==> t[k] == '0' }

  lemma {:induction false} ZeroNumeral(t: string, base: nat)
    requires AllDigits(t) && base > 0
    ensures Numeral(t, base) == 0 <==> AllZero(t)
  {
    if t != [] {
      var init, c := t[..|t| - 1], t[|t| - 1];
      ZeroNumeral(init, base);
      assert IsDigit(c);
      assert Numeral(t, base) == 0 <==> Numeral(init, base) == 0 && DigitValue(c) == 0;
      assert t == init + [c];
    }
  }

  lemma {:induction false} OctalAtMostDecimal(t: string)
    requires AllDigits(t)
    ensures Numeral(t, 8) <= Numeral(t, 10)
  {
    if t != [] {
      OctalAtMostDecimal(t[..|t| - 1]);
    }
  }

  /** Digits mean the same in both bases exactly if all but the last are 0. */
  lemma OctalIsDecimal(t: string)
    requires t != [] && AllDigits(t)
    ensures Numeral(t, 8) == Numeral(t, 10) <==> AllZero(t[..|t| - 1])
  {
    var init := t[..|t| - 1];
    OctalAtMostDecimal(init);
    ZeroNumeral(init, 8);
    ZeroNumeral(init, 10);
  }

  lemma LastDigit(t: string, base: nat)
    requires t != [] && AllDigits(t)
    ensures AllDigits(t[..|t| - 1]) && 0 <= DigitValue(t[|t| - 1]) <= 9
    ensures Numeral(t, base) == Numeral(t[..|t| - 1], base) * base + DigitValue(t[|t| - 1])
  {
  }

  /** Below 8 in octal there is one digit behind zeros at most. */
  lemma OneDigit(t: string)
    requires AllDigits(t) && Numeral(t, 8) < 8
    ensures Numeral(t, 10) == Numeral(t, 8)
  {
    if t != [] {
      LastDigit(t, 8);
      LastDigit(t, 10);
      ZeroNumeral(t[..|t| - 1], 8);
      ZeroNumeral(t[..|t| - 1], 10);
    }
  }

  /** An octal value in an octet is less than 256 below the decimal one. */
  lemma OctalOctet(t: string)
    requires AllDigits(t) && Numeral(t, 8) <= 0xff
    ensures Numeral(t, 8) <= Numeral(t, 10) < Numeral(t, 8) + 0x100
  {
    hide Numeral, DigitValue, AllDigits, IsDigit;
    OctalAtMostDecimal(t);
    if t == [] {
      ZeroNumeral(t, 10);
    } else {
      var u := t[..|t| - 1];
      LastDigit(t, 8);
      LastDigit(t, 10);
      if u == [] {
        ZeroNumeral(u, 8);
        ZeroNumeral(u, 10);
      } else {
        LastDigit(u, 8);
        LastDigit(u, 10);
        OneDigit(u[..|u| - 1]);
      }
    }
  }

  /** A leading zero adds nothing. */
  lemma {:induction false} LeadingZero(t: string, base: nat)
    requires t != [] && t[0] == '0'
    ensures Numeral(t[1..], base) == Numeral(t, base)
  {
    if |t| == 1 {
      assert t[..0] == [];
    } else {
      LeadingZero(t[..|t| - 1], base);
      assert t[1..][..|t| - 2] == t[..|t| - 1][1..];
    }
  }

  function Pow10(k: nat): (p: nat)
    ensures p > 0
  {
    if k == 0 then 1 else 10 * Pow10(k - 1)
  }

  lemma {:induction false} NumeralBound(t: string)
    requires AllDigits(t)
    ensures Numeral(t, 10) < Pow10(|t|)
  {
    if t != [] {
      NumeralBound(t[..|t| - 1]);
    }
  }

  lemma {:induction false} Pow10Grows(k: nat, m: nat)
    requires k <= m
    ensures Pow10(k) <= Pow10(m)
  {
    if k < m {
      Pow10Grows(k, m - 1);
    }
  }

  lemma NineDigits(t: string)
    requires AllDigits(t) && |t| <= 9
    ensures Numeral(t, 10) < TWO32
  {
    NumeralBound(t);
    Pow10Grows(|t|, 9);
    assert Pow10(3) == 1000;
    assert Pow10(6) == 1000_000;
    assert Pow10(9) == 1000_000_000;
  }

  // ---------------------------------------------------------------- one field

  predicate IsField(f: string) { f != [] && forall k :: 0 <= k < |f| ==> IsDigit(f[k]) }

  /** The value is an octet, and a leading zero does not make another number of it. */
  predicate Unambiguous(f: string)
    requires f != []
  {
    Numeral(f, 10) <= 0xff && (f[0] == '0' ==> AllZero(f[..|f| - 1]))
  }

  lemma DecimalField(f: string)
    requires IsField(f) && |f| <= 9
    ensures f[0] != '0' ==> NumberValue(f) == Numeral(f, 10)
    ensures f[0] == '0' ==> NumberValue(f) == Numeral(f, 8)
    ensures IsNumber(f)
  {
    hide Numeral;
    NineDigits(f);
    OctalAtMostDecimal(f);
    assert |f| > 1 ==> IsDigit(f[1]);
    if f[0] == '0' {
      LeadingZero(f, 8);
    }
  }

  /** Both parsers take a field for the same octet exactly if it is unambiguous. */
  lemma FieldAgrees(f: string)
    requires IsField(f) && |f| <= 9
    ensures NumberValue(f) <= 0xff && NumberValue(f) == FieldValue(f) <==> Unambiguous(f)
  {
    hide Numeral, NumberValue, AllZero;
    DecimalField(f);
    OctalIsDecimal(f);
    if f[0] == '0' && Numeral(f, 8) <= 0xff {
      OctalOctet(f);
    }
  }

  // ---------------------------------------------------------------- four fields

  ghost predicate FourFields(f: seq<string>) {
    |f| == 4 && (forall i {:trigger f[i]} :: 0 <= i < 4 ==> IsField(f[i])) && |Join(f)| <= 15
  }

  lemma FieldsAreShort(f: seq<string>)
    requires FourFields(f)
    ensures Fields(f) && forall i {:trigger f[i]} :: 0 <= i < 4 ==> |f[i]| <= 9
  {
    JoinFour(f);
    assert IsField(f[0]) && IsField(f[1]) && IsField(f[2]) && IsField(f[3]);
  }

  lemma FieldsSpelled(f: seq<string>)
    requires FourFields(f)
    ensures Spells(Join(f), f)
    ensures Values(f) == [NumberValue(f[0]), NumberValue(f[1]), NumberValue(f[2]), NumberValue(f[3])]
    ensures Fits(Values(f)) <==> forall i :: 0 <= i < 4 ==> NumberValue(f[i]) <= 0xff
  {
    hide NumberValue, Join, IsNumber;
    FieldsAreShort(f);
    DecimalField(f[0]); DecimalField(f[1]); DecimalField(f[2]); DecimalField(f[3]);
  }

  lemma FieldsRead(f: seq<string>)
    requires FourFields(f) && Fits(Values(f))
    ensures NetworkOctets(Concocted(Values(f))) == Values(f)
  {
    hide NumberValue, Join, IsNumber, Spells;
    FieldsSpelled(f);
    OctetsOfNumber([NumberValue(f[0]), NumberValue(f[1]), NumberValue(f[2]), NumberValue(f[3])]);
  }

  /**
   * Both parsers on four decimal fields, within the 15 characters that one of them looks at: both accept
   * and give the same octets if and only if every field is unambiguous.
   */
  method BothParsers(f: seq<string>) returns (ok: bool, a: Address, ret: int, q: array<Octet>)
    requires FourFields(f)
    ensures q.Length == 4 && ret == 0
    ensures ok <==> forall i :: 0 <= i < 4 ==> NumberValue(f[i]) <= 0xff
    ensures ok ==> a == Values(f)
    ensures forall i :: 0 <= i < 4 ==> q[i] == FieldValue(f[i])
    ensures ok && a == q[..] <==> forall i :: 0 <= i < 4 ==> Unambiguous(f[i])
  {
    hide NumberValue, FieldValue, FieldOctets, Join, Spells, Values, Unambiguous, DigitsAndDots, IsField;
    hide Fits, Concocted;
    FieldsAreShort(f);
    FieldsSpelled(f);
    CharsFour(f);
    OctetsOfFields(f);
    FieldAgrees(f[0]); FieldAgrees(f[1]); FieldAgrees(f[2]); FieldAgrees(f[3]);
    ok, a := Aton(Join(f), [0, 0, 0, 0]);
    if ok {
      FieldsRead(f);
    }
    q := new Octet[4](_ => 0);
    ret := IpstrToU32(Join(f), q);
  }

  /** A leading zero means octal to ip4addr_aton only. */
  method LeadingZeroDisagrees() returns (a: Address, q: array<Octet>)
    ensures a == [8, 0, 0, 1] && q[..] == [10, 0, 0, 1]
  {
    hide *;
    var f := ["010", "0", "0", "1"];
    ExampleFields(f);
    var ok, ret;
    ok, a, ret, q := BothParsers(f);
    assert q[0] == 10 && q[1] == 0 && q[2] == 0 && q[3] == 1;
  }

  lemma ExampleFields(f: seq<string>)
    requires f == ["010", "0", "0", "1"]
    ensures FourFields(f) && Values(f) == [8, 0, 0, 1]
    ensures NumberValue(f[0]) == 8 && NumberValue(f[1]) == NumberValue(f[2]) == 0 && NumberValue(f[3]) == 1
    ensures FieldValue(f[0]) == 10 && FieldValue(f[1]) == FieldValue(f[2]) == 0 && FieldValue(f[3]) == 1
  {
    ExampleNumerals();
    JoinFour(f);
    hide Numeral, Join;
    assert DigitsOf("010") == "10" && DigitsOf("0") == "" && DigitsOf("1") == "1";
  }

  lemma ExampleNumerals()
    ensures Numeral("10", 8) == 8 && Numeral("", 8) == 0 && Numeral("1", 10) == 1
    ensures Numeral("010", 10) == 10 && Numeral("0", 10) == 0
  {
    assert "10"[..1] == "1" && "1"[..0] == "" && "0"[..0] == "" && "01"[..1] == "0" && "010"[..2] == "01";
    assert Numeral("1", 8) == 1;
    assert Numeral("0", 10) == 0;
    assert Numeral("01", 10) == 1;
  }
}
