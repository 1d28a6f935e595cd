/** Decimal rendering of integers as Go's `strconv.Itoa`, `%d` and `%03d`
    produce it, together with the parser (`strconv.Atoi` restricted to
    well-formed input) that each rendering round-trips through. */
module Decimal {

  import opened Prelude

  predicate IsDigit(c: char) {
    '0' <= c <= '9'
  }

  predicate AllDigits(s: string) {
    forall i :: 0 <= i < |s| ==> IsDigit(s[i])
  }

  function DigitValue(c: char): (d: nat)
    requires IsDigit(c)
    ensures d < 10
  {
    (c as int) - ('0' as int)
  }

  function DigitChar(d: nat): (c: char)
    requires d < 10
    ensures IsDigit(c) && DigitValue(c) == d
  {
    (('0' as int) + d) as char
  }

  /** A run of `k` zero characters, the padding `%03d` inserts. */
  function Zeros(k: nat): (s: string)
    ensures |s| == k && AllDigits(s)
    ensures forall i :: 0 <= i < k ==> s[i] == '0'
  {
    seq(k, _ => '0')
  }

  /** The shortest decimal form of `n`: digits only, no leading zero. */
  function NatToDec(n: nat): (s: string)
    ensures 1 <= |s| && AllDigits(s)
    ensures n == 0 ==> s == "0"
    ensures n > 0 ==> s[0] != '0'
    ensures n < 10 <==> |s| == 1
    decreases n
  {
    if n < 10 then [DigitChar(n)] else NatToDec(n / 10) + [DigitChar(n % 10)]
  }

  /** The value of a string of digits, leading zeros allowed. */
  function ParseNat(s: string): nat
    requires AllDigits(s)
  {
    if |s| == 0 then 0 else 10 * ParseNat(s[..|s| - 1]) + DigitValue(s[|s| - 1])
  }

  lemma {:induction false} ParseNatOfNatToDec(n: nat)
    ensures ParseNat(NatToDec(n)) == n
    decreases n
  {
    if n >= 10 {
      var a := NatToDec(n / 10);
      var s := a + [DigitChar(n % 10)];
      assert s[..|s| - 1] == a;
      ParseNatOfNatToDec(n / 10);
    }
  }

  /** Distinct numbers have distinct renderings. */
  lemma NatToDecInjective(m: nat, n: nat)
    ensures NatToDec(m) == NatToDec(n) ==> m == n
  {
    ParseNatOfNatToDec(m);
    ParseNatOfNatToDec(n);
  }

  lemma {:induction false} ParseNatOfZeros(k: nat)
    ensures ParseNat(Zeros(k)) == 0
  {
    if k > 0 {
      assert Zeros(k)[..k - 1] == Zeros(k - 1);
      ParseNatOfZeros(k - 1);
    }
  }

  /** Leading zeros do not change the value. */
  lemma {:induction false} ParseNatLeadingZeros(k: nat, s: string)
    requires AllDigits(s)
    ensures AllDigits(Zeros(k) + s)
    ensures ParseNat(Zeros(k) + s) == ParseNat(s)
    decreases |s|
  {
    var z := Zeros(k) + s;
    if |s| == 0 {
      assert z == Zeros(k);
      ParseNatOfZeros(k);
    } else {
      assert z[..|z| - 1] == Zeros(k) + s[..|s| - 1];
      ParseNatLeadingZeros(k, s[..|s| - 1]);
    }
  }

  /** `strconv.Itoa(i)` and `fmt.Sprintf("%d", i)`. */
  function IntToDec(i: int): (s: string)
    ensures 1 <= |s|
    ensures i < 0 <==> s[0] == '-'
    ensures forall k :: 1 <= k < |s| ==> IsDigit(s[k])
  {
    if i < 0 then "-" + NatToDec(-i) else NatToDec(i)
  }

  /** `strconv.Atoi` on its well-formed inputs: an optional sign followed by
      at least one digit; anything else is `None`. */
  function ParseInt(s: string): Option<int> {
    if 2 <= |s| && (s[0] == '-' || s[0] == '+') && AllDigits(s[1..]) then
      var v: int := if s[0] == '-' then 0 - ParseNat(s[1..]) else ParseNat(s[1..]);
      Some(v)
    else if 1 <= |s| && AllDigits(s) then
      Some(ParseNat(s))
    else
      None
  }

  lemma ParseIntOfIntToDec(i: int)
    ensures ParseInt(IntToDec(i)) == Some(i)
  {
    if i < 0 {
      assert IntToDec(i)[1..] == NatToDec(-i);
      ParseNatOfNatToDec(-i);
    } else {
      ParseNatOfNatToDec(i);
    }
  }

  /** Left-pads a digit string with zeros to `width` characters. */
  function ZeroPad(s: string, width: nat): (r: string)
    ensures |r| >= width && |r| >= |s|
  {
    if |s| >= width then s else Zeros(width - |s|) + s
  }

  /** `fmt.Sprintf("%03d", i)`: the sign counts towards the width of three,
      and the zeros go between the sign and the digits. */
  function Pad3(i: int): (s: string)
    ensures |s| >= 3
  {
    if i < 0 then "-" + ZeroPad(NatToDec(-i), 2) else ZeroPad(NatToDec(i), 3)
  }

  /** The padded form still reads back as the number it renders, and a
      room number from 0 to 999 always takes exactly three digits. */
  lemma Pad3RoundTrip(i: int)
    ensures ParseInt(Pad3(i)) == Some(i)
    ensures 0 <= i <= 999 ==> |Pad3(i)| == 3 && AllDigits(Pad3(i))
  {
    if i < 0 {
      Pad3Negative(i);
    } else {
      Pad3NonNegative(i);
    }
  }

  lemma Pad3Negative(i: int)
    requires i < 0
    ensures ParseInt(Pad3(i)) == Some(i)
  {
    var n: nat := -i;
    var p := ZeroPad(NatToDec(n), 2);
    PadParsesBack(NatToDec(n), 2);
    ParseNatOfNatToDec(n);
    var s := "-" + p;
    assert Pad3(i) == s;
    assert s[1..] == p;
    ParseIntOfSigned(s);
  }

  /** `Atoi` of a minus sign followed by digits. */
  lemma ParseIntOfSigned(s: string)
    requires 2 <= |s| && s[0] == '-' && AllDigits(s[1..])
    ensures ParseInt(s) == Some(0 - ParseNat(s[1..]))
  {
  }

  lemma Pad3NonNegative(i: nat)
    ensures ParseInt(Pad3(i)) == Some(i)
    ensures i <= 999 ==> |Pad3(i)| == 3 && AllDigits(Pad3(i))
  {
    var s := Pad3(i);
    PadParsesBack(NatToDec(i), 3);
    ParseNatOfNatToDec(i);
    NatToDecBelow1000(i);
    assert AllDigits(s) && ParseNat(s) == i;
    assert IsDigit(s[0]);
  }

  lemma PadParsesBack(s: string, width: nat)
    requires AllDigits(s)
    ensures AllDigits(ZeroPad(s, width))
    ensures ParseNat(ZeroPad(s, width)) == ParseNat(s)
  {
    if |s| < width {
      ParseNatLeadingZeros(width - |s|, s);
    }
  }

  lemma NatToDecBelow1000(n: nat)
    ensures n <= 999 ==> |NatToDec(n)| <= 3
  {
    if 10 <= n <= 999 {
      assert n / 10 < 100;
      if n / 10 >= 10 {
        assert |NatToDec(n / 10 / 10)| == 1;
      }
    }
  }
}
