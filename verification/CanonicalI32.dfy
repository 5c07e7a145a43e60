/** Which texts are the decimal form of a 32-bit integer. */
module CanonicalI32 {
  import opened Wrappers

  predicate IsDigit(c: char) {
    '0' <= c <= '9'
  }

  function DigitsValue(s: string): Option<nat> {
    if s == "" then Some(0)
    else
      var n := |s| - 1;
      var init := DigitsValue(s[..n]);
      if init.None? || !IsDigit(s[n]) then None else Some(10 * init.value + (s[n] as int - '0' as int))
  }

  /** Signed decimal with an optional sign and at least one digit, in the i32 range. */
  function ParseI32(s: string): Option<int> {
    var signed := s != "" && (s[0] == '+' || s[0] == '-');
    var digits := if signed then s[1..] else s;
    if digits == "" then None
    else
      match DigitsValue(digits)
      case None => None
      case Some(n) =>
        var v := if signed && s[0] == '-' then 0 - n else n;
        if -0x8000_0000 <= v < 0x8000_0000 then Some(v) else None
  }

  function ShowNat(n: nat): string {
    var d := ('0' as int + n % 10) as char;
    if n < 10 then [d] else ShowNat(n / 10) + [d]
  }

  function Show(v: int): string {
    if v < 0 then "-" + ShowNat(-v) else ShowNat(v)
  }

  predicate IsCanonicalI32(s: string) {
    var v := ParseI32(s);
    v.Some? && Show(v.value) == s
  }

  lemma {:induction false} ShownDigits(n: nat)
    ensures DigitsValue(ShowNat(n)) == Some(n) && ShowNat(n) != "" && IsDigit(ShowNat(n)[0])
  {
    var s := ShowNat(n);
    if n >= 10 {
      ShownDigits(n / 10);
      assert s[..|s| - 1] == ShowNat(n / 10);
    } else {
      assert s[..0] == "";
    }
  }

  /** The inlined integers are exactly the decimal forms of the 32-bit values: no sign, zero or
      plus variants. */
  lemma CanonicalIsShown(s: string)
    ensures IsCanonicalI32(s) <==> exists v :: -0x8000_0000 <= v < 0x8000_0000 && Show(v) == s
  {
    forall v | -0x8000_0000 <= v < 0x8000_0000 && Show(v) == s ensures IsCanonicalI32(s) {
      ShownDigits(if v < 0 then -v else v);
      if v < 0 {
        assert s[1..] == ShowNat(-v);
      }
    }
  }

  function Pow10(k: nat): nat {
    if k == 0 then 1 else 10 * Pow10(k - 1)
  }

  ghost predicate AllDigits(s: string) {
    forall k :: 0 <= k < |s| ==> '0' <= s[k] <= '9'
  }

  /** The number a string of decimal digits stands for, by the place of each digit. */
  ghost function Decimal(s: string): nat
    requires AllDigits(s)
  {
    if s == "" then 0 else (s[0] as int - '0' as int) * Pow10(|s| - 1) + Decimal(s[1..])
  }

  /** The decimal form of a 32-bit value: a zero, or digits without a leading zero and perhaps a
      minus sign in front, in range. */
  ghost predicate DecimalI32(s: string) {
    var negative := s != "" && s[0] == '-';
    var digits := if negative then s[1..] else s;
    && digits != "" && AllDigits(digits)
    && (digits[0] == '0' ==> s == "0")
    && Decimal(digits) <= if negative then 0x8000_0000 else 0x7FFF_FFFF
  }

  lemma {:induction false} DecimalSnoc(s: string, c: char)
    requires AllDigits(s) && '0' <= c <= '9'
    ensures AllDigits(s + [c]) && Decimal(s + [c]) == 10 * Decimal(s) + (c as int - '0' as int)
    decreases |s|
  {
    var t := s + [c];
    if s == "" {
      assert t[1..] == "";
      assert Decimal("") == 0 && Pow10(0) == 1;
    } else {
      DecimalSnoc(s[1..], c);
      assert t[1..] == s[1..] + [c];
      var d, p := s[0] as int - '0' as int, Pow10(|s| - 1);
      assert Pow10(|t| - 1) == 10 * p;
      assert Decimal(t) == d * (10 * p) + Decimal(s[1..] + [c]);
      hide Decimal;
      hide Pow10;
      TenTimes(d, p);
    }
  }

  lemma TenTimes(d: int, p: nat)
    ensures d * (10 * p) == 10 * (d * p)
  {
  }

  lemma {:induction false} DigitsAreDecimal(s: string)
    ensures DigitsValue(s).Some? <==> AllDigits(s)
    ensures AllDigits(s) ==> DigitsValue(s) == Some(Decimal(s))
    decreases |s|
  {
    if s != "" {
      var n := |s| - 1;
      DigitsAreDecimal(s[..n]);
      assert s == s[..n] + [s[n]];
      if AllDigits(s) {
        DecimalSnoc(s[..n], s[n]);
      }
    }
  }

  /** Digits without a leading zero are the only way to show their value. */
  lemma {:induction false} ShowNatIff(s: string, n: nat)
    ensures s == ShowNat(n) <==>
              s != "" && AllDigits(s) && Decimal(s) == n && (s[0] == '0' ==> s == "0")
    decreases |s|
  {
    ShownDigits(n);
    DigitsAreDecimal(ShowNat(n));
    if s != "" && AllDigits(s) {
      var init, c := s[..|s| - 1], s[|s| - 1];
      assert s == init + [c];
      DecimalSnoc(init, c);
      if init == "" {
        OneDigit(c, n);
      } else {
        ShowNatIff(init, n / 10);
        LastDigit(init, c, n);
        if init[0] != '0' {
          NoLeadingZero(init);
        }
      }
    }
  }

  lemma OneDigit(c: char, n: nat)
    requires '0' <= c <= '9'
    ensures [c] == ShowNat(n) <==> n == c as int - '0' as int
    ensures AllDigits("") && Decimal("") == 0
  {
    if n >= 10 {
      ShownDigits(n / 10);
      assert |ShowNat(n)| >= 2;
    }
  }

  lemma LastDigit(init: string, c: char, n: nat)
    requires init != "" && '0' <= c <= '9'
    ensures init + [c] == ShowNat(n) <==> n >= 10 && init == ShowNat(n / 10) && c as int - '0' as int == n % 10
  {
    var s := init + [c];
    if n >= 10 {
      var d := ('0' as int + n % 10) as char;
      assert ShowNat(n) == ShowNat(n / 10) + [d];
      if s == ShowNat(n) {
        assert s[..|s| - 1] == ShowNat(n / 10) && s[|s| - 1] == d;
      }
    }
  }

  lemma NoLeadingZero(s: string)
    requires s != "" && AllDigits(s) && s[0] != '0'
    ensures Decimal(s) >= 1
  {
    PositivePower(|s| - 1);
    var d, p := s[0] as int - '0' as int, Pow10(|s| - 1);
    assert d * p >= p;
  }

  lemma {:induction false} PositivePower(k: nat)
    ensures Pow10(k) >= 1
    decreases k
  {
    if k > 0 {
      PositivePower(k - 1);
    }
  }

  /** The scanner's test, which parses and prints again, accepts exactly the decimal forms. */
  lemma CanonicalIsDecimal(s: string)
    ensures IsCanonicalI32(s) <==> DecimalI32(s)
  {
    CanonicalIsShown(s);
    hide IsCanonicalI32;
    hide ShowNat;
    hide Decimal;
    if v :| -0x8000_0000 <= v < 0x8000_0000 && Show(v) == s {
      var digits := ShowNat(if v < 0 then -v else v);
      ShowNatIff(digits, if v < 0 then -v else v);
      DecimalZero();
      if v < 0 {
        assert s[1..] == digits;
      }
    }
    if DecimalI32(s) {
      var negative := s[0] == '-';
      var digits := if negative then s[1..] else s;
      DecimalZero();
      ShowNatIff(digits, Decimal(digits));
      if negative {
        NoLeadingZero(digits);
        assert s == "-" + digits;
        var v: int := 0 - Decimal(digits);
        assert Show(v) == s;
      } else {
        assert Show(Decimal(digits)) == s;
      }
    }
  }

  lemma DecimalZero()
    ensures Decimal("0") == 0
  {
    assert "0"[1..] == "";
  }
}
