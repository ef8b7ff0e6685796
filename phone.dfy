/** Phone-number normalisation applied whenever a representative's phone
    is stored. */
module Phone {

  /** `\d` without the `u` flag: an ASCII digit. */
  predicate IsDigit(c: char) {
    '0' <= c <= '9'
  }

  predicate AllDigits(s: string) {
    forall i :: 0 <= i < |s| ==> IsDigit(s[i])
  }

  /** `s.replace(/\D/g, '')`: the digits of `s`, in order. */
  function Digits(s: string): (r: string)
    ensures AllDigits(r) && |r| <= |s|
  {
    if s == [] then []
    else (if IsDigit(s[0]) then [s[0]] else []) + Digits(s[1..])
  }

  /** The dashed layout `ddd-dddd-dddd`. */
  predicate IsDashed(r: string) {
    |r| == 13 && r[3] == '-' && r[8] == '-' &&
    forall i :: 0 <= i < 13 && i != 3 && i != 8 ==> IsDigit(r[i])
  }

  lemma {:induction false} DigitsAppend(a: string, b: string)
    ensures Digits(a + b) == Digits(a) + Digits(b)
  {
    if a == [] {
      assert a + b == b;
    } else {
      assert (a + b)[0] == a[0] && (a + b)[1..] == a[1..] + b;
      DigitsAppend(a[1..], b);
    }
  }

  lemma {:induction false} DigitsOfDigits(s: string)
    requires AllDigits(s)
    ensures Digits(s) == s
  {
    if s != [] {
      DigitsOfDigits(s[1..]);
      assert s == [s[0]] + s[1..];
    }
  }

  /** The first eleven digits of `num` in the layout `ddd-dddd-dddd`. */
  function Dashed(num: string): string
    requires |num| >= 11
  {
    num[..3] + "-" + num[3..7] + "-" + num[7..11]
  }

  /** The dashed layout of eleven digits has the shape `IsDashed` and keeps
      exactly those digits. */
  lemma DashedKeepsDigits(num: string)
    requires AllDigits(num) && |num| >= 11
    ensures IsDashed(Dashed(num)) && Digits(Dashed(num)) == num[..11]
  {
    DigitsAppend(num[..3] + "-" + num[3..7] + "-", num[7..11]);
    DigitsAppend(num[..3] + "-" + num[3..7], "-");
    DigitsAppend(num[..3] + "-", num[3..7]);
    DigitsAppend(num[..3], "-");
    DigitsOfDigits(num[..3]);
    DigitsOfDigits(num[3..7]);
    DigitsOfDigits(num[7..11]);
    assert num[..11] == num[..3] + num[3..7] + num[7..11];
  }

  /** `_formatPhone`: the empty string stays empty; otherwise every
      non-digit is stripped, and with eleven or more digits the first
      eleven are laid out as `ddd-dddd-dddd` and the rest dropped. */
  function FormatPhone(phone: string): (r: string)
    ensures phone == "" ==> r == ""
    ensures var d := Digits(phone);
      Digits(r) == (if |d| >= 11 then d[..11] else d)
    ensures |Digits(phone)| >= 11 ==> IsDashed(r)
    ensures |Digits(phone)| < 11 ==> r == Digits(phone)
  {
    if phone == "" then ""
    else
      var num := Digits(phone);
      if |num| >= 11 then
        DashedKeepsDigits(num);
        Dashed(num)
      else
        DigitsOfDigits(num);
        num
  }

  /** Normalising an already-normalised phone changes nothing. */
  lemma FormatPhoneIdempotent(phone: string)
    ensures FormatPhone(FormatPhone(phone)) == FormatPhone(phone)
  {
    var r := FormatPhone(phone);
    var d := Digits(phone);
    if |d| >= 11 {
      assert Digits(r) == d[..11];
      assert r == Dashed(d);
      var e := d[..11];
      assert e[..3] == d[..3] && e[3..7] == d[3..7] && e[7..11] == d[7..11];
    } else {
      DigitsOfDigits(d);
    }
  }
}
