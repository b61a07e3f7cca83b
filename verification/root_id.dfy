/**
 * The root-id field (`setID`): the input keeps its digits only, the first
 * five of them are read as a decimal number, and a zero or missing number
 * empties the field and disables the start button.
 */
module RootId {
  import opened Options
  import opened Strings

  /** The field's state: empty with the button disabled, or an id with the button enabled. */
  datatype Root = Disabled | Id(n: nat)

  const MaxDigits: nat := 5

  /** The digits that are read: the first five of the input's digits. */
  function Kept(input: string): (d: string)
    ensures AllDigits(d) && |d| <= MaxDigits
    ensures var all := DigitsOnly(input); d == all[..if |all| < MaxDigits then |all| else MaxDigits]
  {
    var d := Substring(DigitsOnly(input), 0, MaxDigits);
    assert forall k :: 0 <= k < |d| ==> d[k] == DigitsOnly(input)[k];
    d
  }

  /** `setID`: strip non-digits, keep five, `parseInt`; a falsy result disables the button. */
  function SetId(input: string): Root {
    var p := ParseInt(Kept(input));
    if p.None? || p.value == 0 then Disabled else Id(p.value as nat)
  }

  /** `parseInt` of a string of digits is its value; of the empty string, `NaN`. */
  lemma ParseDigits(d: string)
    requires AllDigits(d)
    ensures |d| == 0 ==> ParseInt(d) == None
    ensures |d| > 0 ==> ParseInt(d) == Some(DigitsValue(d) as int)
  {
    if |d| > 0 {
      assert TrimStart(d) == d by {
        assert !IsSpace(d[0]);
      }
      assert Unsigned(d) == d by {
        assert IsDigit(d[0]);
      }
      LeadingAllDigits(d);
    }
  }

  lemma {:induction false} LeadingAllDigits(d: string)
    requires AllDigits(d)
    ensures LeadingDigits(d) == d
    decreases |d|
  {
    if |d| > 0 {
      LeadingAllDigits(d[1..]);
      assert d == [d[0]] + d[1..];
    }
  }

  /** A digit string is worth nothing exactly when every digit is '0'. */
  lemma {:induction false} ZeroValueZeros(d: string)
    requires AllDigits(d)
    ensures DigitsValue(d) == 0 <==> forall k :: 0 <= k < |d| ==> d[k] == '0'
    decreases |d|
  {
    if |d| > 0 {
      var init := d[..|d| - 1];
      ZeroValueZeros(init);
      forall k | 0 <= k < |init|
        ensures init[k] == d[k]
      {
      }
    }
  }

  /**
   * The field holds an id exactly when one of the five digits read is not
   * '0'; the id is their value, between 1 and 99999.
   */
  lemma SetIdMeaning(input: string)
    ensures var d := Kept(input);
      && (SetId(input).Id? <==> exists k :: 0 <= k < |d| && d[k] != '0')
      && (SetId(input).Id? ==> SetId(input).n == DigitsValue(d) && 1 <= SetId(input).n <= 99999)
  {
    var d := Kept(input);
    ParseDigits(d);
    ZeroValueZeros(d);
    DigitsBound(d);
    assert Pow10(|d|) <= Pow10(MaxDigits) by {
      PowMonotone(|d|, MaxDigits);
    }
    assert Pow10(MaxDigits) == 100000;
  }

  lemma {:induction false} PowMonotone(a: nat, b: nat)
    requires a <= b
    ensures Pow10(a) <= Pow10(b)
    decreases b
  {
    if a < b {
      PowMonotone(a, b - 1);
    }
  }

  /** Only the digits of the input matter. */
  lemma SetIdDigitsOnly(input: string)
    ensures SetId(DigitsOnly(input)) == SetId(input)
  {
    DigitsOnlyOfDigits(DigitsOnly(input));
  }

  /** Every id the field can hold is accepted back as typed: `SetId("" + n) == Id(n)` for n in 1..99999. */
  lemma SetIdRoundTrip(n: nat)
    requires 1 <= n <= 99999
    ensures SetId(Dec(n)) == Id(n)
  {
    DecShort(n);
    DigitsOnlyOfDigits(Dec(n));
    assert Kept(Dec(n)) == Dec(n);
    ParseDigits(Dec(n));
  }

  /** Numbers below 100000 have at most five digits. */
  lemma DecShort(n: nat)
    requires n < 100000
    ensures |Dec(n)| <= MaxDigits
  {
    assert Pow10(MaxDigits) == 100000;
    DecBelow(n, MaxDigits);
  }

  /** A number below 10^k is written with at most k digits. */
  lemma {:induction false} DecBelow(n: nat, k: nat)
    requires 1 <= k && n < Pow10(k)
    ensures |Dec(n)| <= k
    decreases k
  {
    if n >= 10 {
      assert Pow10(k) == 10 * Pow10(k - 1);
      DecBelow(n / 10, k - 1);
    }
  }

  /** Digits beyond the fifth are ignored: "1234567" selects 12345. */
  lemma SetIdFiveDigits()
    ensures SetId("1234567") == Id(12345)
  {
    DigitsOnlyOfDigits("1234567");
    assert Kept("1234567") == "12345";
    ParseDigits("12345");
    assert DigitsValue("12345") == 12345 by {
      assert "12"[..1] == "1";
      assert DigitsValue("12") == 12;
      assert "123"[..2] == "12";
      assert DigitsValue("123") == 123;
      assert "1234"[..3] == "123";
      assert DigitsValue("1234") == 1234;
      assert "12345"[..4] == "1234";
    }
  }

  /** Zeros and inputs without digits disable the button. */
  lemma SetIdDisabled()
    ensures SetId("000") == Disabled
    ensures SetId("id") == Disabled
  {
    DigitsOnlyOfDigits("000");
    ParseDigits("000");
    ZeroValueZeros("000");
    assert DigitsOnly("id") == "" by {
      assert "id"[1..] == "d" && "d"[1..] == "";
    }
    ParseDigits("");
  }
}
