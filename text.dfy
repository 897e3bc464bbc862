/**
 * The handful of PHP string primitives the ledger relies on: integer to
 * string conversion, str_repeat, str_pad, substr from position 0, ucfirst
 * and number_format with two decimals (over integer cents).
 */
module Text {

  predicate IsDigit(c: char) { '0' <= c <= '9' }

  predicate AllDigits(s: string) { forall i :: 0 <= i < |s| ==> IsDigit(s[i]) }

  /** The value of a decimal digit; any other character counts as 0. */
  function DigitValue(c: char): nat
  {
    if IsDigit(c) then (c as int) - ('0' as int) else 0
  }

  function DigitChar(d: nat): (c: char)
    requires d < 10
    ensures IsDigit(c) && DigitValue(c) == d
  {
    (('0' as int) + d) as char
  }

  /** PHP's string form of a non-negative integer: decimal digits, no leading zero. */
  function NatToString(n: nat): (s: string)
    ensures 1 <= |s| && AllDigits(s)
    ensures s[0] == '0' ==> n == 0
  {
    if n < 10 then [DigitChar(n)] else NatToString(n / 10) + [DigitChar(n % 10)]
  }

  /** Reads a string of decimal digits back as a number. */
  function ParseDigits(s: string): nat
  {
    if s == [] then 0 else ParseDigits(s[..|s| - 1]) * 10 + DigitValue(s[|s| - 1])
  }

  lemma {:induction false} ParseNatToString(n: nat)
    ensures ParseDigits(NatToString(n)) == n
  {
    if n >= 10 {
      var s := NatToString(n);
      assert s[..|s| - 1] == NatToString(n / 10);
      ParseNatToString(n / 10);
    } else {
      assert NatToString(n)[..0] == [];
    }
  }

  /** Distinct numbers render as distinct strings. */
  lemma NatToStringInjective(a: nat, b: nat)
    ensures NatToString(a) == NatToString(b) ==> a == b
  {
    ParseNatToString(a);
    ParseNatToString(b);
  }

  function Pow10(k: nat): (p: nat)
    ensures p >= 1
  {
    if k == 0 then 1 else 10 * Pow10(k - 1)
  }

  /** A number has at most k digits exactly when it is below 10^k. */
  lemma {:induction false} NatToStringLength(n: nat, k: nat)
    requires k >= 1
    ensures |NatToString(n)| <= k <==> n < Pow10(k)
  {
    if n >= 10 {
      assert |NatToString(n)| == |NatToString(n / 10)| + 1;
      if k > 1 {
        NatToStringLength(n / 10, k - 1);
        assert n / 10 < Pow10(k - 1) <==> n < 10 * Pow10(k - 1);
      }
    }
  }

  /** PHP's str_repeat(c, k). */
  function Repeat(c: char, k: nat): (r: string)
    ensures |r| == k
    ensures forall i :: 0 <= i < k ==> r[i] == c
  {
    if k == 0 then [] else [c] + Repeat(c, k - 1)
  }

  /** PHP's str_pad(s, width, c, STR_PAD_LEFT): pads on the left, never truncates. */
  function PadLeft(s: string, width: nat, c: char): (r: string)
    ensures |r| == if |s| >= width then |s| else width
    ensures r[|r| - |s|..] == s
    ensures forall i :: 0 <= i < |r| - |s| ==> r[i] == c
  {
    if |s| >= width then s else Repeat(c, width - |s|) + s
  }

  lemma {:induction false} ParseZeros(k: nat)
    ensures ParseDigits(Repeat('0', k)) == 0
  {
    if k > 0 {
      var z := Repeat('0', k);
      assert z[..k - 1] == Repeat('0', k - 1);
      ParseZeros(k - 1);
    }
  }

  /** Leading zeros do not change the value read back. */
  lemma {:induction false} ParseIgnoresLeadingZeros(k: nat, s: string)
    ensures ParseDigits(Repeat('0', k) + s) == ParseDigits(s)
    decreases |s|
  {
    var z := Repeat('0', k);
    if s == [] {
      assert z + s == z;
      ParseZeros(k);
    } else {
      assert (z + s)[..|z + s| - 1] == z + s[..|s| - 1];
      ParseIgnoresLeadingZeros(k, s[..|s| - 1]);
    }
  }

  /** PHP's substr(s, 0, length); a negative length drops characters from the end. */
  function Substr0(s: string, length: int): (r: string)
    ensures r <= s
    ensures length >= 0 ==> |r| == if length <= |s| then length else |s|
    ensures length < 0 ==> |r| == if |s| + length >= 0 then |s| + length else 0
  {
    if length >= 0 then
      (if length <= |s| then s[..length] else s)
    else
      (if |s| + length >= 0 then s[..|s| + length] else [])
  }

  /**
   * The mining test as written, substr(s, 0, d) === str_repeat('0', d): it
   * holds exactly when s has at least d characters and the first d are '0'.
   */
  function HasLeadingZeros(s: string, d: nat): (r: bool)
    ensures r <==> d <= |s| && forall i :: 0 <= i < d ==> s[i] == '0'
  {
    ZeroPrefixIff(s, d);
    Substr0(s, d) == Repeat('0', d)
  }

  /** substr(s, 0, d) is d zeros exactly when s has at least d characters and the first d are '0'. */
  lemma ZeroPrefixIff(s: string, d: nat)
    ensures Substr0(s, d) == Repeat('0', d) <==> d <= |s| && forall i :: 0 <= i < d ==> s[i] == '0'
  {
    if d <= |s| && forall i :: 0 <= i < d ==> s[i] == '0' {
      assert Substr0(s, d) == Repeat('0', d);
    }
  }

  function ToUpper(c: char): char
  {
    if 'a' <= c <= 'z' then ((c as int) - 32) as char else c
  }

  /** PHP's ucfirst: upper-cases the first character only. */
  function UcFirst(s: string): (r: string)
    ensures |r| == |s|
    ensures s != [] ==> r[0] == ToUpper(s[0]) && r[1..] == s[1..]
  {
    if s == [] then [] else [ToUpper(s[0])] + s[1..]
  }

  /** Inserts a comma before every group of three digits, counted from the right. */
  function GroupThousands(ds: string): string
    decreases |ds|
  {
    if |ds| <= 3 then ds else GroupThousands(ds[..|ds| - 3]) + "," + ds[|ds| - 3..]
  }

  /** One to three digits, then zero or more groups of a comma and exactly three digits. */
  predicate Grouped(s: string)
    decreases |s|
  {
    if |s| <= 3 then 1 <= |s| && AllDigits(s)
    else s[|s| - 4] == ',' && AllDigits(s[|s| - 3..]) && Grouped(s[..|s| - 4])
  }

  function RemoveCommas(s: string): string
  {
    if s == [] then [] else (if s[0] == ',' then [] else [s[0]]) + RemoveCommas(s[1..])
  }

  lemma {:induction false} RemoveCommasAppend(a: string, b: string)
    ensures RemoveCommas(a + b) == RemoveCommas(a) + RemoveCommas(b)
  {
    if a != [] {
      assert (a + b)[1..] == a[1..] + b;
      RemoveCommasAppend(a[1..], b);
    } else {
      assert a + b == b;
    }
  }

  lemma {:induction false} RemoveCommasDigits(s: string)
    requires AllDigits(s)
    ensures RemoveCommas(s) == s
  {
    if s != [] {
      RemoveCommasDigits(s[1..]);
    }
  }

  /** A well-formed grouping followed by a comma and three digits is well-formed. */
  lemma GroupedJoin(g: string, tail: string)
    requires Grouped(g) && |tail| == 3 && AllDigits(tail)
    ensures Grouped(g + "," + tail)
  {
    var r := g + "," + tail;
    assert r[..|r| - 4] == g;
    assert r[|r| - 3..] == tail;
  }

  /** Removing the commas of a grouping joined to three digits keeps those digits. */
  lemma RemoveCommasJoin(g: string, tail: string)
    requires AllDigits(tail)
    ensures RemoveCommas(g + "," + tail) == RemoveCommas(g) + tail
  {
    assert RemoveCommas(",") == [] by {
      assert ","[1..] == [];
    }
    calc {
      RemoveCommas(g + "," + tail);
      { RemoveCommasAppend(g + ",", tail); }
      RemoveCommas(g + ",") + RemoveCommas(tail);
      { RemoveCommasAppend(g, ","); RemoveCommasDigits(tail); }
      RemoveCommas(g) + [] + tail;
      { assert RemoveCommas(g) + [] == RemoveCommas(g); }
      RemoveCommas(g) + tail;
    }
  }

  /** Grouping keeps the digits (only commas are added) and yields well-formed groups. */
  lemma {:induction false} GroupThousandsShape(ds: string)
    requires 1 <= |ds| && AllDigits(ds)
    ensures Grouped(GroupThousands(ds))
    ensures RemoveCommas(GroupThousands(ds)) == ds
    ensures GroupThousands(ds)[0] == ds[0]
    decreases |ds|
  {
    if |ds| <= 3 {
      RemoveCommasDigits(ds);
    } else {
      var head, tail := ds[..|ds| - 3], ds[|ds| - 3..];
      GroupThousandsShape(head);
      var g := GroupThousands(head);
      assert GroupThousands(ds) == g + "," + tail;
      GroupedJoin(g, tail);
      RemoveCommasJoin(g, tail);
      assert ds == head + tail;
    }
  }

  function TwoDigits(k: nat): (r: string)
    requires k < 100
  {
    [DigitChar(k / 10), DigitChar(k % 10)]
  }

  lemma TwoDigitsValue(k: nat)
    requires k < 100
    ensures ParseDigits(TwoDigits(k)) == k
  {
    var t := TwoDigits(k);
    var hi := [DigitChar(k / 10)];
    assert t[..1] == hi && hi[..0] == [];
    assert ParseDigits(hi) == k / 10;
  }

  /** number_format of a non-negative amount: grouped whole part, '.', two decimals. */
  function UnsignedAmount(a: nat): string
  {
    GroupThousands(NatToString(a / 100)) + "." + TwoDigits(a % 100)
  }

  /** PHP's number_format(cents / 100, 2): grouped whole part, '.', exactly two decimals. */
  function FormatCents(c: int): (r: string)
    ensures |r| >= 4 && r[|r| - 3] == '.' && AllDigits(r[|r| - 2..])
  {
    if c < 0 then "-" + UnsignedAmount(-c) else UnsignedAmount(c)
  }

  /** Reads a number_format string back into cents. */
  function ParseCents(s: string): int
  {
    if |s| > 0 && s[0] == '-' then -(ParseUnsignedCents(s[1..]) as int) else ParseUnsignedCents(s)
  }

  function ParseUnsignedCents(s: string): nat
  {
    if |s| < 3 then 0 else ParseDigits(RemoveCommas(s[..|s| - 3])) * 100 + ParseDigits(s[|s| - 2..])
  }

  lemma UnsignedAmountRoundTrip(a: nat)
    ensures Grouped(UnsignedAmount(a)[..|UnsignedAmount(a)| - 3])
    ensures IsDigit(UnsignedAmount(a)[0])
    ensures ParseUnsignedCents(UnsignedAmount(a)) == a
  {
    var ds := NatToString(a / 100);
    GroupThousandsShape(ds);
    ParseNatToString(a / 100);
    TwoDigitsValue(a % 100);
    var g := GroupThousands(ds);
    var u := UnsignedAmount(a);
    assert u[..|u| - 3] == g;
    assert u[|u| - 2..] == TwoDigits(a % 100);
    assert u[0] == g[0];
  }

  /** The formatted amount has a well-grouped whole part and reads back as the same number of cents. */
  lemma {:induction false} FormatCentsRoundTrip(c: int)
    ensures Grouped(FormatCents(c)[if c < 0 then 1 else 0..|FormatCents(c)| - 3])
    ensures ParseCents(FormatCents(c)) == c
  {
    var r := FormatCents(c);
    if c < 0 {
      var u := UnsignedAmount(-c);
      UnsignedAmountRoundTrip(-c);
      assert r == "-" + u;
      assert r[1..] == u;
      assert r[1..|r| - 3] == u[..|u| - 3];
      assert ParseCents(r) == -(ParseUnsignedCents(u) as int);
    } else {
      var u := UnsignedAmount(c);
      UnsignedAmountRoundTrip(c);
      assert r == u;
      assert r[0] != '-';
    }
  }
}
