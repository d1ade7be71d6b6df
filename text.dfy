/**
  Text renderings that feed the block-hash preimage: Python's `str` of a
  non-negative integer, of an amount held as a float, and of an absent sender.
  The preimage is only tamper-evident if these renderings are injective and
  never contain the `|` separator, so both facts are proved here.
 */
module Text {

  predicate IsDigit(ch: char) {
    '0' <= ch <= '9'
  }

  predicate AllDigits(s: string) {
    forall i :: 0 <= i < |s| ==> IsDigit(s[i])
  }

  /** True when `ch` occurs nowhere in `s`. */
  predicate Free(s: string, ch: char) {
    forall i :: 0 <= i < |s| ==> s[i] != ch
  }

  function DigitChar(d: nat): (ch: char)
    requires d < 10
    ensures IsDigit(ch)
    ensures ch as int - '0' as int == d
  {
    ('0' as int + d) as char
  }

  /** Decimal text of a natural number, as Python's `str(int)`. */
  function NatToString(n: nat): (s: string)
    ensures 1 <= |s| && AllDigits(s)
    ensures n >= 10 ==> |s| >= 2
    decreases n
  {
    if n < 10 then [DigitChar(n)] else NatToString(n / 10) + [DigitChar(n % 10)]
  }

  lemma {:induction false} NatToStringInjective(a: nat, b: nat)
    requires NatToString(a) == NatToString(b)
    ensures a == b
    decreases a
  {
    if a >= 10 && b >= 10 {
      var sa, sb := NatToString(a), NatToString(b);
      assert sa[|sa| - 1] == DigitChar(a % 10) && sb[|sb| - 1] == DigitChar(b % 10);
      assert NatToString(a / 10) == sa[..|sa| - 1] == sb[..|sb| - 1] == NatToString(b / 10);
      NatToStringInjective(a / 10, b / 10);
    }
  }

  /** Removes trailing '0' characters. */
  function StripZeros(s: string): (r: string)
    ensures |r| <= |s| && r == s[..|r|]
    ensures forall i :: |r| <= i < |s| ==> s[i] == '0'
    ensures |r| > 0 ==> r[|r| - 1] != '0'
  {
    if |s| > 0 && s[|s| - 1] == '0' then StripZeros(s[..|s| - 1]) else s
  }

  function Pow10(k: nat): (p: nat)
    ensures p >= 1
  {
    if k == 0 then 1 else 10 * Pow10(k - 1)
  }

  /** The last `k` decimal digits of `n`, zero-padded on the left. */
  function Digits(n: nat, k: nat): (s: string)
    ensures |s| == k && AllDigits(s)
  {
    if k == 0 then [] else Digits(n / 10, k - 1) + [DigitChar(n % 10)]
  }

  /** The four fractional digits of a fixed-point amount, zero-padded. */
  function Pad4(f: nat): (s: string)
    requires f < 10000
    ensures |s| == 4 && AllDigits(s)
  {
    Digits(f, 4)
  }

  /**
    Fractional part as Python prints a float: trailing zeros dropped,
    but at least one digit ("100.0", "12.5", "0.0001").
   */
  function FracText(f: nat): (s: string)
    requires f < 10000
  {
    if f == 0 then "0" else StripZeros(Pad4(f))
  }

  /**
    `str(x)` of a Python float x holding `units` ten-thousandths, with no sign.
   */
  function UnsignedAmountText(units: nat): (s: string)
  {
    NatToString(units / 10000) + "." + FracText(units % 10000)
  }

  /**
    `str(x)` of an amount `units` / 10^4 stored as a float: the shortest
    decimal that reads back to the same float, which for an amount with
    four decimal places and at most fifteen significant digits is the
    amount itself, trailing zeros dropped.
   */
  function AmountText(units: int): (s: string)
  {
    if units < 0 then "-" + UnsignedAmountText(-units) else UnsignedAmountText(units)
  }

  /** The literal Python prints for a `None` sender. */
  const NoneText: string := "None"

  lemma {:induction false} DigitsInjective(a: nat, b: nat, k: nat)
    requires a < Pow10(k) && b < Pow10(k)
    requires Digits(a, k) == Digits(b, k)
    ensures a == b
  {
    if k > 0 {
      var da, db := Digits(a, k), Digits(b, k);
      assert da[k - 1] == DigitChar(a % 10) && db[k - 1] == DigitChar(b % 10);
      assert Digits(a / 10, k - 1) == da[..k - 1] == db[..k - 1] == Digits(b / 10, k - 1);
      DigitsInjective(a / 10, b / 10, k - 1);
    }
  }

  lemma Pad4Injective(f: nat, g: nat)
    requires f < 10000 && g < 10000
    requires Pad4(f) == Pad4(g)
    ensures f == g
  {
    assert Pow10(4) == 10000;
    DigitsInjective(f, g, 4);
  }

  lemma StripZerosRestores(s: string, t: string)
    requires |s| == |t| && StripZeros(s) == StripZeros(t)
    ensures s == t
  {
    var r := StripZeros(s);
    forall i | 0 <= i < |s| ensures s[i] == t[i] {
      if i < |r| {
        assert s[i] == r[i] == t[i];
      }
    }
  }

  lemma FracTextInjective(f: nat, g: nat)
    requires f < 10000 && g < 10000
    requires FracText(f) == FracText(g)
    ensures f == g
  {
    if f != 0 && g != 0 {
      StripZerosRestores(Pad4(f), Pad4(g));
      Pad4Injective(f, g);
    } else if f != 0 {
      FracNonZeroNotZeroText(f);
    } else if g != 0 {
      FracNonZeroNotZeroText(g);
    }
  }

  lemma FracNonZeroNotZeroText(f: nat)
    requires 0 < f < 10000
    ensures FracText(f) != "0"
  {
    var r := StripZeros(Pad4(f));
    assert |r| > 0 ==> r[|r| - 1] != '0';
    assert "0"[0] == '0';
  }

  /** Position of the first `sep` in `s`, or `|s|` when there is none. */
  function FirstIndexOf(s: string, sep: char): (k: nat)
    ensures k <= |s|
  {
    if |s| == 0 || s[0] == sep then 0 else 1 + FirstIndexOf(s[1..], sep)
  }

  lemma {:induction false} FirstIndexAfterFreeHead(x: string, r: string, sep: char)
    requires Free(x, sep)
    ensures FirstIndexOf(x + [sep] + r, sep) == |x|
  {
    if |x| > 0 {
      assert (x + [sep] + r)[1..] == x[1..] + [sep] + r;
      FirstIndexAfterFreeHead(x[1..], r, sep);
    }
  }

  /** Splitting at the first occurrence of a separator that neither head contains. */
  lemma SplitAt(x: string, r: string, y: string, s: string, sep: char)
    requires Free(x, sep) && Free(y, sep)
    requires x + [sep] + r == y + [sep] + s
    ensures x == y && r == s
  {
    var u := x + [sep] + r;
    FirstIndexAfterFreeHead(x, r, sep);
    FirstIndexAfterFreeHead(y, s, sep);
    assert x == u[..|x|] == y;
    assert r == u[|x| + 1..] == s;
  }

  lemma DigitsFree(s: string, ch: char)
    requires AllDigits(s) && !IsDigit(ch)
    ensures Free(s, ch)
  {
  }

  lemma UnsignedAmountTextInjective(a: nat, b: nat)
    requires UnsignedAmountText(a) == UnsignedAmountText(b)
    ensures a == b
  {
    var qa, qb := NatToString(a / 10000), NatToString(b / 10000);
    DigitsFree(qa, '.');
    DigitsFree(qb, '.');
    SplitAt(qa, FracText(a % 10000), qb, FracText(b % 10000), '.');
    NatToStringInjective(a / 10000, b / 10000);
    FracTextInjective(a % 10000, b % 10000);
  }

  lemma AmountTextHead(a: int)
    ensures |AmountText(a)| > 0
    ensures AmountText(a)[0] == '-' <==> a < 0
  {
    var u := if a < 0 then -a else a;
    var q := NatToString(u / 10000);
    assert IsDigit(q[0]);
    assert AmountText(a)[0] == if a < 0 then '-' else q[0];
  }

  lemma AmountTextInjective(a: int, b: int)
    requires AmountText(a) == AmountText(b)
    ensures a == b
  {
    AmountTextHead(a);
    AmountTextHead(b);
    var ta, tb := AmountText(a), AmountText(b);
    if a < 0 {
      assert UnsignedAmountText(-a) == ta[1..] == tb[1..] == UnsignedAmountText(-b);
      UnsignedAmountTextInjective(-a, -b);
    } else {
      UnsignedAmountTextInjective(a, b);
    }
  }

  lemma AmountTextFree(a: int, ch: char)
    requires !IsDigit(ch) && ch != '.' && ch != '-'
    ensures Free(AmountText(a), ch)
  {
    var u := if a < 0 then -a else a;
    var q := NatToString(u / 10000);
    var f := FracText(u % 10000);
    assert Free(f, ch) by {
      if u % 10000 != 0 {
        var p := Pad4(u % 10000);
        assert forall i :: 0 <= i < |p| ==> IsDigit(p[i]);
      }
    }
    DigitsFree(q, ch);
  }
}
