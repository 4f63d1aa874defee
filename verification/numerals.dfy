/** `Number.prototype.toString(radix)` for non-negative integers, and its inverse. */
module Numerals {

  /** `b` raised to the `k`. */
  function Pow(b: nat, k: nat): (r: nat)
    ensures b >= 1 ==> r >= 1
  {
    if k == 0 then 1 else b * Pow(b, k - 1)
  }

  /** The lower-case digit JavaScript prints for the value `d`. */
  function DigitChar(d: nat): (c: char)
    requires d < 36
    ensures '0' <= c <= '9' || 'a' <= c <= 'z'
  {
    if d < 10 then ('0' as int + d) as char else ('a' as int + d - 10) as char
  }

  /** The value of a digit character of either case, or -1 for anything else. */
  function DigitValue(c: char): (d: int)
    ensures -1 <= d < 36
  {
    if '0' <= c <= '9' then c as int - '0' as int
    else if 'a' <= c <= 'z' then c as int - 'a' as int + 10
    else if 'A' <= c <= 'Z' then c as int - 'A' as int + 10
    else -1
  }

  /** Reading a printed digit gives back its value. */
  lemma DigitRoundTrip(d: nat)
    requires d < 36
    ensures DigitValue(DigitChar(d)) == d
  {
  }

  lemma DivDecreases(n: nat, base: nat)
    requires 2 <= base <= n
    ensures 1 <= n / base < n
    ensures n == (n / base) * base + n % base
  {
    var q := n / base;
    assert n == q * base + n % base;
    MulLeq(q, 0, base);
    MulLeq(2, base, q);
  }

  /** `n.toString(base)`: the most significant digit first, no leading zeros. */
  function ToRadix(n: nat, base: nat): (s: string)
    requires 2 <= base <= 36
    ensures |s| >= 1
    ensures forall k :: 0 <= k < |s| ==> 0 <= DigitValue(s[k]) < base
    ensures |s| > 1 ==> s[0] != '0'
    decreases n
  {
    if n < base then
      DigitRoundTrip(n);
      [DigitChar(n)]
    else
      DivDecreases(n, base);
      var d := n % base;
      DigitRoundTrip(d);
      ToRadix(n / base, base) + [DigitChar(d)]
  }

  /** The value of a digit string read in `base`, most significant digit first. */
  function FromRadix(s: string, base: nat): int
  {
    if |s| == 0 then 0
    else FromRadix(s[..|s| - 1], base) * base + DigitValue(s[|s| - 1])
  }

  /** The last `k` characters of `s`, or all of it when it is shorter: `s.slice(-k)` for k >= 1. */
  function LastChars(s: string, k: nat): (r: string)
    ensures |r| == if |s| < k then |s| else k
    ensures r == s[|s| - |r|..]
  {
    if |s| <= k then s else s[|s| - k..]
  }

  /** Reading back what `ToRadix` printed gives the number. */
  lemma {:induction false} RoundTrip(n: nat, base: nat)
    requires 2 <= base <= 36
    ensures FromRadix(ToRadix(n, base), base) == n
    decreases n
  {
    var s := ToRadix(n, base);
    if n < base {
      DigitRoundTrip(n);
      assert FromRadix(s, base) == FromRadix([], base) * base + n;
    } else {
      DivDecreases(n, base);
      RoundTrip(n / base, base);
      DigitRoundTrip(n % base);
      assert s[..|s| - 1] == ToRadix(n / base, base);
      assert FromRadix(s, base) == (n / base) * base + n % base;
    }
  }

  /** A number prints with exactly `k` digits when it lies in [base^(k-1), base^k). */
  lemma {:induction false} LengthBounds(n: nat, base: nat)
    requires 2 <= base <= 36
    ensures n < Pow(base, |ToRadix(n, base)|)
    ensures n >= 1 ==> Pow(base, |ToRadix(n, base)| - 1) <= n
    decreases n
  {
    if n >= base {
      DivDecreases(n, base);
      var q := n / base;
      LengthBounds(q, base);
      var k := |ToRadix(q, base)|;
      assert |ToRadix(n, base)| == k + 1;
      UpperStep(n, q, base, k);
      LowerStep(n, q, base, k);
    } else {
      assert Pow(base, 1) == base * Pow(base, 0);
    }
  }

  lemma UpperStep(n: nat, q: nat, base: nat, k: nat)
    requires 2 <= base && q < Pow(base, k) && n == q * base + n % base
    ensures n < Pow(base, k + 1)
  {
    var p := Pow(base, k);
    assert Pow(base, k + 1) == base * p;
    MulLeq(q + 1, p, base);
    assert (q + 1) * base == q * base + base;
  }

  lemma LowerStep(n: nat, q: nat, base: nat, k: nat)
    requires 2 <= base && k >= 1 && Pow(base, k - 1) <= q && n == q * base + n % base
    ensures Pow(base, k) <= n
  {
    MulLeq(Pow(base, k - 1), q, base);
    assert Pow(base, k) == base * Pow(base, k - 1);
  }

  /** The number of digits grows with the number. */
  lemma {:induction false} LengthAtLeast(n: nat, base: nat, k: nat)
    requires 2 <= base <= 36
    requires n >= Pow(base, k)
    ensures |ToRadix(n, base)| >= k + 1
  {
    LengthBounds(n, base);
    var len := |ToRadix(n, base)|;
    if len < k + 1 {
      PowMonotone(base, len, k);
    }
  }

  lemma {:induction false} PowMonotone(base: nat, i: nat, j: nat)
    requires base >= 1 && i <= j
    ensures Pow(base, i) <= Pow(base, j)
    decreases j
  {
    if i < j {
      PowMonotone(base, i, j - 1);
      MulAtLeast(base, Pow(base, j - 1));
    }
  }

  lemma {:induction false} MulAtLeast(x: int, m: int)
    requires m > 0
    ensures x >= 1 ==> x * m >= m
    decreases if x < 1 then 0 else x
  {
    if x > 1 {
      MulAtLeast(x - 1, m);
      assert x * m == (x - 1) * m + m;
    }
  }

  lemma MulLeq(a: int, b: int, m: int)
    requires m >= 0
    ensures a <= b ==> a * m <= b * m
  {
    if m > 0 {
      MulAtLeast(b - a, m);
      assert b * m - a * m == (b - a) * m;
    }
  }

  /** Euclidean division has a unique quotient and remainder. */
  lemma ModUnique(n: int, m: int, q: int, r: int)
    requires m > 0 && 0 <= r < m && n == q * m + r
    ensures n % m == r && n / m == q
  {
    var q' := n / m;
    var r' := n % m;
    assert n == q' * m + r';
    assert (q' - q) * m == r - r' by {
      assert (q' - q) * m == q' * m - q * m;
    }
    assert (q - q') * m == r' - r;
    MulAtLeast(q' - q, m);
    MulAtLeast(q - q', m);
  }

  /** Splitting off the last digit: n mod (p*b) is (n div b) mod p followed by n mod b. */
  lemma DivModCompose(n: int, b: int, p: int)
    requires b > 0 && p > 0
    ensures n % (p * b) == ((n / b) % p) * b + n % b
  {
    var q := n / b;
    var hi := q / p;
    var lo := q % p;
    var d := n % b;
    assert q == hi * p + lo;
    assert n == q * b + d;
    assert q * b == hi * (p * b) + lo * b by {
      assert (hi * p + lo) * b == hi * p * b + lo * b;
    }
    assert lo * b + d < p * b by {
      MulLeq(lo, p - 1, b);
      assert (p - 1) * b == p * b - b;
    }
    MulLeq(0, lo, b);
    ModUnique(n, p * b, hi, lo * b + d);
  }

  lemma ModPowStep(n: nat, base: nat, k: nat)
    requires base >= 2
    ensures n % Pow(base, k + 1) == ((n / base) % Pow(base, k)) * base + n % base
  {
    assert Pow(base, k + 1) == Pow(base, k) * base;
    DivModCompose(n, base, Pow(base, k));
  }

  /** The last `k` digits of `n` in `base` read back as `n mod base^k`. */
  lemma {:induction false} LastDigits(n: nat, base: nat, k: nat)
    requires 2 <= base <= 36 && k >= 1
    ensures FromRadix(LastChars(ToRadix(n, base), k), base) == n % Pow(base, k)
    decreases n
  {
    if |ToRadix(n, base)| <= k {
      LastDigitsWhole(n, base, k);
    } else if k == 1 {
      LastDigitOne(n, base);
    } else {
      DivDecreases(n, base);
      LastDigits(n / base, base, k - 1);
      LastDigitsStep(n, base, k);
    }
  }

  /** When `n` has at most `k` digits, its last `k` digits are all of it. */
  lemma LastDigitsWhole(n: nat, base: nat, k: nat)
    requires 2 <= base <= 36 && |ToRadix(n, base)| <= k
    ensures FromRadix(LastChars(ToRadix(n, base), k), base) == n % Pow(base, k)
  {
    var s := ToRadix(n, base);
    RoundTrip(n, base);
    LengthBounds(n, base);
    PowMonotone(base, |s|, k);
    assert LastChars(s, k) == s;
    ModUnique(n, Pow(base, k), 0, n);
  }

  lemma LastDigitOne(n: nat, base: nat)
    requires 2 <= base <= 36 && |ToRadix(n, base)| > 1
    ensures FromRadix(LastChars(ToRadix(n, base), 1), base) == n % Pow(base, 1)
  {
    var s := ToRadix(n, base);
    assert n >= base;
    DigitRoundTrip(n % base);
    var last := LastChars(s, 1);
    assert last == [DigitChar(n % base)];
    assert last[..0] == [];
    assert Pow(base, 1) == base;
    assert FromRadix(last, base) == FromRadix([], base) * base + n % base;
  }

  lemma LastDigitsStep(n: nat, base: nat, k: nat)
    requires 2 <= base <= 36 && k >= 2 && |ToRadix(n, base)| > k
    requires n >= base
    requires FromRadix(LastChars(ToRadix(n / base, base), k - 1), base) == (n / base) % Pow(base, k - 1)
    ensures FromRadix(LastChars(ToRadix(n, base), k), base) == n % Pow(base, k)
  {
    var prefix := LastChars(ToRadix(n / base, base), k - 1);
    LastCharsOfStep(n, base, k);
    ModPowStep(n, base, k - 1);
    assert k - 1 + 1 == k;
    StepValue(FromRadix(prefix, base), (n / base) % Pow(base, k - 1), base, n % base);
  }

  /** The last `k` digits of `n` are the last `k - 1` digits of `n / base` and then `n`'s last digit. */
  lemma LastCharsOfStep(n: nat, base: nat, k: nat)
    requires 2 <= base <= 36 && k >= 2 && |ToRadix(n, base)| > k
    requires n >= base
    ensures FromRadix(LastChars(ToRadix(n, base), k), base)
         == FromRadix(LastChars(ToRadix(n / base, base), k - 1), base) * base + n % base
  {
    var s := ToRadix(n, base);
    var t := ToRadix(n / base, base);
    var d := DigitChar(n % base);
    DigitRoundTrip(n % base);
    assert s == t + [d];
    var last := LastChars(s, k);
    var prefix := LastChars(t, k - 1);
    assert last == prefix + [d];
    assert last[..|last| - 1] == prefix;
  }

  lemma StepValue(x: int, y: int, base: int, d: int)
    requires x == y
    ensures x * base + d == y * base + d
  {
  }

  /** `n.toString()` for any integer, with a leading minus sign for negatives. */
  function Decimal(n: int): (s: string)
    ensures |s| >= 1
    ensures n < 0 <==> s[0] == '-'
  {
    if n < 0 then "-" + ToRadix(-n, 10) else ToRadix(n, 10)
  }
}

/** The global `parseInt(string)` with no radix argument. */
module IntParsing {
  import opened Wrappers
  import opened Numerals
  import Text

  /** The longest prefix of `s` made of digits valid in `base`. */
  function DigitPrefix(s: string, base: nat): (r: string)
    requires 2 <= base <= 36
    ensures |r| <= |s| && r == s[..|r|]
    ensures forall k :: 0 <= k < |r| ==> 0 <= DigitValue(r[k]) < base
    ensures |r| < |s| ==> !(0 <= DigitValue(s[|r|]) < base)
  {
    if |s| > 0 && 0 <= DigitValue(s[0]) < base then [s[0]] + DigitPrefix(s[1..], base) else []
  }

  /** The unsigned part of `parseInt`: a `0x`/`0X` prefix switches to base 16, and the longest run
      of digits that follows is read; with no digits there is no value. */
  function ReadUnsigned(body: string): (r: Option<int>)
    ensures r.Some? ==> r.value >= 0
  {
    var hex := |body| >= 2 && body[0] == '0' && (body[1] == 'x' || body[1] == 'X');
    var base := if hex then 16 else 10;
    var digits := DigitPrefix(if hex then body[2..] else body, base);
    if digits == [] then None else Some(FromRadixNonNegative(digits, base))
  }

  function FromRadixNonNegative(s: string, base: nat): (v: int)
    requires 2 <= base <= 36
    requires forall k :: 0 <= k < |s| ==> 0 <= DigitValue(s[k]) < base
    ensures v >= 0 && v == FromRadix(s, base)
    decreases |s|
  {
    if |s| == 0 then 0
    else
      var high := FromRadixNonNegative(s[..|s| - 1], base);
      MulLeq(0, high, base);
      high * base + DigitValue(s[|s| - 1])
  }

  /** `parseInt(s)`: leading white space is skipped and one sign is read before the digits; with no
      digits the result is `NaN`, here `None`. */
  function ParseInt(s: string): (r: Option<int>)
    ensures Text.IsBlank(s) ==> r.None?
  {
    ParseSigned(Text.TrimStart(s))
  }

  /** The part of `parseInt` after the white space: an optional sign, then the unsigned value. */
  function ParseSigned(t: string): Option<int> {
    var negative := |t| > 0 && t[0] == '-';
    var body := if |t| > 0 && (t[0] == '-' || t[0] == '+') then t[1..] else t;
    match ReadUnsigned(body)
    case None => None
    case Some(v) => Some(if negative then -v else v)
  }

  /** The longest digit prefix of valid digits followed by a non-digit is exactly those digits. */
  lemma {:induction false} DigitPrefixStops(s: string, tail: string, base: nat)
    requires 2 <= base <= 36
    requires forall k :: 0 <= k < |s| ==> 0 <= DigitValue(s[k]) < base
    requires tail == [] || !(0 <= DigitValue(tail[0]) < base)
    ensures DigitPrefix(s + tail, base) == s
    decreases |s|
  {
    if |s| > 0 {
      DigitPrefixStops(s[1..], tail, base);
      assert (s + tail)[1..] == s[1..] + tail;
      assert s == [s[0]] + s[1..];
    } else {
      assert s + tail == tail;
    }
  }

  /** An optional minus sign followed by decimal digits parses to their value. */
  lemma StartsUnspaced(t: string)
    requires |t| >= 1 && (t[0] == '-' || '0' <= t[0] <= '9')
    ensures ParseInt(t) == ParseSigned(t)
  {
    assert !Text.IsSpace(t[0]);
    assert Text.TrimStart(t) == t;
  }

  lemma SignedValue(digits: string, v: int)
    requires |digits| >= 1 && '0' <= digits[0] <= '9'
    requires ReadUnsigned(digits) == Some(v)
    ensures ParseSigned("-" + digits) == Some(-v)
    ensures ParseSigned(digits) == Some(v)
  {
    NegatedBody(digits);
    UnsignedBody(digits);
  }

  lemma NegatedBody(digits: string)
    ensures ParseSigned("-" + digits) == match ReadUnsigned(digits) case None => None case Some(w) => Some(-w)
  {
    assert ("-" + digits)[1..] == digits;
  }

  lemma UnsignedBody(digits: string)
    requires |digits| >= 1 && '0' <= digits[0] <= '9'
    ensures ParseSigned(digits) == ReadUnsigned(digits)
  {
  }

  /** Decimal digits, then nothing or a space: the unsigned reader takes exactly the digits. */
  lemma ReadDecimalDigits(digits: string, tail: string)
    requires |digits| >= 1
    requires forall k :: 0 <= k < |digits| ==> 0 <= DigitValue(digits[k]) < 10
    requires tail == [] || tail[0] == ' '
    ensures ReadUnsigned(digits + tail) == Some(FromRadix(digits, 10))
  {
    NoHexPrefix(digits, tail);
    assert DigitValue(' ') == -1;
    DigitPrefixStops(digits, tail, 10);
  }

  /** Decimal digits followed by nothing or a space never start with `0x`. */
  lemma NoHexPrefix(digits: string, tail: string)
    requires |digits| >= 1
    requires forall k :: 0 <= k < |digits| ==> 0 <= DigitValue(digits[k]) < 10
    requires tail == [] || tail[0] == ' '
    ensures var body := digits + tail;
      !(|body| >= 2 && body[0] == '0' && (body[1] == 'x' || body[1] == 'X'))
  {
    var body := digits + tail;
    if |body| >= 2 {
      if |digits| >= 2 {
        assert body[1] == digits[1];
        assert 0 <= DigitValue(digits[1]) < 10;
      } else {
        assert body[1] == tail[0];
      }
    }
  }

  /** `parseInt(String(n))` gives `n` back for every integer. */
  lemma ParseDecimal(n: int)
    ensures ParseInt(Decimal(n)) == Some(n)
  {
    ParseDecimalThen(n, "");
    assert Decimal(n) + "" == Decimal(n);
  }

  /** `parseInt` also reads `n` back from its decimal text followed by a space and anything else,
      as in a label such as "12 мин". */
  lemma ParseDecimalThen(n: int, tail: string)
    requires tail == [] || tail[0] == ' '
    ensures ParseInt(Decimal(n) + tail) == Some(n)
  {
    var m := if n < 0 then -n else n;
    var digits := ToRadix(m, 10);
    ParseDigitsThen(m, tail);
    if n < 0 {
      assert Decimal(n) == "-" + digits;
      SignFirst(digits, tail);
    } else {
      assert Decimal(n) == digits;
    }
  }

  lemma ParseDigitsThen(m: nat, tail: string)
    requires tail == [] || tail[0] == ' '
    ensures ParseInt(ToRadix(m, 10) + tail) == Some(m)
    ensures ParseInt("-" + (ToRadix(m, 10) + tail)) == Some(-(m as int))
  {
    var digits := ToRadix(m, 10);
    RoundTrip(m, 10);
    ReadDecimalDigits(digits, tail);
    assert '0' <= digits[0] <= '9' by {
      assert 0 <= DigitValue(digits[0]) < 10;
    }
    SignedValue(digits + tail, m);
    StartsUnspaced("-" + (digits + tail));
    StartsUnspaced(digits + tail);
  }

  lemma SignFirst(digits: string, tail: string)
    ensures ("-" + digits) + tail == "-" + (digits + tail)
  {
  }
}
