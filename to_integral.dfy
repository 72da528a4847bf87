/** mart::to_integral and mart::to_integral_unsafe: decimal parsing of a
    StringView into an integral type. */
module ToIntegral {
  import opened Wrappers
  import opened StringViews
  import opened Arithmetic

  /** An integral type T as the parser sees it: whether it is signed, and
      numeric_limits<T>::max(). Every integral type except bool has a maximum
      of at least 127. */
  datatype IntegralType = IntegralType(signed: bool, max: nat)
  type Integral = t: IntegralType | t.max >= 127 witness IntegralType(true, 127)

  predicate IsDigit(c: char) { '0' <= c <= '9' }

  function DigitValue(c: char): nat
    requires IsDigit(c)
  {
    c as int - '0' as int
  }

  predicate AllDigits(s: seq<char>) { forall i :: 0 <= i < |s| ==> IsDigit(s[i]) }

  /** The longest prefix of s made only of digits. */
  function DigitPrefix(s: seq<char>): (p: seq<char>)
    ensures p <= s && AllDigits(p)
    ensures |p| == |s| || !IsDigit(s[|p|])
  {
    if s == [] || !IsDigit(s[0]) then [] else [s[0]] + DigitPrefix(s[1..])
  }

  /** A digit prefix that stops at the end or at a non-digit is the longest one. */
  lemma {:induction false} DigitPrefixIs(s: seq<char>, i: nat)
    requires i <= |s| && AllDigits(s[..i])
    requires i == |s| || !IsDigit(s[i])
    ensures DigitPrefix(s) == s[..i]
    decreases i
  {
    if i > 0 {
      assert s[..i][0] == s[0];
      assert s[1..][..i - 1] == s[..i][1..];
      DigitPrefixIs(s[1..], i - 1);
      assert s[..i] == [s[0]] + s[1..][..i - 1];
    }
  }

  /** The value of a digit string in base 10, most significant digit first. */
  function DecimalValue(s: seq<char>): nat
    requires AllDigits(s)
  {
    if s == [] then 0 else DecimalValue(s[..|s| - 1]) * 10 + DigitValue(s[|s| - 1])
  }

  lemma {:induction false} DecimalValueMonotone(p: seq<char>, q: seq<char>)
    requires AllDigits(q) && p <= q
    ensures AllDigits(p) && DecimalValue(p) <= DecimalValue(q)
    decreases |q|
  {
    assert forall i :: 0 <= i < |p| ==> p[i] == q[i];
    if |p| < |q| {
      var q' := q[..|q| - 1];
      assert p <= q';
      DecimalValueMonotone(p, q');
    } else {
      assert p == q;
    }
  }

  /** details_to_integral::core<T>: reads the leading digits and stops at the
      first non-digit; throws out_of_range exactly when the value of the digit
      prefix exceeds numeric_limits<T>::max(). */
  method Core(str: StringView, t: Integral) returns (r: Result<nat>)
    ensures var v := DecimalValue(DigitPrefix(str.chars));
            r == if v <= t.max then Ok(v) else Err(OutOfRange)
  {
    var s := str.chars;
    var tmp: nat := 0;
    var i := 0;
    while i < |s|
      invariant 0 <= i <= |s|
      invariant AllDigits(s[..i])
      invariant tmp == DecimalValue(s[..i]) && tmp <= t.max
    {
      var d := s[i] as int - '0' as int;
      if d < 0 || 9 < d {
        break;
      }
      assert s[..i + 1][..i] == s[..i];
      if tmp >= t.max / 16 {
        if tmp > (t.max - d) / 10 {
          assert DecimalValue(s[..i + 1]) > t.max;
          OverflowedPrefix(s, i + 1);
          return Err(OutOfRange);
        }
      }
      tmp := tmp * 10 + d;
      i := i + 1;
    }
    DigitPrefixIs(s, i);
    return Ok(tmp);
  }

  /** A digit prefix whose value exceeds max makes the whole digit prefix exceed it. */
  lemma OverflowedPrefix(s: seq<char>, k: nat)
    requires k <= |s| && AllDigits(s[..k])
    ensures s[..k] <= DigitPrefix(s)
    ensures DecimalValue(s[..k]) <= DecimalValue(DigitPrefix(s))
  {
    var p := DigitPrefix(s);
    forall j | 0 <= j < k ensures IsDigit(s[j]) {
      assert s[..k][j] == s[j];
    }
    assert s[..k] == p[..k];
    DecimalValueMonotone(s[..k], p);
  }

  /** The value to_integral<T> gives for the characters s: 0 for an empty
      view; a leading '+' is skipped, and for a signed T a leading '-' negates;
      the rest is the value of the longest digit prefix, out of range when it
      exceeds the maximum of T. */
  function Parse(s: seq<char>, t: Integral): (r: Result<int>)
    ensures s == [] ==> r == Ok(0)
    ensures r.Err? ==> r.error == OutOfRange
    ensures r.Ok? ==> -(t.max as int) <= r.value <= t.max
    ensures r.Ok? && r.value < 0 ==> t.signed && s[0] == '-'
  {
    if s == [] then
      Ok(0)
    else if s[0] == '+' || (t.signed && s[0] == '-') then
      var v: int := DecimalValue(DigitPrefix(s[1..]));
      if v > t.max then Err(OutOfRange) else Ok(if s[0] == '-' then -v else v)
    else
      var v: int := DecimalValue(DigitPrefix(s));
      if v > t.max then Err(OutOfRange) else Ok(v)
  }

  /** What base<T> computes as written for the characters s of a view that
      memory continues with the characters after. Its substr(1) wraps (see
      StringViews.SubstrAsWrittenWraps) and yields a view that runs on past
      the end, so after a sign core keeps reading digits from that memory. */
  function ParseAsWritten(s: seq<char>, after: seq<char>, t: Integral): (r: Result<int>)
    ensures s == [] ==> r == Parse(s, t)
    ensures s != [] && s[0] != '+' && !(t.signed && s[0] == '-') ==> r == Parse(s, t)
  {
    if s != [] && (s[0] == '+' || (t.signed && s[0] == '-')) then
      var v: int := DecimalValue(DigitPrefix(s[1..] + after));
      if v > t.max then Err(OutOfRange) else Ok(if s[0] == '-' then -v else v)
    else
      Parse(s, t)
  }

  /** Where the memory after the view does not start with a digit, the
      over-read is harmless and the source gives Parse's result. */
  lemma ParseAsWrittenAgrees(s: seq<char>, after: seq<char>, t: Integral)
    requires after == [] || !IsDigit(after[0])
    ensures ParseAsWritten(s, after, t) == Parse(s, t)
  {
    if s != [] {
      var rest := s[1..];
      var p := DigitPrefix(rest);
      assert (rest + after)[..|p|] == p;
      DigitPrefixIs(rest + after, |p|);
    }
  }

  /** "+1" followed in memory by "2": the source parses 12, Parse gives 1. */
  lemma ParseAsWrittenOverReads()
    ensures var t := IntegralType(true, 0x7FFF_FFFF);
            ParseAsWritten("+1", "2\0", t) == Ok(12) && Parse("+1", t) == Ok(1)
  {
    var s: seq<char> := "12\0";
    assert "+1"[1..] + "2\0" == s;
    DigitPrefixIs(s, 2);
    assert s[..2] == "12";
    assert "12"[..1] == "1";
    assert DecimalValue("12") == 12;
    assert "+1"[1..] == "1";
    DigitPrefixIs("1", 1);
    assert "1"[..1] == "1";
  }

  /** Core on the view without its first character. */
  method CoreOfRest(str: StringView, t: Integral) returns (r: Result<nat>)
    requires str.Size() > 0
    ensures var v := DecimalValue(DigitPrefix(str.chars[1..]));
            r == if v <= t.max then Ok(v) else Err(OutOfRange)
  {
    var rest := Substr(str, 1, NPOS);
    assert rest.value.chars == str.chars[1..];
    r := Core(rest.value, t);
  }

  /** details_to_integral::base<T> for a non-empty view: the unsigned variant
      skips a '+'; the signed variant also negates after a '-'. */
  method Base(str: StringView, t: Integral) returns (r: Result<int>)
    requires str.Size() > 0
    ensures r == Parse(str.chars, t)
  {
    var c := str.chars[0];
    if t.signed && c == '-' {
      var v := CoreOfRest(str, t);
      r := if v.Ok? then Ok(-(v.value as int)) else Err(v.error);
    } else if c == '+' {
      var v := CoreOfRest(str, t);
      r := if v.Ok? then Ok(v.value) else Err(v.error);
    } else {
      var v := Core(str, t);
      r := if v.Ok? then Ok(v.value) else Err(v.error);
    }
  }

  /** to_integral<T>: T{} (that is, 0) for an empty view, otherwise base<T>. */
  method ToIntegral(str: StringView, t: Integral) returns (r: Result<int>)
    ensures r == Parse(str.chars, t)
  {
    if str.Size() == 0 {
      return Ok(0);
    }
    r := Base(str, t);
  }

  function DigitChar(d: nat): (c: char)
    requires d < 10
    ensures IsDigit(c) && DigitValue(c) == d
  {
    ('0' as int + d) as char
  }

  /** The decimal text of n without leading zeros: the reference printer that
      Parse is checked against. */
  function DecimalString(n: nat): (s: seq<char>)
    ensures |s| > 0 && AllDigits(s)
  {
    if n < 10 then [DigitChar(n)] else DecimalString(n / 10) + [DigitChar(n % 10)]
  }

  lemma {:induction false} DecimalStringValue(n: nat)
    ensures DecimalValue(DecimalString(n)) == n
  {
    if n >= 10 {
      DecimalStringValue(n / 10);
      var s := DecimalString(n);
      assert s[..|s| - 1] == DecimalString(n / 10);
    }
  }

  /** Parsing the printed text of n, followed by anything that does not start
      with a digit, gives back n (with its sign) when n fits in T, and is out of
      range otherwise. An unsigned T does not accept '-': the digits are never
      read and the result is 0. */
  lemma ParseDecimalString(n: nat, t: Integral, suffix: seq<char>)
    requires suffix == [] || !IsDigit(suffix[0])
    ensures Parse(DecimalString(n) + suffix, t) == if n <= t.max then Ok(n) else Err(OutOfRange)
    ensures Parse(['+'] + DecimalString(n) + suffix, t) == if n <= t.max then Ok(n) else Err(OutOfRange)
    ensures t.signed ==>
              Parse(['-'] + DecimalString(n) + suffix, t) == if n <= t.max then Ok(0 - n) else Err(OutOfRange)
    ensures !t.signed ==> Parse(['-'] + DecimalString(n) + suffix, t) == Ok(0)
  {
    var d := DecimalString(n);
    var s := d + suffix;
    assert s[..|d|] == d;
    DigitPrefixIs(s, |d|);
    DecimalStringValue(n);
    assert (['+'] + d + suffix)[1..] == s;
    assert (['-'] + d + suffix)[1..] == s;
    DigitPrefixIs(['-'] + d + suffix, 0);
  }

  // ------------------------------------------------------- to_integral_unsafe

  /** mart::accumulate: a left fold over the characters. */
  function Accumulate<A>(s: seq<char>, init: A, f: (A, char) -> A): A
  {
    if s == [] then init else Accumulate(s[1..], f(init, s[0]), f)
  }

  lemma {:induction false} AccumulateSnoc<A>(s: seq<char>, c: char, init: A, f: (A, char) -> A)
    ensures Accumulate(s + [c], init, f) == f(Accumulate(s, init, f), c)
    decreases |s|
  {
    if s != [] {
      assert (s + [c])[1..] == s[1..] + [c];
      AccumulateSnoc(s[1..], c, f(init, s[0]), f);
    }
  }

  /** INT_MAX for a 32-bit int: the arithmetic of signed types narrower than
      int happens in int. */
  const IntMax: nat := 0x7FFF_FFFF

  /** Conversion of an int to a signed T narrower than int: into
      [-(max+1), max], modulo 2 * (max+1). */
  function WrapSigned(x: int, t: Integral): (r: int)
    ensures -(t.max as int) - 1 <= r <= t.max
  {
    var h := t.max + 1;
    (x + h) % (2 * h) - h
  }

  /** The value the accumulator holds once v is stored in T: modulo max + 1
      for an unsigned T, wrapped into range for a signed T narrower than int,
      and v itself for int and wider signed types (whose overflow is
      undefined and not modelled). */
  function InT(v: int, t: Integral): int
  {
    if !t.signed then v % (t.max + 1)
    else if t.max < IntMax then WrapSigned(v, t)
    else v
  }

  /** The step to_integral_unsafe folds with: sum * 10 + c - '0', stored in T. */
  function UnsafeStep(t: Integral): (int, char) -> int
  {
    (sum: int, c: char) => InT(sum * 10 + c as int - '0' as int, t)
  }

  /** to_integral_unsafe<T>: folds every character, digit or not. On a view of
      digits only it is the decimal value as T holds it. */
  function ToIntegralUnsafe(str: StringView, t: Integral): (r: int)
    ensures AllDigits(str.chars) ==> r == InT(DecimalValue(str.chars), t)
  {
    if AllDigits(str.chars) then
      UnsafeIsDecimal(str.chars, t);
      Accumulate(str.chars, 0, UnsafeStep(t))
    else
      Accumulate(str.chars, 0, UnsafeStep(t))
  }

  /** Reducing the running sum modulo m before the next step changes nothing modulo m. */
  lemma ModStep(a: int, d: int, m: nat)
    requires m > 0
    ensures ((a % m) * 10 + d) % m == (a * 10 + d) % m
  {
    var q, r := a / m, a % m;
    var y := r * 10 + d;
    var qy, ry := y / m, y % m;
    assert a == q * m + r;
    assert y == qy * m + ry;
    assert a * 10 + d == (q * 10 + qy) * m + ry;
    ModUnique(a * 10 + d, q * 10 + qy, ry, m);
  }

  /** The same for the wrapped signed conversion. */
  lemma WrapStep(a: int, d: int, t: Integral)
    ensures WrapSigned(WrapSigned(a, t) * 10 + d, t) == WrapSigned(a * 10 + d, t)
  {
    var h := t.max + 1;
    var m := 2 * h;
    var q := (a + h) / m;
    assert a + h == q * m + (a + h) % m;
    var w := WrapSigned(a, t);
    assert w == a - q * m;
    var z := a * 10 + d + h;
    var qz, rz := z / m, z % m;
    assert z == qz * m + rz;
    assert w * 10 + d + h == (qz - q * 10) * m + rz;
    ModUnique(w * 10 + d + h, qz - q * 10, rz, m);
  }

  /** On a view of digits only, the fold is the decimal value as T holds it. */
  lemma {:induction false} UnsafeIsDecimal(s: seq<char>, t: Integral)
    requires AllDigits(s)
    ensures Accumulate(s, 0, UnsafeStep(t)) == InT(DecimalValue(s), t)
    decreases |s|
  {
    var f := UnsafeStep(t);
    if s == [] {
      if !t.signed {
        ModUnique(0, 0, 0, t.max + 1);
      } else if t.max < IntMax {
        ModUnique(t.max + 1, 0, t.max + 1, 2 * (t.max + 1));
      }
    } else {
      var s', c := s[..|s| - 1], s[|s| - 1];
      assert s == s' + [c];
      var acc := Accumulate(s', 0, f);
      var prev := DecimalValue(s');
      var d := DigitValue(c);
      assert DecimalValue(s) == prev * 10 + d;
      UnsafeIsDecimal(s', t);
      AccumulateSnoc(s', c, 0, f);
      assert Accumulate(s, 0, f) == f(acc, c);
      assert f(acc, c) == InT(acc * 10 + d, t);
      if !t.signed {
        ModStep(prev, d, t.max + 1);
      } else if t.max < IntMax {
        WrapStep(prev, d, t);
      }
    }
  }

  /** A signed char holds "200" as -56. */
  lemma UnsafeWrapsNarrowSigned()
    ensures ToIntegralUnsafe(StringView(0, "200"), IntegralType(true, 127)) == -56
  {
    var s: seq<char> := "200";
    assert AllDigits(s);
    assert s[..2] == "20" && "20"[..1] == "2";
    assert DecimalValue(s) == 200;
  }
}
