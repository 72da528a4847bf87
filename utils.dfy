/** The narrowing helpers of mart/utils.h (narrow_cast, narrow and its sign
    check) and toUType, over integer types of any width. */
module Utils {
  import opened Wrappers
  import opened Arithmetic

  /** An integer type: signed (two's complement) or unsigned, of some width. */
  datatype IntTypeDesc = IntType(signed: bool, bits: nat) {
    function Modulus(): nat { Pow2(bits) }
  }
  type IntType = t: IntTypeDesc | t.bits >= 1 witness IntType(false, 8)

  function MinOf(t: IntType): int { if t.signed then -(Pow2(t.bits - 1) as int) else 0 }
  function MaxOf(t: IntType): int { if t.signed then Pow2(t.bits - 1) - 1 else Pow2(t.bits) - 1 }

  predicate InRange(t: IntType, x: int) { MinOf(t) <= x <= MaxOf(t) }

  lemma RangeSpansModulus(t: IntType)
    ensures MaxOf(t) - MinOf(t) + 1 == t.Modulus()
  {
    if t.signed { assert Pow2(t.bits) == 2 * Pow2(t.bits - 1); }
  }

  /** static_cast to an integer type: the value of the type congruent to x
      modulo 2^bits. */
  function Cast(t: IntType, x: int): (r: int)
    ensures InRange(t, r)
    ensures InRange(t, x) ==> r == x
    ensures (x - r) % t.Modulus() == 0
  {
    CastFacts(t, x);
    (x - MinOf(t)) % t.Modulus() + MinOf(t)
  }

  lemma CastFacts(t: IntType, x: int)
    ensures var r := (x - MinOf(t)) % t.Modulus() + MinOf(t);
            InRange(t, r) && (InRange(t, x) ==> r == x) && (x - r) % t.Modulus() == 0
  {
    RangeSpansModulus(t);
    var m, lo := t.Modulus(), MinOf(t);
    var y := x - lo;
    var q, rem := y / m, y % m;
    assert y == q * m + rem;
    assert x - (rem + lo) == q * m;
    ModUnique(x - (rem + lo), q, 0, m);
    if InRange(t, x) { ModUnique(y, 0, y, m); }
  }

  /** narrow_cast<T>(u): a plain static_cast, so modular conversion. */
  function NarrowCast(t: IntType, u: IntType, x: int): (r: int)
    requires InRange(u, x)
    ensures InRange(t, r) && (x - r) % t.Modulus() == 0
    ensures InRange(t, x) ==> r == x
  {
    Cast(t, x)
  }

  /** _impl_narrow::sign_check<T, U>::check(t, u): true when it does not
      throw. Only types of different signedness are checked. */
  function SignCheck(t: IntType, u: IntType, tv: int, uv: int): (r: bool)
    ensures t.signed == u.signed ==> r
    ensures r <==> t.signed == u.signed || (tv < 0 <==> uv < 0)
  {
    if t.signed == u.signed then true else (tv < 0) == (uv < 0)
  }

  /** narrow<T>(u): the cast, then the sign check, then the check that casting
      back to U gives u again. */
  function Narrow(t: IntType, u: IntType, x: int): (r: Result<int>)
    requires InRange(u, x)
    ensures r.Ok? <==> InRange(t, x)
    ensures r.Ok? ==> r.value == x
    ensures r.Err? ==> r.error == NarrowingError
  {
    NarrowIsExact(t, u, x);
    var tv := NarrowCast(t, u, x);
    if !SignCheck(t, u, tv, x) then Err(NarrowingError)
    else if Cast(u, tv) != x then Err(NarrowingError)
    else Ok(tv)
  }

  /** Of two types of the same signedness, the narrower one's range lies
      inside the wider one's. */
  lemma SameSignednessNested(t: IntType, u: IntType)
    requires t.signed == u.signed && t.bits <= u.bits
    ensures MinOf(u) <= MinOf(t) && MaxOf(t) <= MaxOf(u)
  {
    Pow2Monotone(t.bits, u.bits);
    Pow2Monotone(t.bits - 1, u.bits - 1);
  }

  /** The two checks of narrow together reject exactly the values T cannot
      represent. */
  lemma NarrowIsExact(t: IntType, u: IntType, x: int)
    requires InRange(u, x)
    ensures var tv := Cast(t, x);
            (SignCheck(t, u, tv, x) && Cast(u, tv) == x) <==> InRange(t, x)
  {
    var tv := Cast(t, x);
    if !InRange(t, x) && SignCheck(t, u, tv, x) && !InRange(u, tv) {
      if t.signed == u.signed {
        if t.bits <= u.bits {
          SameSignednessNested(t, u);
        } else {
          SameSignednessNested(u, t);
        }
      }
    } else if !InRange(t, x) && t.signed == u.signed {
      if u.bits <= t.bits { SameSignednessNested(u, t); }
    }
  }

  /** The round trip alone does not catch every loss: narrowing -1 from an
      8-bit signed type to a 16-bit unsigned one gives 65535, which casts back
      to -1, and only the sign check throws. */
  lemma SignCheckIsNeeded()
    ensures var t, u := IntType(false, 16), IntType(true, 8);
            Cast(t, -1) == 65535 && Cast(u, 65535) == -1
            && !SignCheck(t, u, 65535, -1) && Narrow(t, u, -1) == Err(NarrowingError)
  {
    var t, u := IntType(false, 16), IntType(true, 8);
    assert t.Modulus() == 65536 && MinOf(t) == 0;
    assert u.Modulus() == 256 && MinOf(u) == -128;
  }

  /** An enumerator: the underlying integer type of its enum and its value. */
  datatype EnumeratorDesc = Enumerator(underlying: IntType, value: int)
  type Enumerator = e: EnumeratorDesc | InRange(e.underlying, e.value)
    witness Enumerator(IntType(false, 8), 0)

  /** toUType(e): the enumerator's value in the enum's underlying type; casting
      it to that type again leaves it unchanged. */
  function ToUType(e: Enumerator): (r: int)
    ensures InRange(e.underlying, r) && Cast(e.underlying, r) == r
    ensures r == e.value
  {
    e.value
  }
}
