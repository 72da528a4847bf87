/** mart::EnumIdxArray<T, ENUM, N>: a fixed-size array indexed by the
    enumerators of an enum, each enumerator converted to size_t. */
module EnumIdxArrays {
  import opened Wrappers
  import opened Arithmetic
  import opened Utils

  /** std::size_t, the array's size_type. */
  const SizeType: IntType := IntType(false, 64)

  /** toIdx(e): the enumerator's value in its underlying type, converted to
      size_t, that is, taken modulo 2^64. */
  function ToIdx(e: Enumerator): (i: nat)
    ensures i < 0x1_0000_0000_0000_0000
    ensures 0 <= e.value < 0x1_0000_0000_0000_0000 ==> i == e.value
    ensures -0x1_0000_0000_0000_0000 <= e.value < 0 ==> i == e.value + 0x1_0000_0000_0000_0000
  {
    CastToSize(ToUType(e));
    Cast(SizeType, ToUType(e))
  }

  lemma CastToSize(x: int)
    ensures var i := Cast(SizeType, x);
            0 <= i < 0x1_0000_0000_0000_0000
            && (0 <= x < 0x1_0000_0000_0000_0000 ==> i == x)
            && (-0x1_0000_0000_0000_0000 <= x < 0 ==> i == x + 0x1_0000_0000_0000_0000)
  {
    Pow2Of64();
    var m := SizeType.Modulus();
    if x < 0 && -m <= x { ModUnique(x, -1, x + m, m); }
  }

  /** The enumerators of one enum whose underlying type is at most 64 bits
      wide get distinct indexes. */
  lemma ToIdxInjective(e1: Enumerator, e2: Enumerator)
    requires e1.underlying == e2.underlying && e1.underlying.bits <= 64
    ensures ToIdx(e1) == ToIdx(e2) <==> e1.value == e2.value
  {
    NarrowRange(e1);
    NarrowRange(e2);
  }

  /** An underlying type of at most 64 bits holds values in [-2^63, 2^64), and
      a signed one only values below 2^63. */
  lemma NarrowRange(e: Enumerator)
    requires e.underlying.bits <= 64
    ensures -0x8000_0000_0000_0000 <= e.value < 0x1_0000_0000_0000_0000
    ensures e.value < 0 || e.underlying.signed ==> e.value < 0x8000_0000_0000_0000
  {
    Pow2Of64();
    Pow2Monotone(e.underlying.bits, 64);
    Pow2Monotone(e.underlying.bits - 1, 63);
  }

  /** A negative enumerator converts to an index of at least 2^63, which no
      array of fewer than 2^63 elements has. */
  lemma NegativeEnumeratorIndex(e: Enumerator)
    requires e.underlying.bits <= 64 && e.value < 0
    ensures ToIdx(e) >= 0x8000_0000_0000_0000
  {
    NarrowRange(e);
  }

  class EnumIdxArray<T(0)> {
    /** The std::array<T, N> the struct derives from; N is its length. */
    const storage: array<T>

    /** EnumIdxArray(): every element value-initialised (T{}, given as zero). */
    constructor (n: nat, zero: T)
      ensures fresh(storage) && storage.Length == n
      ensures storage[..] == seq(n, _ => zero)
    {
      storage := new T[n](_ => zero);
    }

    /** The forwarding constructor: aggregate initialisation of the std::array
        with one or more initialisers; the remaining elements are
        value-initialised. More than N initialisers do not compile. */
    constructor FromElements(n: nat, args: seq<T>, zero: T)
      requires 1 <= |args| <= n
      ensures fresh(storage) && storage.Length == n
      ensures storage[..] == args + seq(n - |args|, _ => zero)
    {
      var a := new T[n](i => if 0 <= i < |args| then args[i] else zero);
      assert a[..] == args + seq(n - |args|, _ => zero);
      storage := a;
    }

    /** The defaulted copy and move constructors copy every element. */
    constructor CopyOf(other: EnumIdxArray<T>)
      ensures fresh(storage) && storage[..] == other.storage[..]
    {
      var s := other.storage[..];
      var a := new T[|s|](i requires 0 <= i < |s| => s[i]);
      assert a[..] == s;
      storage := a;
    }

    /** The defaulted copy and move assignments copy every element of an array
        of the same type, hence the same N. */
    method AssignFrom(other: EnumIdxArray<T>)
      requires other.storage.Length == storage.Length
      modifies storage
      ensures storage[..] == old(other.storage[..])
    {
      var s := other.storage[..];
      forall i | 0 <= i < storage.Length {
        storage[i] := s[i];
      }
    }

    /** at(pos) const: std::array::at, which throws out_of_range when the
        index is not below N. */
    function At(e: Enumerator): (r: Result<T>)
      reads storage
      ensures r.Ok? <==> ToIdx(e) < storage.Length
      ensures r.Ok? ==> r.value == storage[ToIdx(e)]
      ensures r.Err? ==> r.error == OutOfRange
    {
      var i := ToIdx(e);
      if i < storage.Length then Ok(storage[i]) else Err(OutOfRange)
    }

    /** operator[](pos) const: unchecked; the index must be below N. */
    function Get(e: Enumerator): (r: T)
      requires ToIdx(e) < storage.Length
      reads storage
      ensures At(e) == Ok(r)
    {
      storage[ToIdx(e)]
    }

    /** operator[](pos) = v: writes the element the enumerator names, and no
        other. */
    method Set(e: Enumerator, v: T)
      requires ToIdx(e) < storage.Length
      modifies storage
      ensures storage[..] == old(storage[..])[ToIdx(e) := v]
      ensures At(e) == Ok(v)
    {
      storage[ToIdx(e)] := v;
    }

    /** at(pos) = v: writes the element, or throws out_of_range and leaves the
        array as it was. */
    method SetAt(e: Enumerator, v: T) returns (r: Result<()>)
      modifies storage
      ensures r.Ok? <==> ToIdx(e) < storage.Length
      ensures r.Ok? ==> storage[..] == old(storage[..])[ToIdx(e) := v]
      ensures r.Err? ==> r.error == OutOfRange && storage[..] == old(storage[..])
    {
      var i := ToIdx(e);
      if i < storage.Length {
        storage[i] := v;
        return Ok(());
      }
      return Err(OutOfRange);
    }
  }

  /** Writing through one enumerator leaves every other enumerator of the same
      enum reading what it read before. */
  lemma SetLeavesOthers<T>(before: seq<T>, e: Enumerator, other: Enumerator, v: T)
    requires ToIdx(e) < |before| && ToIdx(other) < |before|
    requires e.underlying == other.underlying && e.underlying.bits <= 64
    requires e.value != other.value
    ensures before[ToIdx(e) := v][ToIdx(other)] == before[ToIdx(other)]
  {
    ToIdxInjective(e, other);
  }
}
