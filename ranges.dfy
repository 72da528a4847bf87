/** mart/ranges.h: the integer iterator IIterator, the ranges irange builds
    from it, and EndAwareIterator. */
module Ranges {

  /** IIterator<T>: an iterator whose value is the integer it holds. */
  class IIterator {
    var i: int

    /** IIterator(T value = T()): holds value; by default 0. */
    constructor (value: int)
      ensures i == value
    {
      i := value;
    }

    constructor Default()
      ensures i == 0
    {
      i := 0;
    }

    /** operator*: the integer held. */
    function Deref(): int
      reads this
    {
      i
    }

    /** Prefix ++: one more, and the iterator itself is returned. */
    method Increment() returns (self: IIterator)
      modifies this
      ensures i == old(i) + 1 && self == this
    {
      i := i + 1;
      return this;
    }

    /** Postfix ++: one more; the result is a new iterator holding the old value. */
    method PostIncrement() returns (prev: IIterator)
      modifies this
      ensures i == old(i) + 1
      ensures fresh(prev) && prev.i == old(i)
    {
      prev := new IIterator(i);
      i := i + 1;
    }

    /** Prefix --: one less, and the iterator itself is returned. */
    method Decrement() returns (self: IIterator)
      modifies this
      ensures i == old(i) - 1 && self == this
    {
      i := i - 1;
      return this;
    }

    /** Postfix --: one less; the result is a new iterator holding the old value. */
    method PostDecrement() returns (prev: IIterator)
      modifies this
      ensures i == old(i) - 1
      ensures fresh(prev) && prev.i == old(i)
    {
      prev := new IIterator(i);
      i := i - 1;
    }

    /** +=: shifted by diff. */
    method AddAssign(diff: int) returns (self: IIterator)
      modifies this
      ensures i == old(i) + diff && self == this
    {
      i := i + diff;
      return this;
    }

    /** -=: shifted back by diff, which undoes += diff. */
    method SubAssign(diff: int) returns (self: IIterator)
      modifies this
      ensures i == old(i) - diff && self == this
    {
      i := i - diff;
      return this;
    }

    /** operator[](diff): the value diff steps further on, read without moving
        the iterator. */
    function Index(diff: int): (r: int)
      reads this
      ensures r - Deref() == diff
    {
      i + diff
    }
  }

  // The six comparisons compare the values the iterators dereference to.
  predicate Equal(l: IIterator, r: IIterator) reads l, r
    ensures Equal(l, r) <==> l.Deref() == r.Deref()
  { l.i == r.i }
  predicate NotEqual(l: IIterator, r: IIterator) reads l, r
    ensures NotEqual(l, r) <==> l.Deref() != r.Deref()
  { l.i != r.i }
  predicate Less(l: IIterator, r: IIterator) reads l, r
    ensures Less(l, r) <==> l.Deref() < r.Deref()
  { l.i < r.i }
  predicate LessEq(l: IIterator, r: IIterator) reads l, r
    ensures LessEq(l, r) <==> l.Deref() <= r.Deref()
  { l.i <= r.i }
  predicate Greater(l: IIterator, r: IIterator) reads l, r
    ensures Greater(l, r) <==> l.Deref() > r.Deref()
  { l.i > r.i }
  predicate GreaterEq(l: IIterator, r: IIterator) reads l, r
    ensures GreaterEq(l, r) <==> l.Deref() >= r.Deref()
  { l.i >= r.i }

  /** The comparisons of iterators order them as their integers are ordered:
      exactly one of <, == and > holds, and the others are their negations and
      swaps. */
  lemma ComparisonsFollowValues(l: IIterator, r: IIterator)
    ensures Less(l, r) || Equal(l, r) || Greater(l, r)
    ensures !(Less(l, r) && Equal(l, r)) && !(Less(l, r) && Greater(l, r)) && !(Equal(l, r) && Greater(l, r))
    ensures NotEqual(l, r) <==> !Equal(l, r)
    ensures LessEq(l, r) <==> !Greater(l, r)
    ensures GreaterEq(l, r) <==> !Less(l, r)
    ensures Greater(l, r) <==> Less(r, l)
  {
  }

  /** l - r: the number of steps from r to l. */
  function Distance(l: IIterator, r: IIterator): (d: int)
    reads l, r
    ensures d == 0 <==> Equal(l, r)
    ensures d > 0 <==> Greater(l, r)
  {
    l.i - r.i
  }

  /** l + n (and n + l): a new iterator n steps further on; its distance from
      l is n. */
  method Plus(l: IIterator, n: int) returns (r: IIterator)
    ensures fresh(r) && r.i == l.i + n
    ensures Distance(r, l) == n
  {
    r := new IIterator(l.i + n);
  }

  /** l - n: a new iterator n steps back; its distance to l is n. */
  method Minus(l: IIterator, n: int) returns (r: IIterator)
    ensures fresh(r) && r.i == l.i - n
    ensures Distance(l, r) == n
  {
    r := new IIterator(l.i - n);
  }

  // ------------------------------------------------------------------ irange

  /** _impl_irange::irange_t<T>: the values of its begin and end iterators. */
  datatype IRange = IRange(start: int, pastEnd: int)
  {
    /** begin(): a new iterator at the start. */
    method Begin() returns (it: IIterator)
      ensures fresh(it) && it.i == start
    {
      it := new IIterator(start);
    }

    /** end(): a new iterator one past the last value. */
    method End() returns (it: IIterator)
      ensures fresh(it) && it.i == pastEnd
    {
      it := new IIterator(pastEnd);
    }
  }

  /** The values [start, pastEnd) a loop from begin() to end() visits. */
  function Values(r: IRange): (vs: seq<int>)
    ensures |vs| == if r.start <= r.pastEnd then r.pastEnd - r.start else 0
    ensures forall k :: 0 <= k < |vs| ==> vs[k] == r.start + k
    decreases r.pastEnd - r.start
  {
    if r.start >= r.pastEnd then [] else [r.start] + Values(IRange(r.start + 1, r.pastEnd))
  }

  /** The usual loop over a range, for (it = begin(); it != end(); ++it),
      visits exactly Values(r). A range whose start lies past its end never
      reaches end() with unbounded integers, so it is excluded. */
  method Iterate(r: IRange) returns (visited: seq<int>)
    requires r.start <= r.pastEnd
    ensures visited == Values(r)
  {
    var it := r.Begin();
    var e := r.End();
    visited := [];
    while NotEqual(it, e)
      invariant r.start <= it.i <= r.pastEnd && e.i == r.pastEnd
      invariant visited == Values(r)[..it.i - r.start]
      decreases r.pastEnd - it.i
    {
      visited := visited + [it.Deref()];
      var _ := it.Increment();
    }
  }

  /** An integer is among the values of a range exactly when it lies in
      [start, pastEnd). */
  lemma ValuesAreInterval(r: IRange)
    ensures forall k :: k in Values(r) <==> r.start <= k < r.pastEnd
  {
    forall k | r.start <= k < r.pastEnd
      ensures k in Values(r)
    {
      assert Values(r)[k - r.start] == k;
    }
  }

  /** irange(start, end). */
  function IRangeFromTo(start: int, end: int): (r: IRange)
    ensures r.start == start && r.pastEnd == end
    ensures start <= end ==> Values(r) == seq(end - start, k => start + k)
  {
    IRange(start, end)
  }

  /** irange(end): from 0. */
  function IRangeTo(end: int): (r: IRange)
    ensures r.start == 0 && r.pastEnd == end
    ensures end >= 0 ==> Values(r) == seq(end, k => k)
  {
    IRange(0, end)
  }

  /** irange(container): the indexes of a random-access container. */
  function IRangeOfContainer<T>(c: seq<T>): (r: IRange)
    ensures r.start == 0 && r.pastEnd == |c|
    ensures forall k :: k in Values(r) <==> 0 <= k < |c|
  {
    ValuesAreInterval(IRange(0, |c|));
    IRange(0, |c|)
  }

  /** irange(array): the indexes of a built-in array of N elements. */
  function IRangeOfArray<T>(a: array<T>): (r: IRange)
    ensures r.start == 0 && r.pastEnd == a.Length
    ensures forall k :: k in Values(r) <==> 0 <= k < a.Length
  {
    ValuesAreInterval(IRange(0, a.Length));
    IRange(0, a.Length)
  }

  // ------------------------------------------------------- EndAwareIterator

  /** EndAwareIterator<IT>: an iterator together with whether it was end()
      of the container it was built for. */
  datatype EndAwareIterator<It> = EndAwareIterator(base: It, isEnd: bool)
  {
    /** is_end(). */
    predicate IsEnd() { isEnd }

    /** explicit operator bool: not at the end. */
    predicate ToBool() { !isEnd }
  }

  /** EndAwareIterator(it, c): it, and whether it equals c.end(). */
  function MakeEndAware<It(==)>(it: It, containerEnd: It): (r: EndAwareIterator<It>)
    ensures r.base == it
    ensures r.IsEnd() <==> it == containerEnd
    ensures r.ToBool() <==> !r.IsEnd()
  {
    EndAwareIterator(it, it == containerEnd)
  }

  /** Over an irange, an end-aware iterator at the start plus k converts to
      true exactly for the k that index a value of the range. */
  lemma EndAwareOverRange(r: IRange, k: nat)
    requires r.start <= r.pastEnd && k <= |Values(r)|
    ensures MakeEndAware(r.start + k, r.pastEnd).ToBool() <==> k < |Values(r)|
  {
  }
}
