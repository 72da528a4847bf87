/** mart::StringView: a non-owning view of a run of characters, with the
    source's substring, split, search and comparison operations. */
module StringViews {
  import opened Wrappers

  /** size_type(-1) for a 64-bit size_t: the "no position" marker. */
  const NPOS: nat := 0xFFFF_FFFF_FFFF_FFFF
  /** size_t arithmetic is modulo 2^64. */
  const SIZE_MOD: nat := 0x1_0000_0000_0000_0000

  /** A size_t value. */
  type SizeT = x: nat | x <= NPOS

  /** The characters a view covers: its size is a size_t value other than npos. */
  type Chars = s: seq<char> | |s| < NPOS

  /** A view: the address of its first character (0 stands for nullptr) and
      the characters it covers. Two views with the same start address look at
      the same memory (see Coherent). */
  datatype StringView = StringView(start: nat, chars: Chars) {
    function Size(): nat { |chars| }
  }

  /** StringView{}: a null start pointer and size 0. */
  const EmptyView := StringView(0, [])

  function Min(a: nat, b: nat): nat { if a <= b then a else b }

  // ---------------------------------------------------------------- substr

  /** substr(offset, count), with offset + count computed without wrap-around.
      It succeeds when the requested range lies inside the view, or when count
      is npos and offset is at most the size (then it runs to the end); every
      other request is out of range. */
  function Substr(v: StringView, offset: SizeT, count: SizeT): (r: Result<StringView>)
    ensures r.Ok? <==> offset + count <= v.Size() || (count == NPOS && offset <= v.Size())
    ensures r.Ok? ==> (r.value.start == v.start + offset
                       && r.value.chars == v.chars[offset..offset + Min(count, v.Size() - offset)])
    ensures r.Err? ==> r.error == OutOfRange
    decreases if offset + count <= v.Size() then 0 else 1
  {
    if offset + count <= v.Size() then
      Ok(StringView(v.start + offset, v.chars[offset..offset + count]))
    else if count == NPOS then
      if offset <= v.Size() then Substr(v, offset, v.Size() - offset) else Err(OutOfRange)
    else
      Err(OutOfRange)
  }

  /** The range arithmetic of substr exactly as the source writes it, on
      size_t values: offset + count wraps modulo 2^64. The result is the
      offset and the size of the view the source would construct. */
  function SubstrAsWritten(size: SizeT, offset: SizeT, count: SizeT): (r: Result<(nat, nat)>)
    ensures r.Err? <==> (offset + count) % SIZE_MOD > size && count != NPOS
    ensures r.Ok? ==> r.value.0 == offset && (offset + r.value.1) % SIZE_MOD <= size
    decreases if (offset + count) % SIZE_MOD <= size then 0 else 1
  {
    if (offset + count) % SIZE_MOD <= size then
      Ok((offset, count))
    else if count == NPOS then
      var rest := (size - offset) % SIZE_MOD;
      assert (offset + rest) % SIZE_MOD == size by { WrappedRemainder(size, offset); }
      SubstrAsWritten(size, offset, rest)
    else
      Err(OutOfRange)
  }

  lemma WrappedRemainder(size: SizeT, offset: SizeT)
    ensures (offset + (size - offset) % SIZE_MOD) % SIZE_MOD == size
  {
    if offset <= size {
      assert (size - offset) % SIZE_MOD == size - offset;
    } else {
      assert (size - offset) % SIZE_MOD == size - offset + SIZE_MOD;
    }
  }

  /** Where the sum does not wrap, the source's arithmetic agrees with Substr. */
  lemma SubstrAsWrittenAgrees(v: StringView, offset: SizeT, count: SizeT)
    requires offset + count < SIZE_MOD
    ensures var w := SubstrAsWritten(v.Size(), offset, count);
            var c := Substr(v, offset, count);
            w.Ok? == c.Ok? && (c.Ok? ==> w.value == (offset, c.value.Size()))
  {
    if offset + count > v.Size() && count == NPOS {
      WrappedRemainder(v.Size(), offset);
    }
  }

  /** With npos as the count and any offset above 0, the sum wraps: the
      source never throws and builds a view that reaches past the end of the
      original, while Substr keeps inside it. */
  lemma SubstrAsWrittenWraps(size: SizeT, offset: SizeT)
    requires 0 < offset
    ensures var w := SubstrAsWritten(size, offset, NPOS);
            w.Ok? && w.value.0 == offset && offset + w.value.1 > size
  {
    assert (offset + NPOS) % SIZE_MOD == offset - 1;
    if offset - 1 > size {
      WrappedRemainder(size, offset);
      assert (size - offset) % SIZE_MOD == size - offset + SIZE_MOD;
    }
  }

  // ----------------------------------------------------------------- split

  /** split(pos): below the size, the characters before pos and the ones after
      it (the character at pos belongs to neither); at the size or at npos, the
      whole view and an empty one; anything else is out of range. */
  function Split(v: StringView, pos: SizeT): (r: Result<(StringView, StringView)>)
    ensures r.Ok? <==> pos <= v.Size() || pos == NPOS
    ensures r.Ok? && pos < v.Size() ==>
              r.value.0.chars + [v.chars[pos]] + r.value.1.chars == v.chars
              && r.value.0.Size() == pos && r.value.1.Size() == v.Size() - pos - 1
              && r.value.0.start == v.start && r.value.1.start == v.start + pos + 1
    ensures r.Ok? && pos >= v.Size() ==> r.value == (v, EmptyView)
    ensures r.Err? ==> r.error == OutOfRange
  {
    if pos < v.Size() then
      Ok((StringView(v.start, v.chars[..pos]), StringView(v.start + pos + 1, v.chars[pos + 1..])))
    else if pos == v.Size() || pos == NPOS then
      Ok((v, EmptyView))
    else
      Err(OutOfRange)
  }

  // ---------------------------------------------------------------- search

  /** std::find_if over s[i..]: the least index j >= i where p holds, or |s|
      when there is none. */
  function FirstFrom(s: seq<char>, p: char -> bool, i: nat): (j: nat)
    requires i <= |s|
    ensures i <= j <= |s|
    ensures j < |s| ==> p(s[j])
    ensures forall k :: i <= k < j ==> !p(s[k])
    decreases |s| - i
  {
    if i == |s| || p(s[i]) then i else FirstFrom(s, p, i + 1)
  }

  /** find_if(p, startPos): the least index at or after startPos whose
      character satisfies p, or npos when there is none (always npos when
      startPos is not below the size). */
  function FindIf(v: StringView, p: char -> bool, startPos: SizeT): (r: SizeT)
    ensures r == NPOS || (startPos <= r < v.Size() && p(v.chars[r]))
    ensures r != NPOS ==> forall k :: startPos <= k < r ==> !p(v.chars[k])
    ensures r == NPOS <==> forall k :: startPos <= k < v.Size() ==> !p(v.chars[k])
  {
    if startPos >= v.Size() then
      NPOS
    else
      var pos := FirstFrom(v.chars, p, startPos);
      if pos < v.Size() then pos else NPOS
  }

  /** find(c, startPos): the least index at or after startPos holding c, or
      npos when there is none. */
  function Find(v: StringView, c: char, startPos: SizeT): (r: SizeT)
    ensures r == NPOS || (startPos <= r < v.Size() && v.chars[r] == c)
    ensures r != NPOS ==> c !in v.chars[startPos..r]
    ensures r == NPOS <==> startPos >= v.Size() || c !in v.chars[startPos..]
  {
    if startPos >= v.Size() then
      NPOS
    else
      var pos := FirstFrom(v.chars, x => x == c, startPos);
      if pos < v.Size() then pos else NPOS
  }

  /** substr_sentinel as the source writes it: the position find returns is
      counted from the start of the view, but substr takes it as a count.
      This calls the corrected Substr, so it is the source's behaviour only
      where offset + count does not wrap in size_t. When the sentinel is found
      both are below the size, so that holds for every view shorter than 2^63.
      When the sentinel is not found, or offset is 0, it gives the intended
      result. */
  function SubstrSentinelAsWritten(v: StringView, offset: SizeT, sentinel: char): (r: Result<StringView>)
    ensures Find(v, sentinel, offset) == NPOS ==> r == SubstrSentinel(v, offset, sentinel)
    ensures offset == 0 ==> r == SubstrSentinel(v, offset, sentinel)
  {
    Substr(v, offset, Find(v, sentinel, offset))
  }

  /** When the sentinel is found and offset is above 0, the source's result is
      not the text up to the sentinel: either the call throws, or the view is
      as long as the sentinel's absolute position. */
  lemma SubstrSentinelAsWrittenMiscounts(v: StringView, offset: SizeT, sentinel: char)
    requires 0 < offset && Find(v, sentinel, offset) != NPOS
    ensures var p := Find(v, sentinel, offset);
            var w := SubstrSentinelAsWritten(v, offset, sentinel);
            (w.Ok? <==> offset + p <= v.Size())
            && (w.Ok? ==> w.value.Size() == p && sentinel in w.value.chars)
            && w != SubstrSentinel(v, offset, sentinel)
  {
    var p := Find(v, sentinel, offset);
    var w := SubstrSentinelAsWritten(v, offset, sentinel);
    if w.Ok? {
      assert w.value.chars[p - offset] == v.chars[p];
    }
  }

  /** substr_sentinel(offset, sentinel) as intended: the characters from
      offset up to, not including, the first sentinel at or after offset, or
      up to the end when there is none; out of range when offset exceeds the
      size. */
  function SubstrSentinel(v: StringView, offset: SizeT, sentinel: char): (r: Result<StringView>)
    ensures r.Ok? <==> offset <= v.Size()
    ensures r.Err? ==> r.error == OutOfRange
    ensures r.Ok? ==> (r.value.start == v.start + offset
                       && offset + r.value.Size() <= v.Size()
                       && r.value.chars == v.chars[offset..offset + r.value.Size()]
                       && sentinel !in r.value.chars
                       && (offset + r.value.Size() == v.Size() || v.chars[offset + r.value.Size()] == sentinel))
  {
    var p := Find(v, sentinel, offset);
    if p == NPOS then Substr(v, offset, NPOS) else Substr(v, offset, p - offset)
  }

  // ------------------------------------------------------------ comparison

  /** std::char_traits<char>::compare(a, b, n): the sign of the first
      difference among the first n characters, 0 when they agree. */
  function TraitsCompare(a: seq<char>, b: seq<char>, n: nat): (r: int)
    requires n <= |a| && n <= |b|
    ensures -1 <= r <= 1
    ensures r == 0 <==> a[..n] == b[..n]
    decreases n
  {
    if n == 0 then 0
    else if a[0] < b[0] then -1
    else if b[0] < a[0] then 1
    else
      var t := TraitsCompare(a[1..], b[1..], n - 1);
      assert a[..n] == [a[0]] + a[1..][..n - 1];
      assert b[..n] == [b[0]] + b[1..][..n - 1];
      t
  }

  /** The part of compare after the pointer shortcut: the common prefix first,
      then the sizes. */
  function CompareChars(a: seq<char>, b: seq<char>): int
  {
    var ret := TraitsCompare(a, b, Min(|a|, |b|));
    if ret == 0 then
      if |a| < |b| then -1 else if |a| > |b| then 1 else 0
    else
      ret
  }

  /** Lexicographic order on character sequences: the reference that
      compare is measured against. */
  predicate LexLess(a: seq<char>, b: seq<char>)
  {
    if a == [] then b != []
    else if b == [] then false
    else a[0] < b[0] || (a[0] == b[0] && LexLess(a[1..], b[1..]))
  }

  lemma {:induction false} CompareCharsIsLexicographic(a: seq<char>, b: seq<char>)
    ensures CompareChars(a, b) < 0 <==> LexLess(a, b)
    ensures CompareChars(a, b) == 0 <==> a == b
    ensures CompareChars(a, b) > 0 <==> LexLess(b, a)
    decreases |a|
  {
    if a == [] || b == [] {
    } else if a[0] != b[0] {
    } else {
      CompareCharsIsLexicographic(a[1..], b[1..]);
      assert a == [a[0]] + a[1..] && b == [b[0]] + b[1..];
    }
  }

  /** Two views that start at the same address look at the same memory, so one
      is a prefix of the other. */
  predicate Coherent(l: StringView, r: StringView)
  {
    l.start == r.start ==> l.chars <= r.chars || r.chars <= l.chars
  }

  /** compare as the source writes it: the shortcut tests l.size() against
      itself, so views with the same start compare equal whatever their sizes. */
  function CompareAsWritten(l: StringView, r: StringView): (c: int)
    ensures l.start == r.start ==> c == 0
    ensures l.start != r.start ==> c == Compare(l, r)
  {
    if l.start == r.start && l.Size() == l.Size() then 0 else CompareChars(l.chars, r.chars)
  }

  /** With a shared start and a proper prefix, the source reports equality
      where the corrected comparison reports "less". */
  lemma CompareAsWrittenIgnoresSize(l: StringView, r: StringView)
    requires l.start == r.start && l.chars < r.chars
    ensures Coherent(l, r)
    ensures CompareAsWritten(l, r) == 0 && Compare(l, r) == -1
  {
    assert r.chars[..l.Size()] == l.chars;
  }

  /** compare(l, r): 0 without looking at the characters when both views have
      the same start and size; otherwise the common prefix decides, and a
      proper prefix is less. */
  function Compare(l: StringView, r: StringView): (c: int)
    ensures -1 <= c <= 1
    ensures Coherent(l, r) ==> (c < 0 <==> LexLess(l.chars, r.chars))
    ensures Coherent(l, r) ==> (c == 0 <==> l.chars == r.chars)
    ensures Coherent(l, r) ==> (c > 0 <==> LexLess(r.chars, l.chars))
  {
    CompareCharsIsLexicographic(l.chars, r.chars);
    if l.start == r.start && l.Size() == r.Size() then 0 else CompareChars(l.chars, r.chars)
  }

  /** operator==: compare gives 0; on coherent views, equal contents. */
  predicate Equal(l: StringView, r: StringView)
    ensures Coherent(l, r) ==> (Equal(l, r) <==> l.chars == r.chars)
  {
    Compare(l, r) == 0
  }

  /** operator!=: not ==; on coherent views, different contents. */
  predicate NotEqual(l: StringView, r: StringView)
    ensures Coherent(l, r) ==> (NotEqual(l, r) <==> l.chars != r.chars)
  {
    !Equal(l, r)
  }

  /** operator<: compare is negative; on coherent views, lexicographically less. */
  predicate Less(l: StringView, r: StringView)
    ensures Coherent(l, r) ==> (Less(l, r) <==> LexLess(l.chars, r.chars))
  {
    Compare(l, r) < 0
  }

  /** operator>: the swapped <. */
  predicate Greater(l: StringView, r: StringView)
    ensures Coherent(l, r) ==> (Greater(l, r) <==> LexLess(r.chars, l.chars))
  {
    Less(r, l)
  }

  /** operator<=: not >. */
  predicate LessEq(l: StringView, r: StringView)
    ensures Coherent(l, r) ==> (LessEq(l, r) <==> LexLess(l.chars, r.chars) || l.chars == r.chars)
  {
    CompareCharsIsLexicographic(r.chars, l.chars);
    !Greater(l, r)
  }

  /** operator>=: not <. */
  predicate GreaterEq(l: StringView, r: StringView)
    ensures Coherent(l, r) ==> (GreaterEq(l, r) <==> LexLess(r.chars, l.chars) || l.chars == r.chars)
  {
    CompareCharsIsLexicographic(l.chars, r.chars);
    !Less(l, r)
  }

  /** operator== and operator< as the source writes them, over its compare. */
  predicate EqualAsWritten(l: StringView, r: StringView) { CompareAsWritten(l, r) == 0 }
  predicate LessAsWritten(l: StringView, r: StringView) { CompareAsWritten(l, r) < 0 }

  /** Over the source's compare, == holds between views of different contents
      and < is not transitive, although all the views involved are coherent:
      "a" and "ab" share a start, "aa" starts elsewhere. */
  lemma OperatorsAsWrittenMisorder()
    ensures var a, b, c := StringView(1, "a"), StringView(2, "aa"), StringView(1, "ab");
            Coherent(a, b) && Coherent(b, c) && Coherent(a, c)
            && EqualAsWritten(a, c) && a.chars != c.chars
            && LessAsWritten(a, b) && LessAsWritten(b, c) && !LessAsWritten(a, c)
  {
    var a, b, c := StringView(1, "a"), StringView(2, "aa"), StringView(1, "ab");
    CompareCharsIsLexicographic(a.chars, b.chars);
    CompareCharsIsLexicographic(b.chars, c.chars);
  }

  lemma {:induction false} LexLessIrreflexive(a: seq<char>)
    ensures !LexLess(a, a)
    decreases |a|
  {
    if a != [] { LexLessIrreflexive(a[1..]); }
  }

  lemma {:induction false} LexLessTransitive(a: seq<char>, b: seq<char>, c: seq<char>)
    requires LexLess(a, b) && LexLess(b, c)
    ensures LexLess(a, c)
    decreases |a|
  {
    if a != [] && a[0] == b[0] && b[0] == c[0] {
      LexLessTransitive(a[1..], b[1..], c[1..]);
    }
  }

  lemma {:induction false} LexLessTrichotomy(a: seq<char>, b: seq<char>)
    ensures LexLess(a, b) || a == b || LexLess(b, a)
    decreases |a|
  {
    if a != [] && b != [] && a[0] == b[0] {
      LexLessTrichotomy(a[1..], b[1..]);
      assert a == [a[0]] + a[1..] && b == [b[0]] + b[1..];
    }
  }

  /** operator< is a strict total order on the contents of pairwise coherent
      views. */
  lemma LessIsStrictTotalOrder(a: StringView, b: StringView, c: StringView)
    requires Coherent(a, b) && Coherent(b, c) && Coherent(a, c)
    ensures !Less(a, a)
    ensures Less(a, b) && Less(b, c) ==> Less(a, c)
    ensures Less(a, b) || Equal(a, b) || Less(b, a)
  {
    LexLessIrreflexive(a.chars);
    if Less(a, b) && Less(b, c) { LexLessTransitive(a.chars, b.chars, c.chars); }
    LexLessTrichotomy(a.chars, b.chars);
  }
}
