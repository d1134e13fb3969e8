/** Key selectors, skip by selector offset, and reading a range in server-sized batches. */
module MappedRange {
  import opened Int32

  type Byte = b: nat | b < 256
  type Key = seq<Byte>

  // ---------------------------------------------------------------- key order

  /** Unsigned lexicographic order; a proper prefix comes first. */
  predicate Less(a: Key, b: Key) {
    b != [] && (a == [] || a[0] < b[0] || (a[0] == b[0] && Less(a[1..], b[1..])))
  }

  lemma {:induction false} LessTrichotomy(a: Key, b: Key)
    ensures Less(a, b) || a == b || Less(b, a)
    ensures !(Less(a, b) && Less(b, a)) && !Less(a, a)
  {
    if a != [] {
      LessTrichotomy(a[1..], a[1..]);
      if b != [] {
        LessTrichotomy(a[1..], b[1..]);
        assert a == [a[0]] + a[1..] && b == [b[0]] + b[1..];
      }
    }
  }

  lemma {:induction false} LessTransitive(a: Key, b: Key, c: Key)
    requires Less(a, b) && Less(b, c)
    ensures Less(a, c)
  {
    if a != [] && a[0] == b[0] == c[0] { LessTransitive(a[1..], b[1..], c[1..]); }
  }

  ghost predicate Sorted(keys: seq<Key>) {
    forall i, j :: 0 <= i < j < |keys| ==> Less(keys[i], keys[j])
  }

  // ---------------------------------------------------------------- selectors

  datatype Selector = Selector(key: Key, orEqual: bool, offset: int) {
    /** Java's `KeySelector.add`, an `int` sum. */
    function Add(n: int): Selector { Selector(key, orEqual, Wrap(offset + n)) }
  }

  function FirstGreaterOrEqual(k: Key): Selector { Selector(k, false, 1) }

  function FirstGreaterThan(k: Key): Selector { Selector(k, true, 1) }

  predicate Before(k: Key, sel: Key, orEqual: bool) { Less(k, sel) || (orEqual && k == sel) }

  /** How many keys lie before the selector's key (or at it, if `orEqual`). */
  function CountBefore(keys: seq<Key>, sel: Key, orEqual: bool): (n: nat)
    ensures n <= |keys|
  {
    if keys == [] then 0
    else CountBefore(keys[..|keys| - 1], sel, orEqual) + if Before(keys[|keys| - 1], sel, orEqual) then 1 else 0
  }

  function Clamp(n: int, top: nat): (r: nat)
    ensures r <= top
  {
    if n < 0 then 0 else if n > top then top else n
  }

  /** The position a selector resolves to among all keys; past either end it sticks there. */
  function Resolve(keys: seq<Key>, s: Selector): (r: nat)
    ensures r <= |keys|
  {
    Clamp(CountBefore(keys, s.key, s.orEqual) - 1 + s.offset, |keys|)
  }

  /** In a sorted set the keys before a selector are an initial segment. */
  lemma {:induction false} CountBeforeIsPrefix(keys: seq<Key>, sel: Key, orEqual: bool)
    requires Sorted(keys)
    ensures forall i :: 0 <= i < |keys| ==> (Before(keys[i], sel, orEqual) <==> i < CountBefore(keys, sel, orEqual))
  {
    if keys != [] {
      var k := |keys| - 1;
      var init, last := keys[..k], keys[k];
      CountBeforeIsPrefix(init, sel, orEqual);
      assert forall i :: 0 <= i < k ==> init[i] == keys[i];
      if Before(last, sel, orEqual) {
        forall i | 0 <= i < k ensures Before(keys[i], sel, orEqual) {
          assert Less(keys[i], last);
          if Less(last, sel) { LessTransitive(keys[i], last, sel); }
        }
        if k > 0 { assert Before(init[k - 1], sel, orEqual); }
      }
    }
  }

  /** A continuation selector anchored at a present key resolves next to it. */
  lemma ResolveAtKey(keys: seq<Key>, i: nat)
    requires Sorted(keys) && i < |keys|
    ensures Resolve(keys, FirstGreaterOrEqual(keys[i])) == i
    ensures Resolve(keys, FirstGreaterThan(keys[i])) == i + 1
  {
    CountBeforeIsPrefix(keys, keys[i], false);
    CountBeforeIsPrefix(keys, keys[i], true);
    LessTrichotomy(keys[i], keys[i]);
    if i + 1 < |keys| { LessTrichotomy(keys[i + 1], keys[i]); assert Less(keys[i], keys[i + 1]); }
    if i > 0 { assert Less(keys[i - 1], keys[i]); }
    assert Before(keys[i], keys[i], true) && !Before(keys[i], keys[i], false);
  }

  // ---------------------------------------------------------------- windows

  function Reversed<T>(s: seq<T>): (r: seq<T>)
    ensures |r| == |s| && forall i :: 0 <= i < |s| ==> r[i] == s[|s| - 1 - i]
  {
    seq(|s|, i requires 0 <= i < |s| => s[|s| - 1 - i])
  }

  function Between(keys: seq<Key>, lo: nat, hi: nat): seq<Key>
    requires hi <= |keys|
  {
    if lo < hi then keys[lo..hi] else []
  }

  /** The rows a request covers, in scan order. */
  function Scan(keys: seq<Key>, begin: Selector, end: Selector, reverse: bool): seq<Key> {
    var rows := Between(keys, Resolve(keys, begin), Resolve(keys, end));
    if reverse then Reversed(rows) else rows
  }

  function Drop<T>(n: nat, s: seq<T>): seq<T> { if n < |s| then s[n..] else [] }

  /** The first `limit` elements; a limit of zero means no limit. */
  function Take<T>(limit: nat, s: seq<T>): seq<T> { if 0 < limit < |s| then s[..limit] else s }

  // ---------------------------------------------------------------- skip

  /** The selectors of a request without a skip: either end may be anchored at the empty key. */
  function Anchor(key: Key, empty: bool): Selector { FirstGreaterOrEqual(if empty then [] else key) }

  function InitialSelectors(begin: Key, end: Key, reverse: bool, skip: int, emptyBegin: bool, emptyEnd: bool)
    : (Selector, Selector)
  {
    var b, e := Anchor(begin, emptyBegin), Anchor(end, emptyEnd);
    if skip <= 0 then (b, e)
    else if reverse then (b, e.Add(-skip)) else (b.Add(skip), e)
  }

  /** The Go selectors: the skip saturates one below the largest `int`. */
  function SaturatedSelectors(begin: Key, end: Key, reverse: bool, skip: int, emptyBegin: bool, emptyEnd: bool)
    : (Selector, Selector)
  {
    InitialSelectors(begin, end, reverse, if skip < MAX_INT then skip else MAX_INT - 1, emptyBegin, emptyEnd)
  }

  function Positive(n: int): nat { if n < 0 then 0 else n }

  /** The forward skip of the largest `int` wraps the offset to the smallest one. */
  predicate SkipWraps(reverse: bool, skip: int) { !reverse && skip == MAX_INT }

  /** Without the wrap, offsetting the selector drops exactly `skip` rows of the scan. */
  lemma SkipDrops(keys: seq<Key>, b: Key, e: Key, reverse: bool, skip: int, eb: bool, ee: bool)
    requires MIN_INT <= skip <= MAX_INT && !SkipWraps(reverse, skip)
    ensures var (begin, end) := InitialSelectors(b, e, reverse, skip, eb, ee);
            Scan(keys, begin, end, reverse) ==
            Drop(Positive(skip), Scan(keys, Anchor(b, eb), Anchor(e, ee), reverse))
  {
    var lo, hi := Resolve(keys, Anchor(b, eb)), Resolve(keys, Anchor(e, ee));
    var (begin, end) := InitialSelectors(b, e, reverse, skip, eb, ee);
    if skip > 0 {
      if reverse {
        assert Resolve(keys, end) == Clamp(hi - skip, |keys|);
        ReverseDrop(keys, lo, hi, skip);
      } else {
        assert Resolve(keys, begin) == Clamp(lo + skip, |keys|);
      }
    }
  }

  lemma ReverseDrop(keys: seq<Key>, lo: nat, hi: nat, skip: nat)
    requires hi <= |keys|
    ensures Reversed(Between(keys, lo, Clamp(hi - skip, |keys|))) == Drop(skip, Reversed(Between(keys, lo, hi)))
  {
    var all, some := Reversed(Between(keys, lo, hi)), Reversed(Between(keys, lo, Clamp(hi - skip, |keys|)));
    assert forall i :: 0 <= i < |some| ==> some[i] == all[skip + i];
  }

  /**
   The skip is exact if and only if the offset does not wrap, or the wrapped window is
   empty: otherwise the scan starts far before the range and returns rows that precede it.
   */
  lemma SkipExact(keys: seq<Key>, b: Key, e: Key, reverse: bool, skip: int, eb: bool, ee: bool)
    requires MIN_INT <= skip <= MAX_INT
    ensures var (begin, end) := InitialSelectors(b, e, reverse, skip, eb, ee);
            var lo, hi := Resolve(keys, Anchor(b, eb)), Resolve(keys, Anchor(e, ee));
            (Scan(keys, begin, end, reverse) ==
             Drop(Positive(skip), Scan(keys, Anchor(b, eb), Anchor(e, ee), reverse)))
            <==> !SkipWraps(reverse, skip) || hi <= Clamp(lo - 1 + MIN_INT, |keys|)
  {
    if SkipWraps(reverse, skip) {
      var (begin, end) := InitialSelectors(b, e, reverse, skip, eb, ee);
      assert begin.offset == MIN_INT;
    } else {
      SkipDrops(keys, b, e, reverse, skip, eb, ee);
    }
  }

  /** The wrapped skip scans everything before the end of the range, from the very first key on. */
  lemma WrappedSkipScans(keys: seq<Key>, b: Key, e: Key, eb: bool, ee: bool)
    requires |keys| <= MAX_INT
    ensures var (begin, end) := InitialSelectors(b, e, false, MAX_INT, eb, ee);
            Scan(keys, begin, end, false) == keys[..Resolve(keys, Anchor(e, ee))]
  {
    var (begin, end) := InitialSelectors(b, e, false, MAX_INT, eb, ee);
    assert begin.offset == MIN_INT;
    assert Resolve(keys, begin) == 0;
  }

  /** A key below the range comes back where the whole range should have been skipped. */
  lemma SkipReturnsEarlierRows()
    ensures Sorted([[0], [1]])
    ensures Scan([[0], [1]], Anchor([1], false), Anchor([2], false), false) == [[1]]
    ensures var (begin, end) := InitialSelectors([1], [2], false, MAX_INT, false, false);
            Scan([[0], [1]], begin, end, false) == [[0], [1]]
  {
    var keys: seq<Key> := [[0], [1]];
    assert keys[..1] == [[0]];
    assert CountBefore(keys, [1], false) == 1;
    assert CountBefore(keys, [2], false) == 2;
    WrappedSkipScans(keys, [1], [2], false, false);
  }

  /** The saturated skip is exact unless it saturates on a range with more rows than it can pass. */
  lemma SaturatedSkipExact(keys: seq<Key>, b: Key, e: Key, reverse: bool, skip: int, eb: bool, ee: bool)
    requires MIN_INT <= skip
    ensures var (begin, end) := SaturatedSelectors(b, e, reverse, skip, eb, ee);
            var all := Scan(keys, Anchor(b, eb), Anchor(e, ee), reverse);
            Scan(keys, begin, end, reverse) == Drop(Positive(skip), all) <==> skip < MAX_INT || |all| < MAX_INT
  {
    SkipDrops(keys, b, e, reverse, if skip < MAX_INT then skip else MAX_INT - 1, eb, ee);
  }
}
