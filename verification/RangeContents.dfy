/** Which keys a scan holds, with the key order written out on bytes. */
module RangeContents {
  import opened MappedRange

  /** `a` is a proper prefix of `b`, or smaller as a number at the first byte in which they differ. */
  ghost predicate BytesBelow(a: Key, b: Key) {
    || (|a| < |b| && a == b[..|a|])
    || exists i: nat :: FirstDifference(a, b, i) && a[i] as int < b[i] as int
  }

  ghost predicate FirstDifference(a: Key, b: Key, i: nat) {
    i < |a| && i < |b| && a[..i] == b[..i] && a[i] != b[i]
  }

  /** The key order is the unsigned order of bytes. */
  lemma {:induction false} OrderOfBytes(a: Key, b: Key)
    ensures Less(a, b) <==> BytesBelow(a, b)
  {
    if a != [] && b != [] && a[0] == b[0] {
      OrderOfBytes(a[1..], b[1..]);
      TailBelow(a, b);
    } else if a != [] && b != [] {
      assert FirstDifference(a, b, 0);
      forall i: nat | i <= |a| && i <= |b| && a[..i] == b[..i] ensures i == 0 { PrefixHeads(a, b, i); }
      assert a[..|a|] == a;
    }
  }

  lemma PrefixHeads(a: Key, b: Key, i: nat)
    requires i <= |a| && i <= |b| && a[..i] == b[..i]
    ensures i > 0 ==> a[0] == b[0]
  {
    if i > 0 { assert a[..i][0] == b[..i][0]; }
  }

  lemma TailBelow(a: Key, b: Key)
    requires a != [] && b != [] && a[0] == b[0]
    ensures BytesBelow(a, b) <==> BytesBelow(a[1..], b[1..])
  {
    var x, y := a[1..], b[1..];
    assert a == [a[0]] + x && b == [b[0]] + y;
    if |a| < |b| {
      assert b[..|a|] == [b[0]] + y[..|x|];
      assert a == b[..|a|] <==> x == y[..|x|];
    }
    forall i: nat | FirstDifference(x, y, i) ensures FirstDifference(a, b, i + 1) {
      assert a[..i + 1] == [a[0]] + x[..i] && b[..i + 1] == [b[0]] + y[..i];
    }
    forall i: nat | FirstDifference(a, b, i) ensures i > 0 && FirstDifference(x, y, i - 1) {
      assert x[..i - 1] == a[..i][1..] && y[..i - 1] == b[..i][1..];
    }
    if i: nat :| FirstDifference(x, y, i) && x[i] as int < y[i] as int { assert FirstDifference(a, b, i + 1); }
    if i: nat :| FirstDifference(a, b, i) && a[i] as int < b[i] as int { assert FirstDifference(x, y, i - 1); }
  }

  // ---------------------------------------------------------------- the contents of a scan

  /** A selector anchored at a key resolves between the keys below it and the others; at the empty key, before all. */
  lemma AnchorSplits(keys: seq<Key>, key: Key, empty: bool, i: nat)
    requires Sorted(keys) && i < |keys|
    ensures i < Resolve(keys, Anchor(key, empty)) <==> !empty && BytesBelow(keys[i], key)
  {
    hide BytesBelow, Less, Sorted;
    var anchor := if empty then [] else key;
    CountBeforeIsPrefix(keys, anchor, false);
    OrderOfBytes(keys[i], key);
    if empty { NothingBelowEmpty(keys[i]); }
  }

  lemma NothingBelowEmpty(k: Key)
    ensures !Less(k, [])
  {
  }

  /**
   A scan holds a key if and only if the key is stored, is not below the begin (which an
   empty anchor opens) and is below the end (which an empty anchor closes).
   */
  lemma ScanHolds(keys: seq<Key>, b: Key, e: Key, eb: bool, ee: bool, reverse: bool, k: Key)
    requires Sorted(keys)
    ensures k in Scan(keys, Anchor(b, eb), Anchor(e, ee), reverse) <==>
            k in keys && (eb || !BytesBelow(k, b)) && !ee && BytesBelow(k, e)
  {
    hide BytesBelow, Sorted, Resolve;
    var lo, hi := Resolve(keys, Anchor(b, eb)), Resolve(keys, Anchor(e, ee));
    var rows := Between(keys, lo, hi);
    assert k in Scan(keys, Anchor(b, eb), Anchor(e, ee), reverse) <==> k in rows by { ReversedHolds(rows, k); }
    forall i: nat | i < |keys| ensures lo <= i < hi <==> (eb || !BytesBelow(keys[i], b)) && !ee && BytesBelow(keys[i], e) {
      AnchorSplits(keys, b, eb, i);
      AnchorSplits(keys, e, ee, i);
    }
    if k in rows {
      var j :| 0 <= j < |rows| && rows[j] == k;
      assert keys[lo + j] == k;
    }
    if k in keys && (eb || !BytesBelow(k, b)) && !ee && BytesBelow(k, e) {
      var i :| 0 <= i < |keys| && keys[i] == k;
      assert rows[i - lo] == k;
    }
  }

  lemma ReversedHolds(rows: seq<Key>, k: Key)
    ensures k in Reversed(rows) <==> k in rows
  {
    if k in rows {
      var i :| 0 <= i < |rows| && rows[i] == k;
      assert Reversed(rows)[|rows| - 1 - i] == k;
    }
  }

  /** It holds them in the order of the scan, each once. */
  lemma ScanOrdered(keys: seq<Key>, b: Key, e: Key, eb: bool, ee: bool, i: nat, j: nat)
    requires Sorted(keys)
    ensures var forward := Scan(keys, Anchor(b, eb), Anchor(e, ee), false);
      && (i < j < |forward| ==> BytesBelow(forward[i], forward[j]))
      && Scan(keys, Anchor(b, eb), Anchor(e, ee), true) == Reversed(forward)
  {
    hide Resolve, BytesBelow;
    var forward := Scan(keys, Anchor(b, eb), Anchor(e, ee), false);
    if i < j < |forward| { OrderOfBytes(forward[i], forward[j]); }
  }
}
