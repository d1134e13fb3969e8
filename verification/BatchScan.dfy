/** The batch loop: single fetches, each continuing after the last row, until the scan is done. */
module BatchScan {
  import opened Int32
  import opened MappedRange

  /**
   The server decides how many of the available rows a fetch returns and whether it says
   that there are more. It may answer differently on every iteration.
   */
  type Server = (nat, nat, nat) -> (nat, bool)

  /** A fetch never exceeds what is there or what was asked; it denies more only at one of those ends. */
  ghost predicate Legal(serve: Server) {
    forall iteration, available, requested :: LegalAnswer(serve(iteration, available, requested), available, requested)
  }

  predicate LegalAnswer(answer: (nat, bool), available: nat, requested: nat) {
    && answer.0 <= available
    && (requested > 0 ==> answer.0 <= requested)
    && (!answer.1 ==> answer.0 == available || (requested > 0 && answer.0 == requested))
  }

  /** The server never claims there is more while returning nothing of what is there. */
  ghost predicate Progresses(serve: Server) {
    forall iteration, available, requested :: available > 0 ==> serve(iteration, available, requested).0 > 0
  }

  /** The row recorded for a fetch. A requested count of zero asks for everything. */
  datatype Fetch = Fetch(iteration: nat, requested: nat, returned: nat, more: bool)

  function Returned(batches: seq<Fetch>): nat {
    if batches == [] then 0 else Returned(batches[..|batches| - 1]) + batches[|batches| - 1].returned
  }

  /** The last fetch came back empty although rows were left. */
  predicate Stalled(batches: seq<Fetch>, rows: nat, expected: nat) {
    batches != [] && batches[|batches| - 1].returned == 0 && rows < expected
  }

  /** Each fetch asks for what is still missing, and for at least one row when there is a limit. */
  ghost predicate WellRequested(batches: seq<Fetch>, limit: nat) {
    match |batches|
    case 0 => true
    case n =>
      var init, last := batches[..n - 1], batches[n - 1];
      && WellRequested(init, limit)
      && last.iteration == n
      && last.requested == (if limit > 0 then limit - Returned(init) else 0)
      && (limit > 0 ==> last.requested > 0)
  }

  /** Every one of the fetches returned rows and announced more. */
  ghost predicate Continued(batches: seq<Fetch>) {
    forall i :: 0 <= i < |batches| ==> batches[i].returned > 0 && batches[i].more
  }

  lemma RestOfWindow(keys: seq<Key>, lo: nat, hi: nat, c: nat)
    requires hi <= |keys| && 0 < c <= |Between(keys, lo, hi)|
    ensures lo + c <= hi && Between(keys, lo + c, hi) == Between(keys, lo, hi)[c..]
    ensures Reversed(Between(keys, lo, hi - c)) == Reversed(Between(keys, lo, hi))[c..]
    ensures Between(keys, lo, hi)[c - 1] == keys[lo + c - 1]
    ensures Reversed(Between(keys, lo, hi))[c - 1] == keys[hi - c]
  {
    var w := Reversed(Between(keys, lo, hi));
    var next := Reversed(Between(keys, lo, hi - c));
    assert forall i :: 0 <= i < |next| ==> next[i] == w[c + i];
  }

  /** One window of the scan ends where the next one, anchored at its last row, begins. */
  lemma Continue(keys: seq<Key>, begin: Selector, end: Selector, reverse: bool, c: nat)
    requires Sorted(keys) && 0 < c <= |Scan(keys, begin, end, reverse)|
    ensures var w := Scan(keys, begin, end, reverse);
            if reverse
            then Scan(keys, begin, FirstGreaterOrEqual(w[c - 1]), reverse) == w[c..]
            else Scan(keys, FirstGreaterThan(w[c - 1]), end, reverse) == w[c..]
  {
    hide Resolve, Between, Less, Sorted;
    var lo, hi := Resolve(keys, begin), Resolve(keys, end);
    RestOfWindow(keys, lo, hi, c);
    if reverse { ResolveAtKey(keys, hi - c); } else { ResolveAtKey(keys, lo + c - 1); }
  }

  /**
   The loop of the batch reader. The rows are always a prefix of the requested slice; they
   are all of it unless the loop gave up on an empty batch. It ends for every legal server,
   and a limited scan never asks for zero rows, which would lift the limit.
   */
  method ScanBatches(keys: seq<Key>, begin: Selector, end: Selector, limit: nat, reverse: bool, serve: Server)
    returns (rows: seq<Key>, batches: seq<Fetch>)
    requires Sorted(keys) && Legal(serve)
    ensures rows <= Take(limit, Scan(keys, begin, end, reverse))
    ensures rows == Take(limit, Scan(keys, begin, end, reverse))
            <==> !Stalled(batches, |rows|, |Take(limit, Scan(keys, begin, end, reverse))|)
    ensures Progresses(serve) ==> rows == Take(limit, Scan(keys, begin, end, reverse))
    ensures batches != [] && Returned(batches) == |rows|
    ensures WellRequested(batches, limit) && Continued(batches[..|batches| - 1])
  {
    hide Scan, Sorted;
    ghost var all := Scan(keys, begin, end, reverse);
    rows, batches := [], [];
    var b, e, remaining, iteration := begin, end, limit, 1;
    while true
      invariant iteration == |batches| + 1 && Returned(batches) == |rows|
      invariant WellRequested(batches, limit) && Continued(batches)
      invariant |rows| <= |all| && rows == all[..|rows|]
      invariant Scan(keys, b, e, reverse) == all[|rows|..]
      invariant if limit > 0 then remaining == limit - |rows| && remaining > 0 else remaining == 0
      decreases |all| - |rows|
    {
      var window := Scan(keys, b, e, reverse);
      var (count, more) := serve(iteration, |window|, remaining);
      assert LegalAnswer((count, more), |window|, remaining);
      var batch := Fetch(iteration, remaining, count, more);
      assert (batches + [batch])[..|batches|] == batches;
      batches := batches + [batch];
      assert all[..|rows|] + window[..count] == all[..|rows| + count];
      rows := rows + window[..count];
      if limit > 0 { remaining := remaining - count; }
      if count == 0 || !more || (limit > 0 && remaining <= 0) {
        break;
      }
      Continue(keys, b, e, reverse, count);
      assert window[count..] == all[|rows|..];
      if reverse {
        e := FirstGreaterOrEqual(window[count - 1]);
      } else {
        b := FirstGreaterThan(window[count - 1]);
      }
      iteration := iteration + 1;
    }
  }

  /** The scan with skip: selector offsets for the skip, then the batch loop. */
  method ScanWithSkip(keys: seq<Key>, begin: Key, end: Key, limit: nat, reverse: bool, skip: int,
                      emptyBegin: bool, emptyEnd: bool, serve: Server)
    returns (batchRows: seq<Key>, batches: seq<Fetch>)
    requires Sorted(keys) && Legal(serve) && MIN_INT <= skip <= MAX_INT
    ensures !SkipWraps(reverse, skip) && Progresses(serve) ==>
      batchRows == Take(limit, Drop(Positive(skip), Scan(keys, Anchor(begin, emptyBegin), Anchor(end, emptyEnd), reverse)))
    ensures !SkipWraps(reverse, skip) ==>
      batchRows <= Take(limit, Drop(Positive(skip), Scan(keys, Anchor(begin, emptyBegin), Anchor(end, emptyEnd), reverse)))
    ensures WellRequested(batches, limit) && Returned(batches) == |batchRows|
    ensures var (b, e) := InitialSelectors(begin, end, reverse, skip, emptyBegin, emptyEnd);
      var slice := Take(limit, Scan(keys, b, e, reverse));
      batchRows <= slice && (batchRows == slice <==> !Stalled(batches, |batchRows|, |slice|))
  {
    hide Scan, Stalled;
    var (b, e) := InitialSelectors(begin, end, reverse, skip, emptyBegin, emptyEnd);
    if !SkipWraps(reverse, skip) { SkipDrops(keys, begin, end, reverse, skip, emptyBegin, emptyEnd); }
    batchRows, batches := ScanBatches(keys, b, e, limit, reverse, serve);
  }
}
