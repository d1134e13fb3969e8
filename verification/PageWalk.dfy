/** The page walk: one transaction per page, each resuming from the page before. */
module PageWalk {
  import opened Wrappers

  /** Why a page ended; a page cut short by an exception has no reason. */
  datatype Reason = SourceExhausted | LimitReached | NoReason

  /** What the cursor of a page answers, call by call. A continuation is a position; none restarts the scan. */
  datatype Event<R> = Next(row: R) | NoNext(terminal: Terminal) | Throws

  datatype Terminal = Terminal(exhausted: bool, continuation: Option<nat>)

  type Events<!R> = nat -> Event<R>

  datatype Page<R> =
    Page(rows: seq<R>, reason: Reason, continuation: Option<nat>, repeats: seq<Terminal>, exception: bool)

  const MAX_PAGES: nat := 40
  const REPEATS: nat := 2

  function Position(continuation: Option<nat>): nat {
    match continuation
    case None => 0
    case Some(n) => n
  }

  function ReasonOf(t: Terminal): Reason { if t.exhausted then SourceExhausted else LimitReached }

  // ---------------------------------------------------------------- one page

  ghost predicate AllNext<R>(events: Events<R>, k: nat) {
    forall j :: 0 <= j < k ==> events(j).Next?
  }

  /** As long as it yields rows, the cursor reads on from its position; its end tells where it stands. */
  ghost predicate Scans<R>(full: seq<R>, from: nat, events: Events<R>) {
    forall k: nat :: AllNext(events, k) ==> ScansAt(full, from + k, events(k))
  }

  ghost predicate ScansAt<R>(full: seq<R>, position: nat, event: Event<R>) {
    match event
    case Next(row) => position < |full| && row == full[position]
    case NoNext(t) => if t.exhausted then position == |full| else Position(t.continuation) == position
    case Throws => true
  }

  /** The page's rows, then its end or an exception, then the end asked for twice more. */
  ghost predicate IsPage<R>(events: Events<R>, page: Page<R>) {
    var m := |page.rows|;
    && (forall k :: 0 <= k < m ==> events(k) == Next(page.rows[k]))
    && match events(m)
       case Next(_) => false
       case Throws => page.reason == NoReason && page.continuation == None && page.repeats == [] && page.exception
       case NoNext(t) =>
         && page.reason == ReasonOf(t) && page.continuation == t.continuation
         && |page.repeats| <= 2
         && (forall j :: 0 <= j < |page.repeats| ==> events(m + 1 + j) == NoNext(page.repeats[j]))
         && page.exception == (|page.repeats| < 2)
         && (page.exception ==> !events(m + 1 + |page.repeats|).NoNext?)
  }

  lemma RepeatAt<R>(events: Events<R>, page: Page<R>, j: nat)
    requires IsPage(events, page) && events(|page.rows|).NoNext?
    ensures j < |page.repeats| ==> events(|page.rows| + 1 + j).NoNext?
  {
    if j < |page.repeats| { assert events(|page.rows| + 1 + j) == NoNext(page.repeats[j]); }
  }

  /** The answers of the cursor determine the page. */
  lemma PageUnique<R(!new)>(events: Events<R>, a: Page<R>, b: Page<R>)
    requires IsPage(events, a) && IsPage(events, b)
    ensures a == b
  {
    assert |a.rows| == |b.rows|;
    assert a.rows == b.rows;
    if events(|a.rows|).NoNext? {
      RepeatAt(events, b, |a.repeats|);
      RepeatAt(events, a, |b.repeats|);
      assert a.repeats == b.repeats;
    }
  }

  /** A page reads on from its position, and its continuation resumes right after its rows. */
  ghost predicate ReadsOn<R>(full: seq<R>, from: nat, page: Page<R>) {
    var next := from + |page.rows|;
    && next <= |full| && page.rows == full[from..next]
    && (page.reason == SourceExhausted ==> next == |full|)
    && (page.reason == LimitReached ==> Position(page.continuation) == next)
  }

  method CollectRows<R(!new)>(ghost full: seq<R>, ghost from: nat, events: Events<R>) returns (rows: seq<R>)
    requires from <= |full| && Scans(full, from, events)
    ensures from + |rows| <= |full| && rows == full[from..from + |rows|]
    ensures forall k :: 0 <= k < |rows| ==> events(k) == Next(rows[k])
    ensures !events(|rows|).Next? && ScansAt(full, from + |rows|, events(|rows|))
  {
    rows := [];
    while events(|rows|).Next?
      invariant from + |rows| <= |full| && rows == full[from..from + |rows|]
      invariant forall k :: 0 <= k < |rows| ==> events(k) == Next(rows[k])
      decreases |full| - from - |rows|
    {
      assert AllNext(events, |rows|);
      rows := rows + [events(|rows|).row];
    }
    assert AllNext(events, |rows|);
  }

  method ReadPage<R(!new)>(ghost full: seq<R>, ghost from: nat, events: Events<R>) returns (page: Page<R>)
    requires from <= |full| && Scans(full, from, events)
    ensures IsPage(events, page) && ReadsOn(full, from, page)
  {
    hide Scans;
    var rows := CollectRows(full, from, events);
    var end := events(|rows|);
    if end.Throws? {
      return Page(rows, NoReason, None, [], true);
    }
    var repeats: seq<Terminal> := [];
    while |repeats| < REPEATS && events(|rows| + 1 + |repeats|).NoNext?
      invariant |repeats| <= REPEATS
      invariant forall j :: 0 <= j < |repeats| ==> events(|rows| + 1 + j) == NoNext(repeats[j])
    {
      repeats := repeats + [events(|rows| + 1 + |repeats|).terminal];
    }
    return Page(rows, ReasonOf(end.terminal), end.terminal.continuation, repeats, |repeats| < REPEATS);
  }

  // ---------------------------------------------------------------- the walk

  /** Every page's cursor scans on from the position it is opened at. */
  ghost predicate Serves<R>(full: seq<R>, open: (nat, Option<nat>) -> Events<R>) {
    forall n: nat, c :: Position(c) <= |full| ==> Scans(full, Position(c), open(n, c))
  }

  /** The walk goes no further than this page. */
  predicate Last<R>(page: Page<R>) {
    page.exception || page.reason == SourceExhausted || page.reason == NoReason
  }

  function Rows<R>(pages: seq<Page<R>>): seq<R> {
    if pages == [] then [] else Rows(pages[..|pages| - 1]) + pages[|pages| - 1].rows
  }

  /** What the next page resumes from. */
  function Resume<R>(start: Option<nat>, pages: seq<Page<R>>): Option<nat> {
    if pages == [] then start else pages[|pages| - 1].continuation
  }

  /** Each page was read from the continuation the page before it gave. */
  ghost predicate Chained<R>(open: (nat, Option<nat>) -> Events<R>, start: Option<nat>, pages: seq<Page<R>>) {
    pages == [] ||
    (var before := pages[..|pages| - 1];
     Chained(open, start, before) && IsPage(open(|before|, Resume(start, before)), pages[|pages| - 1]))
  }

  lemma Appended<R>(pages: seq<Page<R>>, page: Page<R>, open: (nat, Option<nat>) -> Events<R>, start: Option<nat>)
    requires Chained(open, start, pages) && IsPage(open(|pages|, Resume(start, pages)), page)
    ensures Rows(pages + [page]) == Rows(pages) + page.rows && Chained(open, start, pages + [page])
  {
    assert (pages + [page])[..|pages|] == pages;
  }

  /** A page that reads on extends a gapless stretch. */
  lemma Stretch<R>(full: seq<R>, start: nat, from: nat, page: Page<R>)
    requires start <= from && ReadsOn(full, from, page)
    ensures from + |page.rows| <= |full|
    ensures full[start..from] + page.rows == full[start..from + |page.rows|]
    ensures page.reason == SourceExhausted ==> from + |page.rows| == |full|
    ensures !Last(page) ==> Position(page.continuation) == from + |page.rows|
  {
  }

  /**
   At most 40 pages, whose rows are a gapless stretch of the single unlimited scan from
   the given position, and all the rest of it once the source reports its end.
   */
  method Walk<R(!new)>(ghost full: seq<R>, walk: bool, start: Option<nat>, open: (nat, Option<nat>) -> Events<R>)
    returns (pages: seq<Page<R>>)
    requires Position(start) <= |full| && Serves(full, open)
    ensures 1 <= |pages| <= 40 && Chained(open, start, pages)
    ensures forall i :: 0 <= i < |pages| - 1 ==> walk && !Last(pages[i])
    ensures !walk || Last(pages[|pages| - 1]) || |pages| == 40
    ensures Position(start) + |Rows(pages)| <= |full|
    ensures Rows(pages) == full[Position(start)..Position(start) + |Rows(pages)|]
    ensures pages[|pages| - 1].reason == SourceExhausted ==> Rows(pages) == full[Position(start)..]
    ensures start.None? ==> |Rows(pages)| <= |full| && Rows(pages) == full[..|Rows(pages)|]
    ensures start.None? && pages[|pages| - 1].reason == SourceExhausted ==> Rows(pages) == full
  {
    hide Rows, Scans, ReadsOn, Chained, Last, IsPage;
    pages := [];
    var continuation := start;
    assert Rows<R>([]) == [] && Chained(open, start, []) by { Nothing(open, start); }
    while true
      invariant |pages| < MAX_PAGES && Chained(open, start, pages)
      invariant forall i :: 0 <= i < |pages| ==> walk && !Last(pages[i])
      invariant continuation == Resume(start, pages)
      invariant Position(continuation) == Position(start) + |Rows(pages)| <= |full|
      invariant Rows(pages) == full[Position(start)..Position(continuation)]
      decreases MAX_PAGES - |pages|
    {
      var page := ReadPage(full, Position(continuation), open(|pages|, continuation));
      Stretch(full, Position(start), Position(continuation), page);
      Appended(pages, page, open, start);
      pages := pages + [page];
      if !walk || Last(page) || |pages| >= MAX_PAGES { break; }
      continuation := page.continuation;
    }
  }

  lemma Nothing<R>(open: (nat, Option<nat>) -> Events<R>, start: Option<nat>)
    ensures Rows<R>([]) == [] && Chained(open, start, [])
  {
  }
}
