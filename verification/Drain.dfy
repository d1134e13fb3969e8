/** The drain: one deferred task per transaction, until none is left or three failed. */
module Drain {

  /** What goes wrong in an attempt: nothing, the deferred work itself, or its commit. */
  datatype Fault = NoFault | TaskThrows(error: int) | CommitFails(error: int)

  datatype Result<T> = Ok(value: T) | Threw(error: int)

  datatype Entry = Executed(tasks: nat) | Exception(error: int)

  const MAX_ROUNDS: nat := 40
  const MAX_FAILURES: nat := 3

  /** A store, and the transaction open on it if there is one. */
  class Database<S> {
    var store: S
    var buffer: S
    var active: bool

    constructor (initial: S)
      ensures store == initial && !active
    {
      store, buffer, active := initial, initial, false;
    }

    /** Runs an action in its own transaction: all of it is committed, or none of it. */
    method RunInContext<T>(action: S -> (S, T), fault: Fault) returns (r: Result<T>)
      requires !active
      modifies this
      ensures !active
      ensures fault.NoFault? ==> r == Ok(action(old(store)).1) && store == action(old(store)).0
      ensures !fault.NoFault? ==> r == Threw(fault.error) && store == old(store)
    {
      buffer, active := store, true;
      var (after, result) := action(buffer);
      buffer := after;
      if !fault.NoFault? {
        // Whether the work or the commit threw, the transaction is cancelled.
        buffer, active := store, false;
        return Threw(fault.error);
      }
      store, active := buffer, false;
      return Ok(result);
    }
  }

  ghost function Iterate<S>(task: S -> (S, nat), s: S, k: nat): S {
    if k == 0 then s else task(Iterate(task, s, k - 1)).0
  }

  function Failures(entries: seq<Entry>): (n: nat)
    ensures n <= |entries|
  {
    if entries == [] then 0
    else Failures(entries[..|entries| - 1]) + if entries[|entries| - 1].Exception? then 1 else 0
  }

  /** The store after the first `n` entries: one task per entry that did not fail. */
  ghost function StoreAfter<S>(task: S -> (S, nat), s: S, entries: seq<Entry>): S {
    Iterate(task, s, |entries| - Failures(entries))
  }

  /** The next entry is the fault of its round, or what the work reports on the store so far. */
  ghost predicate Follows<S>(task: S -> (S, nat), s: S, faults: nat -> Fault, before: seq<Entry>, entry: Entry) {
    match faults(|before|)
    case NoFault => entry == Executed(task(StoreAfter(task, s, before)).1)
    case _ => entry == Exception(faults(|before|).error)
  }

  ghost predicate Records<S>(task: S -> (S, nat), s: S, faults: nat -> Fault, entries: seq<Entry>) {
    forall i :: 0 <= i < |entries| ==> Follows(task, s, faults, entries[..i], entries[i])
  }

  /** The loop goes on after these entries. */
  ghost predicate GoesOn(entries: seq<Entry>) {
    && |entries| < 40 && Failures(entries) < 3
    && (|entries| > 0 ==> entries[|entries| - 1] != Executed(0))
  }

  lemma Appended(before: seq<Entry>, entry: Entry)
    ensures forall i :: 0 <= i <= |before| ==> (before + [entry])[..i] == before[..i]
    ensures Failures(before + [entry]) == Failures(before) + if entry.Exception? then 1 else 0
  {
    assert (before + [entry])[..|before|] == before;
  }

  /** One more attempt is recorded and moves the store as its entry says. */
  lemma OneRound<S(!new)>(task: S -> (S, nat), s: S, faults: nat -> Fault, before: seq<Entry>, entry: Entry)
    requires Records(task, s, faults, before) && Follows(task, s, faults, before, entry)
    ensures Records(task, s, faults, before + [entry])
    ensures StoreAfter(task, s, before + [entry]) ==
            if entry.Exception? then StoreAfter(task, s, before) else task(StoreAfter(task, s, before)).0
    ensures Failures(before + [entry]) == Failures(before) + if entry.Exception? then 1 else 0
  {
    hide Failures;
    Appended(before, entry);
    RecordsAppend(task, s, faults, before, entry);
  }

  lemma RecordsAppend<S(!new)>(task: S -> (S, nat), s: S, faults: nat -> Fault, before: seq<Entry>, entry: Entry)
    requires Records(task, s, faults, before) && Follows(task, s, faults, before, entry)
    ensures Records(task, s, faults, before + [entry])
  {
    hide Follows, StoreAfter, Failures;
    Appended(before, entry);
    assert before[..|before|] == before;
  }

  lemma NothingYet<S(!new)>(task: S -> (S, nat), s: S, faults: nat -> Fault)
    ensures Records(task, s, faults, []) && StoreAfter(task, s, []) == s && Failures([]) == 0
  {
  }

  lemma OnlyEarlier(before: seq<Entry>, entry: Entry)
    requires GoesOn(before) && forall i :: 0 <= i < |before| ==> GoesOn(before[..i])
    ensures forall i :: 0 <= i <= |before| ==> GoesOn((before + [entry])[..i])
  {
    Appended(before, entry);
    assert before[..|before|] == before;
  }

  /**
   For every task and failure pattern: at most 40 attempts and three failures, an empty
   queue is recorded only last, the loop stops for one of those three reasons and no
   other, and the store is the initial one advanced by the committed tasks alone.
   */
  method DrainOneByOne<S(!new)>(db: Database<S>, task: S -> (S, nat), faults: nat -> Fault) returns (entries: seq<Entry>)
    requires !db.active
    modifies db
    ensures !db.active && db.store == StoreAfter(task, old(db.store), entries)
    ensures |entries| <= 40 && Failures(entries) <= 3
    ensures Records(task, old(db.store), faults, entries)
    ensures forall i :: 0 <= i < |entries| ==> GoesOn(entries[..i])
    ensures !GoesOn(entries)
  {
    hide Records, StoreAfter, Failures;
    entries := [];
    var failures := 0;
    NothingYet(task, db.store, faults);
    var round := 0;
    while round < MAX_ROUNDS && failures < MAX_FAILURES
      invariant |entries| == round <= MAX_ROUNDS && failures == Failures(entries) <= MAX_FAILURES
      invariant !db.active && db.store == StoreAfter(task, old(db.store), entries)
      invariant Records(task, old(db.store), faults, entries)
      invariant |entries| > 0 ==> entries[|entries| - 1] != Executed(0)
      invariant forall i :: 0 <= i < |entries| ==> GoesOn(entries[..i])
      decreases MAX_ROUNDS - round
    {
      var entry: Entry;
      var outcome := db.RunInContext(task, faults(round));
      match outcome {
        case Ok(executed) =>
          entry := Executed(executed);
        case Threw(error) =>
          entry := Exception(error);
          failures := failures + 1;
      }
      OneRound(task, old(db.store), faults, entries, entry);
      OnlyEarlier(entries, entry);
      entries := entries + [entry];
      if entry == Executed(0) { break; }
      round := round + 1;
    }
  }

  /** An empty queue is reported only by the last entry. */
  lemma EmptyOnlyLast(entries: seq<Entry>, i: nat)
    requires i < |entries| - 1 && forall k :: 0 <= k < |entries| ==> GoesOn(entries[..k])
    ensures entries[i] != Executed(0)
  {
    assert GoesOn(entries[..i + 1]);
  }
}
