/**
 * The message queues of a process: `WaitableQueue`, a deque with an
 * optional length bound that can record every pop to a trace, and
 * `ReplayQueue`, which answers pops from such a trace.
 *
 * Blocking is modelled by its outcome: the items other threads append
 * while a pop waits are a parameter of the pop, and so is the time the
 * wait took. A trace file is the sequence of records written to it.
 */
module Queues {
  import opened Wrappers

  /** What one pop yields: an item, or the `QueueEmpty` exception. */
  datatype Outcome<T> = Delivered(item: T) | NoItem

  /** One pickled `(delay, item)` or `(delay, QueueEmpty())` pair of a trace. */
  datatype Record<T> = Record(delay: Option<real>, outcome: Outcome<T>)

  /** An entry of a trace stream as the loader sees it: a record, or bytes that do not unpickle. */
  datatype Entry<T> = Good(record: Record<T>) | Garbled

  /**
   * The result of a pop as its caller sees it: the item, or an exception.
   * `StreamClosed` is the `ValueError` raised by reading or writing a closed
   * trace file; `UnresolvedName` is the `NameError` of a name the source
   * uses but never defines.
   */
  datatype PopResult<T> = Item(item: T) | QueueEmpty | StreamClosed | TraceEnded | UnresolvedName(name: string)

  function AsResult<T>(o: Outcome<T>): (r: PopResult<T>)
    ensures r.Item? <==> o.Delivered?
    ensures r.Item? ==> r.item == o.item
    ensures o.NoItem? ==> r == QueueEmpty
  {
    match o
    case Delivered(x) => Item(x)
    case NoItem => QueueEmpty
  }

  // ---------------------------------------------------------------------
  // The bounded deque
  // ---------------------------------------------------------------------

  /** `deque(s, maxlen)`: at most `maxlen` items, the newest ones. */
  function Bounded<T>(s: seq<T>, maxlen: Option<nat>): (r: seq<T>)
    ensures |r| <= |s| && r == s[|s| - |r|..]
    ensures maxlen.None? ==> r == s
    ensures maxlen.Some? ==> |r| == if |s| <= maxlen.value then |s| else maxlen.value
  {
    if maxlen.Some? && |s| > maxlen.value then s[|s| - maxlen.value..] else s
  }

  /** Appending to a bounded deque one item at a time, the oldest item dropped when full. */
  function AppendAll<T>(q: seq<T>, xs: seq<T>, maxlen: Option<nat>): seq<T>
    decreases |xs|
  {
    if |xs| == 0 then q else AppendAll(Bounded(q + [xs[0]], maxlen), xs[1..], maxlen)
  }

  /** Bounding after each append is bounding once at the end. */
  lemma {:induction false} AppendAllBounded<T>(q: seq<T>, xs: seq<T>, maxlen: Option<nat>)
    ensures AppendAll(Bounded(q, maxlen), xs, maxlen) == Bounded(q + xs, maxlen)
    decreases |xs|
  {
    if |xs| == 0 {
      assert q + xs == q;
    } else {
      var q1 := q + [xs[0]];
      calc {
        AppendAll(Bounded(q, maxlen), xs, maxlen);
        AppendAll(Bounded(Bounded(q, maxlen) + [xs[0]], maxlen), xs[1..], maxlen);
        { BoundedSnoc(q, xs[0], maxlen); }
        AppendAll(Bounded(q1, maxlen), xs[1..], maxlen);
        { AppendAllBounded(q1, xs[1..], maxlen); }
        Bounded(q1 + xs[1..], maxlen);
        { assert q1 + xs[1..] == q + xs; }
        Bounded(q + xs, maxlen);
      }
    }
  }

  lemma BoundedSnoc<T>(q: seq<T>, x: T, maxlen: Option<nat>)
    ensures Bounded(Bounded(q, maxlen) + [x], maxlen) == Bounded(q + [x], maxlen)
  {
    if maxlen.Some? && |q| > maxlen.value {
      var m := maxlen.value;
      assert (q[|q| - m..] + [x])[1..] == (q + [x])[|q| + 1 - m..];
    }
  }

  /** `block and timeout`: the recorded delay is measured only for a blocking pop with a non-zero timeout. */
  function DelayFor(block: bool, timeout: Option<real>, elapsed: real): (r: Option<real>)
    ensures r.Some? <==> block && timeout.Some? && timeout.value != 0.0
    ensures r.Some? ==> r.value == elapsed
  {
    if block && timeout.Some? && timeout.value != 0.0 then Some(elapsed) else None
  }

  /**
   * The plain `pop` on queue contents `q`: the head if there is one; else
   * `QueueEmpty` for a non-blocking pop or a zero timeout; else one more try
   * after the items `arrived` were appended during the wait.
   */
  function PopStep<T>(q: seq<T>, maxlen: Option<nat>, block: bool, timeout: Option<real>, arrived: seq<T>): (seq<T>, Outcome<T>)
  {
    if |q| > 0 then (q[1..], Delivered(q[0]))
    else if !block || timeout == Some(0.0) then (q, NoItem)
    else
      var after := AppendAll(q, arrived, maxlen);
      if |after| > 0 then (after[1..], Delivered(after[0])) else (after, NoItem)
  }

  /** A non-empty queue gives its head at once, whatever the blocking arguments. */
  lemma PopStepHead<T>(q: seq<T>, maxlen: Option<nat>, block: bool, timeout: Option<real>, arrived: seq<T>)
    requires |q| > 0
    ensures PopStep(q, maxlen, block, timeout, arrived) == (q[1..], Delivered(q[0]))
  {
  }

  /**
   * A blocking pop on an empty queue delivers the oldest surviving arrival,
   * and reports `QueueEmpty` only if nothing arrived.
   */
  lemma PopStepAfterWait<T>(q: seq<T>, maxlen: Option<nat>, timeout: Option<real>, arrived: seq<T>)
    requires |q| == 0 && timeout != Some(0.0)
    requires maxlen.Some? ==> maxlen.value > 0
    ensures PopStep(q, maxlen, true, timeout, arrived).1.NoItem? <==> |arrived| == 0
    ensures |arrived| > 0 ==>
              PopStep(q, maxlen, true, timeout, arrived).1 == Delivered(Bounded(arrived, maxlen)[0])
  {
    var after := AppendAll(q, arrived, maxlen);
    ArrivalsIntoEmpty(arrived, maxlen);
    assert |after| > 0 <==> |arrived| > 0;
  }

  /** Appending to an empty deque one item at a time keeps the newest items that fit. */
  lemma ArrivalsIntoEmpty<T>(arrived: seq<T>, maxlen: Option<nat>)
    ensures AppendAll([], arrived, maxlen) == Bounded(arrived, maxlen)
  {
    var q: seq<T> := [];
    assert Bounded(q, maxlen) == q;
    AppendAllBounded(q, arrived, maxlen);
    assert q + arrived == arrived;
  }

  // ---------------------------------------------------------------------
  // WaitableQueue
  // ---------------------------------------------------------------------

  class WaitableQueue<T> {
    var items: seq<T>
    const maxlen: Option<nat>
    /** Whether trace files were given, so that `pop` is `_pop_and_record`. */
    const recording: bool
    var inOpen: bool
    var outOpen: bool
    /** The records written to the in-trace file, in order. */
    var trace: seq<Record<T>>

    ghost predicate Valid()
      reads this
    {
      && (maxlen.Some? ==> |items| <= maxlen.value)
      && (!recording ==> !inOpen && !outOpen && trace == [])
    }

    /** `WaitableQueue(iterable, maxlen, trace_files)`. */
    constructor (initial: seq<T>, maxlen: Option<nat>, recording: bool)
      ensures Valid()
      ensures items == Bounded(initial, maxlen) && this.maxlen == maxlen && this.recording == recording
      ensures inOpen == recording && outOpen == recording && trace == []
    {
      items := Bounded(initial, maxlen);
      this.maxlen := maxlen;
      this.recording := recording;
      inOpen, outOpen := recording, recording;
      trace := [];
    }

    /** `len(q)`: the number of queued items. */
    function Length(): (n: nat)
      reads this
      ensures n == |items|
    {
      |items|
    }

    /** `append`: add at the newest end, dropping the oldest when the bound is reached. */
    method Append(x: T)
      requires Valid()
      modifies this`items
      ensures Valid()
      ensures items == Bounded(old(items) + [x], maxlen)
    {
      items := Bounded(items + [x], maxlen);
    }

    /** `close`: close the trace files; the queue itself stays usable. */
    method Close()
      requires Valid()
      modifies this`inOpen, this`outOpen
      ensures Valid()
      ensures !inOpen && !outOpen
    {
      inOpen, outOpen := false, false;
    }

    /**
     * `pop(block, timeout)`. Without trace files this is the plain pop. With
     * them it is `_pop_and_record`: the plain pop, then its outcome and (for
     * a blocking pop with a non-zero timeout) the time it took are written to
     * the trace; once the trace is closed that write fails after the item
     * has already left the queue.
     */
    method Pop(block: bool, timeout: Option<real>, arrived: seq<T>, elapsed: real) returns (r: PopResult<T>)
      requires Valid()
      modifies this`items, this`trace
      ensures Valid()
      ensures var (rest, outcome) := PopStep(old(items), maxlen, block, timeout, arrived);
              && items == rest
              && (!recording || inOpen ==> r == AsResult(outcome))
              && (recording && inOpen ==> trace == old(trace) + [Record(DelayFor(block, timeout, elapsed), outcome)])
              && (recording && !inOpen ==> r == StreamClosed)
              && (!recording || !inOpen ==> trace == old(trace))
    {
      var outcome: Outcome<T>;
      if |items| > 0 {
        outcome := Delivered(items[0]);
        items := items[1..];
      } else if !block || timeout == Some(0.0) {
        outcome := NoItem;
      } else {
        var i := 0;
        // the appends of other threads during the wait
        while i < |arrived|
          invariant 0 <= i <= |arrived|
          invariant maxlen.Some? ==> |items| <= maxlen.value
          invariant trace == old(trace)
          invariant AppendAll(items, arrived[i..], maxlen) == AppendAll(old(items), arrived, maxlen)
        {
          assert arrived[i..][1..] == arrived[i + 1..];
          items := Bounded(items + [arrived[i]], maxlen);
          i := i + 1;
        }
        if |items| > 0 {
          outcome := Delivered(items[0]);
          items := items[1..];
        } else {
          outcome := NoItem;
        }
      }
      r := AsResult(outcome);
      if recording {
        if inOpen {
          trace := trace + [Record(DelayFor(block, timeout, elapsed), outcome)];
        } else {
          r := StreamClosed;
        }
      }
    }
  }

  /**
   * Items appended to an unbounded queue come out of non-blocking pops in
   * the order they went in, and then the queue reports `QueueEmpty`.
   */
  method Fifo<T>(xs: seq<T>) returns (popped: seq<PopResult<T>>, last: PopResult<T>)
    ensures |popped| == |xs|
    ensures forall i :: 0 <= i < |xs| ==> popped[i] == Item(xs[i])
    ensures last == QueueEmpty
  {
    var q := new WaitableQueue<T>([], None, false);
    var i := 0;
    while i < |xs|
      invariant 0 <= i <= |xs|
      invariant q.Valid() && q.maxlen.None? && !q.recording
      invariant q.items == xs[..i]
    {
      q.Append(xs[i]);
      assert xs[..i + 1] == xs[..i] + [xs[i]];
      i := i + 1;
    }
    popped := [];
    i := 0;
    while i < |xs|
      invariant 0 <= i <= |xs|
      invariant q.Valid() && q.maxlen.None? && !q.recording
      invariant q.items == xs[i..]
      invariant |popped| == i
      invariant forall j :: 0 <= j < i ==> popped[j] == Item(xs[j])
    {
      var r := q.Pop(false, None, [], 0.0);
      popped := popped + [r];
      i := i + 1;
    }
    last := q.Pop(false, None, [], 0.0);
  }

  // ---------------------------------------------------------------------
  // ReplayQueue
  // ---------------------------------------------------------------------

  /** `if delay: time.sleep(delay)`: the pause a replayed record asks for. */
  function SleepFor(delay: Option<real>): (r: Option<real>)
    ensures r.Some? <==> delay.Some? && delay.value != 0.0
    ensures r.Some? ==> r == delay
  {
    if delay.Some? && delay.value != 0.0 then delay else None
  }

  class ReplayQueue<T> {
    /** The contents of the in-trace stream. */
    const stream: seq<Entry<T>>
    /** How many entries the loader has consumed. */
    var cursor: nat
    var inOpen: bool
    var outOpen: bool

    ghost predicate Valid()
      reads this
    {
      cursor <= |stream|
    }

    constructor (stream: seq<Entry<T>>)
      ensures Valid()
      ensures this.stream == stream && cursor == 0 && inOpen && outOpen
    {
      this.stream := stream;
      cursor := 0;
      inOpen, outOpen := true, true;
    }

    /** `close`. */
    method Close()
      requires Valid()
      modifies this`inOpen, this`outOpen
      ensures Valid()
      ensures !inOpen && !outOpen
    {
      inOpen, outOpen := false, false;
    }

    /**
     * `pop` as intended: the next record's outcome, its delay as the pause to
     * take; at the end of the stream or at unreadable bytes the queue closes
     * and the trace has ended; once closed, reading fails.
     */
    method Pop() returns (r: PopResult<T>, sleep: Option<real>)
      requires Valid()
      modifies this`cursor, this`inOpen, this`outOpen
      ensures Valid()
      ensures !old(inOpen) ==>
                r == StreamClosed && sleep.None? && cursor == old(cursor) && !inOpen && outOpen == old(outOpen)
      ensures old(inOpen) && (old(cursor) == |stream| || stream[old(cursor)].Garbled?) ==>
                r == TraceEnded && sleep.None? && cursor == old(cursor) && !inOpen && !outOpen
      ensures old(inOpen) && old(cursor) < |stream| && stream[old(cursor)].Good? ==>
                && cursor == old(cursor) + 1 && inOpen && outOpen == old(outOpen)
                && r == AsResult(stream[old(cursor)].record.outcome)
                && sleep == SleepFor(stream[old(cursor)].record.delay)
    {
      sleep := None;
      if !inOpen {
        return StreamClosed, None;
      }
      if cursor == |stream| || stream[cursor].Garbled? {
        Close();
        return TraceEnded, None;
      }
      var rec := stream[cursor].record;
      cursor := cursor + 1;
      sleep := SleepFor(rec.delay);
      r := AsResult(rec.outcome);
    }

    /**
     * `pop` as the source writes it: after a record is read (and its pause
     * taken) the type test names `common.QueueEmpty`, and the end-of-trace
     * path raises `TraceEndedException`; neither name is defined in the
     * module, so every pop that reads the stream ends in a `NameError`.
     */
    method PopAsWritten() returns (r: PopResult<T>, sleep: Option<real>)
      requires Valid()
      modifies this`cursor, this`inOpen, this`outOpen
      ensures Valid()
      ensures !old(inOpen) ==>
                r == StreamClosed && sleep.None? && cursor == old(cursor) && !inOpen && outOpen == old(outOpen)
      ensures old(inOpen) && (old(cursor) == |stream| || stream[old(cursor)].Garbled?) ==>
                r == UnresolvedName("TraceEndedException") && sleep.None? && cursor == old(cursor) &&
                !inOpen && !outOpen
      ensures old(inOpen) && old(cursor) < |stream| && stream[old(cursor)].Good? ==>
                && cursor == old(cursor) + 1 && inOpen && outOpen == old(outOpen)
                && r == UnresolvedName("common")
                && sleep == SleepFor(stream[old(cursor)].record.delay)
    {
      sleep := None;
      if !inOpen {
        return StreamClosed, None;
      }
      if cursor == |stream| || stream[cursor].Garbled? {
        Close();
        return UnresolvedName("TraceEndedException"), None;
      }
      var rec := stream[cursor].record;
      cursor := cursor + 1;
      sleep := SleepFor(rec.delay);
      r := UnresolvedName("common");
    }
  }

  /** A call to `pop` as the recording run made it. */
  datatype PopCall<T> = PopCall(block: bool, timeout: Option<real>, arrived: seq<T>, elapsed: real)

  /** The trace stream holding a list of records. */
  function AsStream<T>(trace: seq<Record<T>>): (s: seq<Entry<T>>)
    ensures |s| == |trace|
    ensures forall i :: 0 <= i < |trace| ==> s[i] == Good(trace[i])
  {
    seq(|trace|, i requires 0 <= i < |trace| => Good(trace[i]))
  }

  /**
   * Record and replay: the pops of a recording queue, replayed from the
   * trace they wrote, give the same results in the same order, pause
   * exactly where a timed blocking pop was measured, and are followed by
   * the end of the trace.
   */
  method RecordAndReplay<T>(initial: seq<T>, maxlen: Option<nat>, calls: seq<PopCall<T>>)
    returns (live: seq<PopResult<T>>, replayed: seq<PopResult<T>>, sleeps: seq<Option<real>>, last: PopResult<T>)
    ensures |live| == |calls| && replayed == live
    ensures |sleeps| == |calls|
    ensures forall i :: 0 <= i < |calls| ==>
              sleeps[i] == SleepFor(DelayFor(calls[i].block, calls[i].timeout, calls[i].elapsed))
    ensures forall i :: 0 <= i < |calls| ==> live[i].Item? || live[i] == QueueEmpty
    ensures last == TraceEnded
  {
    var q := new WaitableQueue<T>(initial, maxlen, true);
    live := [];
    var i := 0;
    while i < |calls|
      invariant 0 <= i <= |calls|
      invariant q.Valid() && q.recording && q.inOpen
      invariant |live| == i && |q.trace| == i
      invariant forall j :: 0 <= j < i ==> live[j] == AsResult(q.trace[j].outcome)
      invariant forall j :: 0 <= j < i ==>
                  q.trace[j].delay == DelayFor(calls[j].block, calls[j].timeout, calls[j].elapsed)
    {
      var c := calls[i];
      var r := q.Pop(c.block, c.timeout, c.arrived, c.elapsed);
      live := live + [r];
      i := i + 1;
    }
    var rq := new ReplayQueue<T>(AsStream(q.trace));
    replayed, sleeps := [], [];
    i := 0;
    while i < |calls|
      invariant 0 <= i <= |calls|
      invariant rq.Valid() && rq.inOpen && rq.cursor == i && rq.stream == AsStream(q.trace)
      invariant |replayed| == i && |sleeps| == i
      invariant forall j :: 0 <= j < i ==> replayed[j] == live[j]
      invariant forall j :: 0 <= j < i ==> sleeps[j] == SleepFor(q.trace[j].delay)
    {
      var r, s := rq.Pop();
      replayed, sleeps := replayed + [r], sleeps + [s];
      i := i + 1;
    }
    var s;
    last, s := rq.Pop();
  }

  /**
   * Replaying a trace whose one record delivered `x`: the pop as written
   * stops with a `NameError` where the intended pop returns `x`.
   */
  method ReplayAsWrittenFails<T>(x: T) returns (asWritten: PopResult<T>, intended: PopResult<T>)
    ensures asWritten == UnresolvedName("common") && intended == Item(x)
  {
    var stream := [Good(Record(None, Delivered(x)))];
    var first := new ReplayQueue<T>(stream);
    var sleep;
    asWritten, sleep := first.PopAsWritten();
    var second := new ReplayQueue<T>(stream);
    intended, sleep := second.Pop();
  }
}
