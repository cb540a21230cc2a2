/**
 * Message patterns and events of the compiler's syntax tree: the pattern
 * elements (constants, free and bound variables, tuples and lists), their
 * structural matching and variable lists, the events a process reacts to,
 * the per-process table of distinct events, and the `ints(...)` range
 * expression.
 *
 * Variables are `NamedVar` objects, compared by identity; here they are
 * represented by their identities, as are the expressions a bound pattern
 * may hold. Constants are values of any type with equality.
 */
module Patterns {
  import opened Wrappers

  /** A `NamedVar` by identity. */
  type VarId = nat

  /** An expression node by identity. */
  type ExprId = nat

  /**
   * The value of a `BoundPattern`: nothing, a `NamedVar`, or an expression
   * together with its `ordered_nameobjs`.
   */
  datatype BoundValue = NoValue | NameValue(v: VarId) | ExprValue(expr: ExprId, nameobjs: seq<VarId>)

  datatype Pattern<C> =
    | ConstantPattern(constant: C)
    | FreePattern(free: Option<VarId>)
    | BoundPattern(bound: BoundValue)
    | TuplePattern(elems: seq<Pattern<C>>)
    | ListPattern(elems: seq<Pattern<C>>)

  /**
   * `PatternElement.match`: `False` for a missing target or one of another
   * element type; leaves compare their values, tuples and lists compare
   * lengths and then their elements pairwise. Matching is exactly equality.
   */
  method PatternMatch<C(==)>(p: Pattern<C>, target: Option<Pattern<C>>) returns (r: bool)
    ensures r <==> target == Some(p)
    decreases p, 1
  {
    if target.None? {
      return false;
    }
    var t := target.value;
    match p
    case ConstantPattern(c) =>
      return t.ConstantPattern? && t.constant == c;
    case FreePattern(v) =>
      return t.FreePattern? && t.free == v;
    case BoundPattern(b) =>
      return t.BoundPattern? && t.bound == b;
    case TuplePattern(ps) =>
      if !t.TuplePattern? || |ps| != |t.elems| {
        return false;
      }
      r := MatchElements(p, ps, t.elems);
    case ListPattern(ps) =>
      if !t.ListPattern? || |ps| != |t.elems| {
        return false;
      }
      r := MatchElements(p, ps, t.elems);
  }

  /** The `zip` loop of `match` over the elements of a tuple or list pattern `p`. */
  method MatchElements<C(==)>(p: Pattern<C>, ps: seq<Pattern<C>>, ts: seq<Pattern<C>>) returns (r: bool)
    requires (p.TuplePattern? || p.ListPattern?) && ps == p.elems
    requires |ps| == |ts|
    ensures r <==> ps == ts
    decreases p, 0
  {
    var i := 0;
    while i < |ps|
      invariant 0 <= i <= |ps|
      invariant ps[..i] == ts[..i]
    {
      var m := PatternMatch(ps[i], Some(ts[i]));
      if !m {
        return false;
      }
      assert ps[..i + 1] == ps[..i] + [ps[i]] && ts[..i + 1] == ts[..i] + [ts[i]];
      i := i + 1;
    }
    assert ps[..i] == ps && ts[..i] == ts;
    return true;
  }

  // ---------------------------------------------------------------------
  // Bound and free variables
  // ---------------------------------------------------------------------

  /** `ordered_boundvars`, left to right. */
  function BoundVars<C>(p: Pattern<C>): seq<VarId>
    decreases p, 1
  {
    match p
    case BoundPattern(NameValue(v)) => [v]
    case BoundPattern(ExprValue(_, objs)) => objs
    case TuplePattern(ps) => BoundVarsAll(p, ps)
    case ListPattern(ps) => BoundVarsAll(p, ps)
    case _ => []
  }

  function BoundVarsAll<C>(p: Pattern<C>, ps: seq<Pattern<C>>): seq<VarId>
    requires (p.TuplePattern? || p.ListPattern?) && ps <= p.elems
    decreases p, 0, |ps|
  {
    if |ps| == 0 then [] else BoundVarsAll(p, ps[..|ps| - 1]) + BoundVars(ps[|ps| - 1])
  }

  /** `ordered_freevars`, left to right. */
  function FreeVars<C>(p: Pattern<C>): seq<VarId>
    decreases p, 1
  {
    match p
    case FreePattern(Some(v)) => [v]
    case TuplePattern(ps) => FreeVarsAll(p, ps)
    case ListPattern(ps) => FreeVarsAll(p, ps)
    case _ => []
  }

  function FreeVarsAll<C>(p: Pattern<C>, ps: seq<Pattern<C>>): seq<VarId>
    requires (p.TuplePattern? || p.ListPattern?) && ps <= p.elems
    decreases p, 0, |ps|
  {
    if |ps| == 0 then [] else FreeVarsAll(p, ps[..|ps| - 1]) + FreeVars(ps[|ps| - 1])
  }

  /** The non-compound elements of a pattern, left to right. */
  function Leaves<C>(p: Pattern<C>): seq<Pattern<C>>
    decreases p, 1
  {
    match p
    case TuplePattern(ps) => LeavesAll(p, ps)
    case ListPattern(ps) => LeavesAll(p, ps)
    case _ => [p]
  }

  function LeavesAll<C>(p: Pattern<C>, ps: seq<Pattern<C>>): seq<Pattern<C>>
    requires (p.TuplePattern? || p.ListPattern?) && ps <= p.elems
    decreases p, 0, |ps|
  {
    if |ps| == 0 then [] else LeavesAll(p, ps[..|ps| - 1]) + Leaves(ps[|ps| - 1])
  }

  /** The variables a leaf binds. */
  function LeafBound<C>(l: Pattern<C>): seq<VarId>
  {
    match l
    case BoundPattern(NameValue(v)) => [v]
    case BoundPattern(ExprValue(_, objs)) => objs
    case _ => []
  }

  /** The variable a leaf leaves free. */
  function LeafFree<C>(l: Pattern<C>): seq<VarId>
  {
    if l.FreePattern? && l.free.Some? then [l.free.value] else []
  }

  /** The concatenation of the bound and the free variables of each leaf. */
  function BoundOfLeaves<C>(ls: seq<Pattern<C>>): seq<VarId>
  {
    if |ls| == 0 then [] else BoundOfLeaves(ls[..|ls| - 1]) + LeafBound(ls[|ls| - 1])
  }

  function FreeOfLeaves<C>(ls: seq<Pattern<C>>): seq<VarId>
  {
    if |ls| == 0 then [] else FreeOfLeaves(ls[..|ls| - 1]) + LeafFree(ls[|ls| - 1])
  }

  lemma {:induction false} BoundOfLeavesAppend<C>(a: seq<Pattern<C>>, b: seq<Pattern<C>>)
    ensures BoundOfLeaves(a + b) == BoundOfLeaves(a) + BoundOfLeaves(b)
    decreases |b|
  {
    if |b| == 0 {
      assert a + b == a;
    } else {
      var ab, b', last := a + b, b[..|b| - 1], b[|b| - 1];
      assert ab[..|ab| - 1] == a + b' && ab[|ab| - 1] == last;
      calc {
        BoundOfLeaves(ab);
        BoundOfLeaves(a + b') + LeafBound(last);
        { BoundOfLeavesAppend(a, b'); }
        BoundOfLeaves(a) + BoundOfLeaves(b') + LeafBound(last);
        BoundOfLeaves(a) + BoundOfLeaves(b);
      }
    }
  }

  lemma {:induction false} FreeOfLeavesAppend<C>(a: seq<Pattern<C>>, b: seq<Pattern<C>>)
    ensures FreeOfLeaves(a + b) == FreeOfLeaves(a) + FreeOfLeaves(b)
    decreases |b|
  {
    if |b| == 0 {
      assert a + b == a;
    } else {
      var ab, b', last := a + b, b[..|b| - 1], b[|b| - 1];
      assert ab[..|ab| - 1] == a + b' && ab[|ab| - 1] == last;
      calc {
        FreeOfLeaves(ab);
        FreeOfLeaves(a + b') + LeafFree(last);
        { FreeOfLeavesAppend(a, b'); }
        FreeOfLeaves(a) + FreeOfLeaves(b') + LeafFree(last);
        FreeOfLeaves(a) + FreeOfLeaves(b);
      }
    }
  }

  /**
   * The bound and free variable lists are the variables of the pattern's
   * leaves read from left to right: nesting in tuples and lists does not
   * change their order.
   */
  lemma {:induction false} VarsFollowLeaves<C>(p: Pattern<C>)
    ensures BoundVars(p) == BoundOfLeaves(Leaves(p))
    ensures FreeVars(p) == FreeOfLeaves(Leaves(p))
    decreases p, 1
  {
    match p
    case TuplePattern(ps) => VarsFollowLeavesAll(p, ps);
    case ListPattern(ps) => VarsFollowLeavesAll(p, ps);
    case _ =>
      assert Leaves(p) == [p];
      assert [p][..0] == [];
  }

  lemma {:induction false} VarsFollowLeavesAll<C>(p: Pattern<C>, ps: seq<Pattern<C>>)
    requires (p.TuplePattern? || p.ListPattern?) && ps <= p.elems
    ensures BoundVarsAll(p, ps) == BoundOfLeaves(LeavesAll(p, ps))
    ensures FreeVarsAll(p, ps) == FreeOfLeaves(LeavesAll(p, ps))
    decreases p, 0, |ps|
  {
    if |ps| > 0 {
      var last := ps[|ps| - 1];
      assert last in p.elems;
      VarsFollowLeavesAll(p, ps[..|ps| - 1]);
      VarsFollowLeaves(last);
      BoundOfLeavesAppend(LeavesAll(p, ps[..|ps| - 1]), Leaves(last));
      FreeOfLeavesAppend(LeavesAll(p, ps[..|ps| - 1]), Leaves(last));
    }
  }

  // ---------------------------------------------------------------------
  // Events
  // ---------------------------------------------------------------------

  datatype EventType = ReceivedEvent | SentEvent

  /** An `Event` node: its type, message pattern, source, destination and timestamp patterns, and index. */
  datatype Event<C> = Event(
    kind: EventType,
    pattern: Option<Pattern<C>>,
    sources: seq<Pattern<C>>,
    destinations: seq<Pattern<C>>,
    timestamps: seq<Pattern<C>>,
    index: nat)

  /** Equal patterns of every part; the type and the index are not compared. */
  predicate SameShape<C(==)>(a: Event<C>, b: Event<C>)
  {
    a.pattern == b.pattern && a.sources == b.sources &&
    a.destinations == b.destinations && a.timestamps == b.timestamps
  }

  /** Two events describe the same thing when they have one type and one shape. */
  predicate Same<C(==)>(a: Event<C>, b: Event<C>)
  {
    a.kind == b.kind && SameShape(a, b)
  }

  /** The comparison of the pattern and of the `zip` of sources, destinations and timestamps. */
  method ShapeMatch<C(==)>(e: Event<C>, t: Event<C>) returns (r: bool)
    ensures r <==> SameShape(e, t)
  {
    if e.pattern.None? {
      if t.pattern.Some? {
        return false;
      }
    } else {
      var m := PatternMatch(e.pattern.value, t.pattern);
      if !m {
        return false;
      }
    }
    if |e.sources| != |t.sources| || |e.destinations| != |t.destinations| || |e.timestamps| != |t.timestamps| {
      return false;
    }
    var mine := e.sources + e.destinations + e.timestamps;
    var theirs := t.sources + t.destinations + t.timestamps;
    var i := 0;
    while i < |mine|
      invariant 0 <= i <= |mine|
      invariant mine[..i] == theirs[..i]
    {
      var m := PatternMatch(mine[i], Some(theirs[i]));
      if !m {
        assert mine != theirs;
        return false;
      }
      assert mine[..i + 1] == mine[..i] + [mine[i]] && theirs[..i + 1] == theirs[..i] + [theirs[i]];
      i := i + 1;
    }
    assert mine == mine[..i] && theirs == theirs[..i];
    ConcatParts(e.sources, e.destinations, e.timestamps, t.sources, t.destinations, t.timestamps);
    return true;
  }

  /** Concatenations of equally long parts are equal only part by part. */
  lemma ConcatParts<T>(a1: seq<T>, a2: seq<T>, a3: seq<T>, b1: seq<T>, b2: seq<T>, b3: seq<T>)
    requires |a1| == |b1| && |a2| == |b2| && |a3| == |b3|
    ensures a1 + a2 + a3 == b1 + b2 + b3 <==> a1 == b1 && a2 == b2 && a3 == b3
  {
    if a1 + a2 + a3 == b1 + b2 + b3 {
      var n1, n2 := |a1|, |a1| + |a2|;
      assert a1 == (a1 + a2 + a3)[..n1] && b1 == (b1 + b2 + b3)[..n1];
      assert a2 == (a1 + a2 + a3)[n1..n2] && b2 == (b1 + b2 + b3)[n1..n2];
      assert a3 == (a1 + a2 + a3)[n2..] && b3 == (b1 + b2 + b3)[n2..];
    }
  }

  /**
   * `Event.match` as the source writes it: the type test compares the
   * Python classes of the two nodes, which are always both `Event`, so
   * events of different types (received and sent) are compared by shape
   * alone.
   */
  method EventMatchAsWritten<C(==)>(e: Event<C>, target: Option<Event<C>>) returns (r: bool)
    ensures r <==> target.Some? && SameShape(e, target.value)
  {
    if target.None? {
      return false;
    }
    r := ShapeMatch(e, target.value);
  }

  /** `Event.match` as intended: events of different types never match. */
  method EventMatch<C(==)>(e: Event<C>, target: Option<Event<C>>) returns (r: bool)
    ensures r <==> target.Some? && Same(e, target.value)
  {
    if target.None? || target.value.kind != e.kind {
      return false;
    }
    r := ShapeMatch(e, target.value);
  }

  /**
   * A received and a sent event with one pattern: the match as written
   * accepts the pair, the intended match rejects it.
   */
  method KindBlindMatch() returns (asWritten: bool, intended: bool)
    ensures asWritten && !intended
  {
    var received := Event(ReceivedEvent, Some(ConstantPattern("ping")), [], [], [], 0);
    var sent := Event(SentEvent, Some(ConstantPattern("ping")), [], [], [], 0);
    asWritten := EventMatchAsWritten(received, Some(sent));
    intended := EventMatch(received, Some(sent));
  }

  // ---------------------------------------------------------------------
  // The event table of a process
  // ---------------------------------------------------------------------

  /**
   * The comparison a process's event table uses: `KindBlind` is `Event.match`
   * as the source writes it (shape alone), `KindAware` is the intended one
   * (type and shape).
   */
  datatype Matching = KindBlind | KindAware

  /** Whether stored event `a` answers a search for `b` under the matching `m`. */
  predicate Matches<C(==)>(m: Matching, a: Event<C>, b: Event<C>)
  {
    if m == KindBlind then SameShape(a, b) else Same(a, b)
  }

  /** The first stored event that matches `event`. */
  function FirstMatch<C(==)>(m: Matching, events: seq<Event<C>>, event: Option<Event<C>>): Option<Event<C>>
  {
    if event.None? || |events| == 0 then None
    else if Matches(m, events[0], event.value) then Some(events[0])
    else FirstMatch(m, events[1..], event)
  }

  /** `FirstMatch` finds a stored event exactly when one matches, and then the earliest. */
  lemma {:induction false} FirstMatchFirst<C>(m: Matching, events: seq<Event<C>>, event: Option<Event<C>>)
    ensures FirstMatch(m, events, event).None? <==>
              event.None? || forall i :: 0 <= i < |events| ==> !Matches(m, events[i], event.value)
    ensures FirstMatch(m, events, event).Some? ==>
              exists i :: 0 <= i < |events| && FirstMatch(m, events, event) == Some(events[i]) &&
                          Matches(m, events[i], event.value) &&
                          forall j :: 0 <= j < i ==> !Matches(m, events[j], event.value)
  {
    if event.Some? && |events| > 0 && !Matches(m, events[0], event.value) {
      FirstMatchFirst(m, events[1..], event);
      assert forall i :: 1 <= i < |events| ==> events[i] == events[1..][i - 1];
      if FirstMatch(m, events, event).Some? {
        var i :| 0 <= i < |events[1..]| && FirstMatch(m, events[1..], event) == Some(events[1..][i]) &&
                 Matches(m, events[1..][i], event.value) &&
                 forall j :: 0 <= j < i ==> !Matches(m, events[1..][j], event.value);
        assert events[i + 1] == events[1..][i];
      }
    }
  }

  /** Each stored event knows its position, and no two stored events match. */
  ghost predicate EventTable<C>(m: Matching, events: seq<Event<C>>)
  {
    && (forall i :: 0 <= i < |events| ==> events[i].index == i)
    && (forall i, j :: 0 <= i < j < |events| ==> !Matches(m, events[i], events[j]))
  }

  /** `add_event` on the table value: the new table and the event to use. */
  function AddEventSpec<C(==)>(m: Matching, events: seq<Event<C>>, event: Option<Event<C>>): (seq<Event<C>>, Option<Event<C>>)
  {
    var found := FirstMatch(m, events, event);
    if found.None? && event.Some? then
      var e := event.value.(index := |events|);
      (events + [e], Some(e))
    else (events, found)
  }

  /**
   * Adding keeps the table well formed, returns an event that matches the
   * one given (or nothing for nothing), and grows the table by at most one.
   */
  lemma AddEventSpecEffect<C>(m: Matching, events: seq<Event<C>>, event: Option<Event<C>>)
    requires EventTable(m, events)
    ensures EventTable(m, AddEventSpec(m, events, event).0)
    ensures event.None? ==> AddEventSpec(m, events, event) == (events, None)
    ensures event.Some? ==> AddEventSpec(m, events, event).1.Some? &&
                            Matches(m, AddEventSpec(m, events, event).1.value, event.value) &&
                            AddEventSpec(m, events, event).1.value in AddEventSpec(m, events, event).0
    ensures |AddEventSpec(m, events, event).0| <= |events| + 1
  {
    FirstMatchFirst(m, events, event);
    if event.Some? && FirstMatch(m, events, event).None? {
      var e := event.value.(index := |events|);
      var es := events + [e];
      assert forall i :: 0 <= i < |events| ==> es[i] == events[i];
      assert es[|events|] == e;
    }
  }

  /** Adding an event a second time returns what the first time returned and changes nothing. */
  lemma AddEventIdempotent<C>(m: Matching, events: seq<Event<C>>, event: Event<C>)
    requires EventTable(m, events)
    ensures var (once, r) := AddEventSpec(m, events, Some(event));
            AddEventSpec(m, once, Some(event)) == (once, r)
  {
    var (once, r) := AddEventSpec(m, events, Some(event));
    AddEventSpecEffect(m, events, Some(event));
    FirstMatchFirst(m, events, Some(event));
    FirstMatchFirst(m, once, Some(event));
    if FirstMatch(m, events, Some(event)).None? {
      assert once == events + [r.value];
      assert forall i :: 0 <= i < |events| ==> once[i] == events[i];
      assert once[|events|] == r.value;
    } else {
      assert once == events;
    }
  }

  /** `add_events` on the table value: each event added in turn, with the event to use for each. */
  function AddEventsSpec<C(==)>(m: Matching, events: seq<Event<C>>, list: seq<Option<Event<C>>>): (seq<Event<C>>, seq<Option<Event<C>>>)
    decreases |list|
  {
    if |list| == 0 then (events, [])
    else
      var (next, r) := AddEventSpec(m, events, list[0]);
      var (final, rs) := AddEventsSpec(m, next, list[1..]);
      (final, [r] + rs)
  }

  /** `add_events` answers each element: an event that matches it, or nothing for nothing. */
  lemma {:induction false} AddEventsSpecEffect<C>(m: Matching, events: seq<Event<C>>, list: seq<Option<Event<C>>>)
    requires EventTable(m, events)
    ensures EventTable(m, AddEventsSpec(m, events, list).0)
    ensures |AddEventsSpec(m, events, list).1| == |list|
    ensures forall i :: 0 <= i < |list| ==>
              (list[i].None? <==> AddEventsSpec(m, events, list).1[i].None?) &&
              (list[i].Some? ==> Matches(m, AddEventsSpec(m, events, list).1[i].value, list[i].value))
    decreases |list|
  {
    if |list| > 0 {
      AddEventSpecEffect(m, events, list[0]);
      var (next, r) := AddEventSpec(m, events, list[0]);
      AddEventsSpecEffect(m, next, list[1..]);
      var rs := AddEventsSpec(m, next, list[1..]).1;
      assert forall i :: 1 <= i < |list| ==> list[i] == list[1..][i - 1] && ([r] + rs)[i] == rs[i - 1];
    }
  }

  /**
   * The two tables part ways: with a received "ping" stored, adding a sent
   * "ping" hands back the received event and keeps one entry as written,
   * while the intended table stores the sent event as a second entry.
   */
  lemma KindBlindTableMerges()
    ensures var received := Event(ReceivedEvent, Some(ConstantPattern("ping")), [], [], [], 0);
            var sent := Event(SentEvent, Some(ConstantPattern("ping")), [], [], [], 0);
            && AddEventSpec(KindBlind, [received], Some(sent)) == ([received], Some(received))
            && AddEventSpec(KindAware, [received], Some(sent)) ==
               ([received, sent.(index := 1)], Some(sent.(index := 1)))
  {
    var received := Event(ReceivedEvent, Some(ConstantPattern("ping")), [], [], [], 0);
    var sent := Event(SentEvent, Some(ConstantPattern("ping")), [], [], [], 0);
    assert FirstMatch(KindBlind, [received], Some(sent)) == Some(received);
    assert FirstMatch(KindAware, [received][1..], Some(sent)) == None;
    assert [received] + [sent.(index := 1)] == [received, sent.(index := 1)];
  }

  /** A process's event table, searched with the comparison `matching`. */
  class Process<C(==)> {
    const matching: Matching
    var events: seq<Event<C>>

    ghost predicate Valid()
      reads this
    {
      EventTable(matching, events)
    }

    /** `KindBlind` is the process as the source builds it, `KindAware` the intended one. */
    constructor (matching: Matching)
      ensures Valid() && events == [] && this.matching == matching
    {
      this.matching := matching;
      events := [];
    }

    /** `find_event`: the first stored event that matches, by a linear search. */
    method FindEvent(event: Option<Event<C>>) returns (r: Option<Event<C>>)
      ensures r == FirstMatch(matching, events, event)
    {
      if event.Some? {
        var i := 0;
        while i < |events|
          invariant 0 <= i <= |events|
          invariant FirstMatch(matching, events[i..], event) == FirstMatch(matching, events, event)
        {
          assert events[i..][1..] == events[i + 1..];
          var found;
          if matching == KindBlind {
            found := EventMatchAsWritten(events[i], event);
          } else {
            found := EventMatch(events[i], event);
          }
          if found {
            return Some(events[i]);
          }
          i := i + 1;
        }
      }
      return None;
    }

    /** `add_event`: the matching stored event, or the event itself stored at the end with its position as index. */
    method AddEvent(event: Option<Event<C>>) returns (r: Option<Event<C>>)
      requires Valid()
      modifies this
      ensures Valid()
      ensures (events, r) == AddEventSpec(matching, old(events), event)
    {
      AddEventSpecEffect(matching, events, event);
      var m := FindEvent(event);
      if m.None? && event.Some? {
        var e := event.value.(index := |events|);
        events := events + [e];
        return Some(e);
      }
      return m;
    }

    /** `add_events`: `add_event` for each element in turn, collecting the answers. */
    method AddEvents(list: seq<Option<Event<C>>>) returns (filtered: seq<Option<Event<C>>>)
      requires Valid()
      modifies this
      ensures Valid()
      ensures events == AddEventsSpec(matching, old(events), list).0
      ensures filtered == AddEventsSpec(matching, old(events), list).1
    {
      filtered := [];
      var i := 0;
      assert list[i..] == list;
      while i < |list|
        invariant 0 <= i <= |list|
        invariant Valid()
        invariant AddEventsSpec(matching, old(events), list).0 == AddEventsSpec(matching, events, list[i..]).0
        invariant AddEventsSpec(matching, old(events), list).1 == filtered + AddEventsSpec(matching, events, list[i..]).1
      {
        assert list[i..][0] == list[i] && list[i..][1..] == list[i + 1..];
        ghost var before := events;
        var r := AddEvent(list[i]);
        assert AddEventsSpec(matching, before, list[i..]).0 == AddEventsSpec(matching, events, list[i + 1..]).0;
        assert AddEventsSpec(matching, before, list[i..]).1 == [r] + AddEventsSpec(matching, events, list[i + 1..]).1;
        filtered := filtered + [r];
        i := i + 1;
      }
      assert list[i..] == [];
    }
  }

  // ---------------------------------------------------------------------
  // ints(...)
  // ---------------------------------------------------------------------

  /** An `IntsExpr` node: its start, step and end sub-expressions, each possibly absent. */
  datatype IntsExpr<E> = IntsExpr(start: Option<E>, end: Option<E>, step: Option<E>)

  /** `IntsExpr(args)`: one argument is the end; two are start and end; three are start, step and end. */
  function MakeIntsExpr<E>(args: seq<E>): (r: IntsExpr<E>)
    requires 1 <= |args| <= 3
    ensures r.end == Some(args[|args| - 1])
    ensures r.start.Some? <==> |args| >= 2
    ensures r.start.Some? ==> r.start.value == args[0]
    ensures r.step.Some? <==> |args| == 3
    ensures r.step.Some? ==> r.step.value == args[1]
  {
    if |args| == 1 then IntsExpr(None, Some(args[0]), None)
    else if |args| == 2 then IntsExpr(Some(args[0]), Some(args[1]), None)
    else IntsExpr(Some(args[0]), Some(args[2]), Some(args[1]))
  }

  /** The argument list an `IntsExpr` was built from. */
  function ArgsOf<E>(x: IntsExpr<E>): seq<E>
  {
    (if x.start.Some? then [x.start.value] else []) +
    (if x.step.Some? then [x.step.value] else []) +
    (if x.end.Some? then [x.end.value] else [])
  }

  /** The node keeps its arguments: they can be read back in their order. */
  lemma IntsExprArgs<E>(args: seq<E>)
    requires 1 <= |args| <= 3
    ensures ArgsOf(MakeIntsExpr(args)) == args
  {
    if |args| == 3 {
      assert args == [args[0]] + [args[1]] + [args[2]];
    } else if |args| == 2 {
      assert args == [args[0]] + [args[1]];
    }
  }
}
