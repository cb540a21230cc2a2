/**
 * Name resolution in the compiler's syntax tree: `NamedVar`, the single
 * object that stands for every occurrence of one variable in one scope
 * together with the index of where it is assigned, updated and read; and
 * `NameScope`, the map from names to `NamedVar`s that scope-owning nodes
 * carry, with Python's rule that class bodies are skipped when a nested
 * scope looks outwards, and the lockable scopes of comprehensions that
 * hand new names to their parent while locked.
 *
 * Syntax-tree nodes are represented by `RefNode` values carrying their
 * identity and the index of their enclosing scope; a scope's parent link
 * is its nearest enclosing scope, the non-scope nodes in between being
 * left out.
 */
module Scopes {
  import opened Wrappers

  // ---------------------------------------------------------------------
  // NamedVar and its index
  // ---------------------------------------------------------------------

  /** `AssignmentCtx`, `UpdateCtx`, `ReadCtx`. */
  datatype Ctx = AssignmentCtx | UpdateCtx | ReadCtx

  /** A type context: the node in which a name was bound, by identity. */
  type TypeCtx = nat

  /** A syntax-tree node by identity, with the index of its scope and whether it has a parent. */
  datatype RefNode = RefNode(id: nat, scope: nat, attached: bool)

  /** One `(ctx, (node, typectx))` entry of a `NamedVar`'s index. */
  datatype IndexEntry = IndexEntry(ctx: Ctx, node: RefNode, typectx: Option<TypeCtx>)

  /** The `(node, typectx)` pairs of the entries of one kind, in order. */
  function Select(entries: seq<IndexEntry>, ctx: Ctx): (r: seq<(RefNode, Option<TypeCtx>)>)
    ensures |r| <= |entries|
    ensures forall p :: p in r <==> exists e :: e in entries && e.ctx == ctx && p == (e.node, e.typectx)
  {
    if |entries| == 0 then []
    else
      var rest := Select(entries[1..], ctx);
      if entries[0].ctx == ctx then [(entries[0].node, entries[0].typectx)] + rest else rest
  }

  lemma {:induction false} SelectAppend(a: seq<IndexEntry>, b: seq<IndexEntry>, ctx: Ctx)
    ensures Select(a + b, ctx) == Select(a, ctx) + Select(b, ctx)
  {
    if |a| > 0 {
      assert (a + b)[1..] == a[1..] + b;
      SelectAppend(a[1..], b, ctx);
    } else {
      assert a + b == b;
    }
  }

  /** `index_replace_node`: every entry for `oldnode` gets `newnode`, or is dropped when there is none. */
  function ReplaceNode(entries: seq<IndexEntry>, oldnode: RefNode, newnode: Option<RefNode>): seq<IndexEntry>
  {
    if |entries| == 0 then []
    else
      var rest := ReplaceNode(entries[1..], oldnode, newnode);
      var e := entries[0];
      if e.node == oldnode then
        if newnode.Some? then [e.(node := newnode.value)] + rest else rest
      else [e] + rest
  }

  /**
   * Replacing keeps every entry in place and changes only the node of those
   * that referred to the old node; the kinds and type contexts stay.
   */
  lemma {:induction false} ReplaceNodeSubstitutes(entries: seq<IndexEntry>, oldnode: RefNode, newnode: RefNode)
    ensures |ReplaceNode(entries, oldnode, Some(newnode))| == |entries|
    ensures forall i :: 0 <= i < |entries| ==>
              ReplaceNode(entries, oldnode, Some(newnode))[i] ==
              (if entries[i].node == oldnode then entries[i].(node := newnode) else entries[i])
  {
    if |entries| > 0 {
      ReplaceNodeSubstitutes(entries[1..], oldnode, newnode);
    }
  }

  /** Rebuilding entry by entry: the replacement of a concatenation is the concatenation of the replacements. */
  lemma {:induction false} ReplaceNodeAppend(a: seq<IndexEntry>, b: seq<IndexEntry>, oldnode: RefNode, newnode: Option<RefNode>)
    ensures ReplaceNode(a + b, oldnode, newnode) == ReplaceNode(a, oldnode, newnode) + ReplaceNode(b, oldnode, newnode)
  {
    if |a| > 0 {
      assert (a + b)[1..] == a[1..] + b;
      ReplaceNodeAppend(a[1..], b, oldnode, newnode);
    } else {
      assert a + b == b;
    }
  }

  /**
   * Replacing by nothing removes exactly the entries for the old node, and
   * keeps the others in their order: an entry for another node stays, one
   * for the old node leaves, and the result at any split point is the
   * result of the front followed by the result of the back.
   */
  lemma {:induction false} ReplaceNodeRemoves(entries: seq<IndexEntry>, oldnode: RefNode)
    ensures forall e :: e in ReplaceNode(entries, oldnode, None) <==> e in entries && e.node != oldnode
    ensures oldnode !in NodesOf(ReplaceNode(entries, oldnode, None))
    ensures (forall e :: e in entries ==> e.node != oldnode) ==> ReplaceNode(entries, oldnode, None) == entries
    ensures forall i :: 0 <= i <= |entries| ==>
              ReplaceNode(entries, oldnode, None) ==
              ReplaceNode(entries[..i], oldnode, None) + ReplaceNode(entries[i..], oldnode, None)
  {
    if |entries| > 0 {
      ReplaceNodeRemoves(entries[1..], oldnode);
      assert entries == [entries[0]] + entries[1..];
    }
    forall i | 0 <= i <= |entries|
      ensures ReplaceNode(entries, oldnode, None) ==
              ReplaceNode(entries[..i], oldnode, None) + ReplaceNode(entries[i..], oldnode, None)
    {
      assert entries == entries[..i] + entries[i..];
      ReplaceNodeAppend(entries[..i], entries[i..], oldnode, None);
    }
  }

  function NodesOf(entries: seq<IndexEntry>): (r: seq<RefNode>)
    ensures |r| == |entries|
    ensures forall i :: 0 <= i < |entries| ==> r[i] == entries[i].node
  {
    seq(|entries|, i requires 0 <= i < |entries| => entries[i].node)
  }

  /** A read whose node lies in the given scope. */
  predicate ReadIn(e: IndexEntry, scope: nat)
  {
    e.ctx == ReadCtx && e.node.scope == scope
  }

  /** The entries `purge_reads` keeps. */
  function Kept(entries: seq<IndexEntry>, scope: nat): seq<IndexEntry>
  {
    if |entries| == 0 then []
    else
      var rest := Kept(entries[1..], scope);
      if ReadIn(entries[0], scope) then rest else [entries[0]] + rest
  }

  /** The `(node, typectx)` pairs `purge_reads` returns. */
  function Purged(entries: seq<IndexEntry>, scope: nat): seq<(RefNode, Option<TypeCtx>)>
  {
    if |entries| == 0 then []
    else
      var rest := Purged(entries[1..], scope);
      if ReadIn(entries[0], scope) then [(entries[0].node, entries[0].typectx)] + rest else rest
  }

  /** One entry's step of `Purged` and `Kept`. */
  lemma PurgeStep(es: seq<IndexEntry>, i: nat, scope: nat)
    requires i < |es|
    ensures Purged(es[i..], scope) ==
              (if ReadIn(es[i], scope) then [(es[i].node, es[i].typectx)] else []) + Purged(es[i + 1..], scope)
    ensures Kept(es[i..], scope) == (if ReadIn(es[i], scope) then [] else [es[i]]) + Kept(es[i + 1..], scope)
  {
    assert es[i..][1..] == es[i + 1..];
  }

  /**
   * `purge_reads` splits the index: nothing is lost or duplicated, no read in
   * the scope remains, everything else remains in order, and the
   * assignments and updates are untouched.
   */
  lemma {:induction false} PurgeReadsPartition(entries: seq<IndexEntry>, scope: nat)
    ensures |Kept(entries, scope)| + |Purged(entries, scope)| == |entries|
    ensures forall e :: e in Kept(entries, scope) <==> e in entries && !ReadIn(e, scope)
    ensures Select(Kept(entries, scope), AssignmentCtx) == Select(entries, AssignmentCtx)
    ensures Select(Kept(entries, scope), UpdateCtx) == Select(entries, UpdateCtx)
    ensures forall p :: p in Purged(entries, scope) <==>
              exists e :: e in entries && ReadIn(e, scope) && p == (e.node, e.typectx)
  {
    if |entries| > 0 {
      PurgeReadsPartition(entries[1..], scope);
      assert entries == [entries[0]] + entries[1..];
      var rest := Kept(entries[1..], scope);
      if !ReadIn(entries[0], scope) {
        assert ([entries[0]] + rest)[1..] == rest;
      }
    }
  }

  /** The first known type context of a list of pairs. */
  function FirstKnown(items: seq<(RefNode, Option<TypeCtx>)>): (r: Option<TypeCtx>)
  {
    if |items| == 0 then None
    else if items[0].1.Some? then items[0].1
    else FirstKnown(items[1..])
  }

  /** `FirstKnown` gives the type context of the first pair that has one, and `None` when none does. */
  lemma {:induction false} FirstKnownFirst(items: seq<(RefNode, Option<TypeCtx>)>)
    ensures FirstKnown(items).None? <==> forall i :: 0 <= i < |items| ==> items[i].1.None?
    ensures FirstKnown(items).Some? ==>
              exists i :: 0 <= i < |items| && items[i].1 == FirstKnown(items) &&
                          forall j :: 0 <= j < i ==> items[j].1.None?
  {
    if |items| > 0 && items[0].1.None? {
      FirstKnownFirst(items[1..]);
      if FirstKnown(items).Some? {
        var i :| 0 <= i < |items[1..]| && items[1..][i].1 == FirstKnown(items[1..]) &&
                 forall j :: 0 <= j < i ==> items[1..][j].1.None?;
        assert items[i + 1].1 == FirstKnown(items);
      }
    }
  }

  /** `get_typectx`: assignments take precedence over updates, updates over reads. */
  function TypeCtxOf(entries: seq<IndexEntry>): Option<TypeCtx>
  {
    var a := FirstKnown(Select(entries, AssignmentCtx));
    var u := FirstKnown(Select(entries, UpdateCtx));
    if a.Some? then a else if u.Some? then u else FirstKnown(Select(entries, ReadCtx))
  }

  /** The type context is unknown exactly when no entry carries one. */
  lemma {:induction false} TypeCtxUnknown(entries: seq<IndexEntry>)
    ensures TypeCtxOf(entries).None? <==> forall i :: 0 <= i < |entries| ==> entries[i].typectx.None?
  {
    if |entries| > 0 {
      TypeCtxUnknown(entries[1..]);
      var e := entries[0];
      var rest := Select(entries[1..], e.ctx);
      assert Select(entries, e.ctx) == [(e.node, e.typectx)] + rest;
      assert ([(e.node, e.typectx)] + rest)[1..] == rest;
      assert forall i :: 1 <= i < |entries| ==> entries[i] == entries[1..][i - 1];
    }
  }

  class NamedVar {
    const name: string
    var indexes: seq<IndexEntry>

    constructor (name: string)
      ensures this.name == name && indexes == []
    {
      this.name := name;
      indexes := [];
    }

    /** `assignments`, `updates` and `reads`: the pairs of one kind, in the order they were added. */
    function Items(ctx: Ctx): seq<(RefNode, Option<TypeCtx>)>
      reads this
    {
      Select(indexes, ctx)
    }

    /** `add_assignment`; the node must have a parent. */
    method AddAssignment(node: RefNode, typectx: Option<TypeCtx>)
      requires node.attached
      modifies this`indexes
      ensures indexes == old(indexes) + [IndexEntry(AssignmentCtx, node, typectx)]
    {
      indexes := indexes + [IndexEntry(AssignmentCtx, node, typectx)];
    }

    /** `add_update`; the node must have a parent. */
    method AddUpdate(node: RefNode, typectx: Option<TypeCtx>)
      requires node.attached
      modifies this`indexes
      ensures indexes == old(indexes) + [IndexEntry(UpdateCtx, node, typectx)]
    {
      indexes := indexes + [IndexEntry(UpdateCtx, node, typectx)];
    }

    /** `add_read`; the node must have a parent. */
    method AddRead(node: RefNode, typectx: Option<TypeCtx>)
      requires node.attached
      modifies this`indexes
      ensures indexes == old(indexes) + [IndexEntry(ReadCtx, node, typectx)]
    {
      indexes := indexes + [IndexEntry(ReadCtx, node, typectx)];
    }

    /** `merge(target)`: the target's entries follow this name's own. */
    method Merge(target: NamedVar)
      modifies this`indexes
      ensures indexes == old(indexes) + old(target.indexes)
      ensures forall c :: Items(c) == old(Items(c)) + old(target.Items(c))
    {
      SelectAppendAll(indexes, target.indexes);
      indexes := indexes + target.indexes;
    }

    /** `index_replace_node(oldnode, newnode)`, rebuilding the index entry by entry. */
    method IndexReplaceNode(oldnode: RefNode, newnode: Option<RefNode>)
      modifies this`indexes
      ensures indexes == ReplaceNode(old(indexes), oldnode, newnode)
    {
      var res: seq<IndexEntry> := [];
      var i := 0;
      while i < |indexes|
        invariant 0 <= i <= |indexes|
        invariant res + ReplaceNode(indexes[i..], oldnode, newnode) == ReplaceNode(indexes, oldnode, newnode)
      {
        assert indexes[i..][1..] == indexes[i + 1..];
        var e := indexes[i];
        if e.node == oldnode {
          if newnode.Some? {
            res := res + [e.(node := newnode.value)];
          }
        } else {
          res := res + [e];
        }
        i := i + 1;
      }
      indexes := res;
    }

    /** `purge_reads(scope)`: drop the reads in the scope and return them. */
    method PurgeReads(scope: nat) returns (removed: seq<(RefNode, Option<TypeCtx>)>)
      modifies this`indexes
      ensures removed == Purged(old(indexes), scope)
      ensures indexes == Kept(old(indexes), scope)
    {
      var es := indexes;
      removed := [];
      var remain: seq<IndexEntry> := [];
      var i := 0;
      while i < |es|
        invariant 0 <= i <= |es|
        invariant removed + Purged(es[i..], scope) == Purged(es, scope)
        invariant remain + Kept(es[i..], scope) == Kept(es, scope)
      {
        PurgeStep(es, i, scope);
        var e := es[i];
        // a read whose node lies in the scope leaves; everything else stays
        if ReadIn(e, scope) {
          removed := removed + [(e.node, e.typectx)];
        } else {
          remain := remain + [e];
        }
        i := i + 1;
      }
      indexes := remain;
    }

    /** `get_typectx`: the first known type context among the assignments, else the updates, else the reads. */
    method GetTypectx() returns (r: Option<TypeCtx>)
      ensures r == TypeCtxOf(indexes)
    {
      r := FirstKnownOf(Items(AssignmentCtx));
      if r.Some? {
        return;
      }
      r := FirstKnownOf(Items(UpdateCtx));
      if r.Some? {
        return;
      }
      r := FirstKnownOf(Items(ReadCtx));
    }
  }

  /** One of `get_typectx`'s loops: the type context of the first pair that has one. */
  method FirstKnownOf(items: seq<(RefNode, Option<TypeCtx>)>) returns (r: Option<TypeCtx>)
    ensures r == FirstKnown(items)
  {
    var i := 0;
    while i < |items|
      invariant 0 <= i <= |items|
      invariant FirstKnown(items[i..]) == FirstKnown(items)
    {
      assert items[i..][1..] == items[i + 1..];
      if items[i].1.Some? {
        return items[i].1;
      }
      i := i + 1;
    }
    return None;
  }

  lemma SelectAppendAll(a: seq<IndexEntry>, b: seq<IndexEntry>)
    ensures forall c :: Select(a + b, c) == Select(a, c) + Select(b, c)
  {
    forall c: Ctx {
      SelectAppend(a, b, c);
    }
  }

  // ---------------------------------------------------------------------
  // NameScope
  // ---------------------------------------------------------------------

  /** The kinds of scope that differ in behaviour: class bodies are skipped, comprehensions can lock. */
  datatype ScopeKind = PlainScope | ClassScope | LockableScope

  datatype ScopeError = ParentScopeMissing

  /** `map(a, b)` with the bindings of `a` and those of `b` for the names `a` lacks. */
  function MergeMaps<V>(a: map<string, V>, b: map<string, V>): (r: map<string, V>)
    ensures r.Keys == a.Keys + b.Keys
  {
    map n | n in a.Keys + b.Keys :: if n in a then a[n] else b[n]
  }

  /** Merging keeps every local binding and adds only missing names; doing it twice changes nothing more. */
  lemma MergeMapsLocalWins<V>(a: map<string, V>, b: map<string, V>)
    ensures forall n :: n in a ==> MergeMaps(a, b)[n] == a[n]
    ensures forall n :: n in b && n !in a ==> MergeMaps(a, b)[n] == b[n]
    ensures MergeMaps(MergeMaps(a, b), b) == MergeMaps(a, b)
    ensures MergeMaps(a, a) == a
  {
  }

  lemma MergeMapsEqual<V>(a: map<string, V>, b: map<string, V>, r: map<string, V>)
    requires forall n :: n in r <==> n in a || n in b
    requires forall n :: n in a ==> r[n] == a[n]
    requires forall n :: n in b && n !in a ==> r[n] == b[n]
    ensures r == MergeMaps(a, b)
  {
  }

  class NameScope {
    /** `NameScope._index`: the scope's identity. */
    const index: nat
    const kind: ScopeKind
    /** The nearest enclosing scope-owning node. */
    const enclosing: NameScope?
    ghost const depth: nat
    var names: map<string, NamedVar>
    var locked: bool

    /** The enclosing chain ends at a top-level scope. */
    ghost predicate Rooted()
      decreases depth
    {
      enclosing == null || (enclosing.depth < depth && enclosing.Rooted())
    }

    /** `skip`: class scopes are passed over when a nested scope looks outwards. */
    predicate Skip()
    {
      kind == ClassScope
    }

    constructor (index: nat, kind: ScopeKind, enclosing: NameScope?)
      requires enclosing != null ==> enclosing.Rooted()
      ensures Rooted()
      ensures this.index == index && this.kind == kind && this.enclosing == enclosing
      ensures names == map[] && !locked
    {
      this.index := index;
      this.kind := kind;
      this.enclosing := enclosing;
      this.depth := if enclosing == null then 0 else enclosing.depth + 1;
      names := map[];
      locked := false;
    }

    /** `parent_scope`: the nearest enclosing scope that is not skipped. */
    function ParentScopeOf(): (r: NameScope?)
      requires Rooted()
      ensures r != null ==> r.Rooted() && r.depth < depth && !r.Skip()
    {
      NearestUnskipped(enclosing)
    }

    /** `parent_scope`, walking the parent links. */
    method ParentScope() returns (r: NameScope?)
      requires Rooted()
      ensures r == ParentScopeOf()
    {
      var p := enclosing;
      while p != null
        invariant p != null ==> p.Rooted()
        invariant NearestUnskipped(p) == ParentScopeOf()
        decreases if p == null then 0 else p.depth + 1
      {
        if !p.Skip() {
          return p;
        }
        p := p.enclosing;
      }
      return null;
    }

    /** The scope and the scopes its lookups fall back to. */
    ghost function Visible(): set<NameScope>
      requires Rooted()
      decreases depth
    {
      {this} + if ParentScopeOf() == null then {} else ParentScopeOf().Visible()
    }

    /** The same scopes, nearest first. */
    ghost function VisibleSeq(): (r: seq<NameScope>)
      requires Rooted()
      ensures |r| > 0 && r[0] == this
      ensures forall s :: s in r ==> s in Visible()
      decreases depth
    {
      [this] + if ParentScopeOf() == null then [] else ParentScopeOf().VisibleSeq()
    }

    /**
     * `find_name(name, local)`: the local binding; else, unless `local`,
     * the binding the parent scope finds; else nothing.
     */
    function FindName(name: string, local: bool): (r: NamedVar?)
      requires Rooted()
      reads Visible()
      ensures local ==> r == if name in names then names[name] else null
      decreases depth
    {
      if name in names then names[name]
      else if local then null
      else if ParentScopeOf() != null then ParentScopeOf().FindName(name, false)
      else null
    }

    /** The scope whose table `add_name` changes: a locked scope hands names on, outwards. */
    ghost function AddTarget(): (t: NameScope?)
      requires Rooted()
      reads Visible()
      ensures t != null ==> t in Visible() && t.Rooted()
      decreases depth
    {
      if kind == LockableScope && locked then
        if ParentScopeOf() == null then null else ParentScopeOf().AddTarget()
      else this
    }

    ghost function TargetSet(): set<NameScope>
      requires Rooted()
      reads Visible()
    {
      if AddTarget() == null then {} else {AddTarget()}
    }

    /**
     * `add_name(name)`: the existing local binding, or a new `NamedVar`
     * bound here; a locked lockable scope asks its parent scope instead,
     * and fails its assertion when it has none.
     */
    method AddName(name: string) returns (r: Result<NamedVar, ScopeError>)
      requires Rooted()
      modifies TargetSet()`names
      ensures old(AddTarget()) == null ==> r == Failure(ParentScopeMissing)
      ensures old(AddTarget()) != null ==>
                var t := old(AddTarget());
                && r.Success?
                && (name in old(t.names) ==> r.value == old(t.names[name]) && t.names == old(t.names))
                && (name !in old(t.names) ==>
                      fresh(r.value) && r.value.name == name && r.value.indexes == [] &&
                      t.names == old(t.names)[name := r.value])
      decreases depth
    {
      if kind == LockableScope && locked {
        var p := ParentScopeOf();
        if p == null {
          return Failure(ParentScopeMissing);
        }
        assert p.AddTarget() == AddTarget();
        r := p.AddName(name);
      } else {
        assert AddTarget() == this;
        var obj := FindName(name, true);
        if obj != null {
          return Success(obj);
        }
        var v := new NamedVar(name);
        names := names[name := v];
        return Success(v);
      }
    }

    /** `merge_scope(target)`: bind here the target's names this scope lacks. */
    method MergeScope(target: NameScope)
      modifies this`names
      ensures names == MergeMaps(old(names), old(target.names))
    {
      if target == this {
        MergeMapsLocalWins(names, names);
        return;
      }
      var own, source := names, target.names;
      var merged := own;
      var pending := source.Keys;
      ghost var done: set<string> := {};
      while pending != {}
        invariant pending + done == source.Keys && pending !! done
        invariant forall n :: n in merged <==> n in own || n in done
        invariant forall n :: n in own ==> merged[n] == own[n]
        invariant forall n :: n in done && n !in own ==> merged[n] == source[n]
        decreases |pending|
      {
        var n :| n in pending;
        if n !in merged {
          merged := merged[n := source[n]];
        }
        pending := pending - {n};
        done := done + {n};
      }
      MergeMapsEqual(own, source, merged);
      names := merged;
    }

    /** `lock`. */
    method Lock()
      modifies this`locked
      ensures locked
    {
      locked := true;
    }

    /** `unlock`. */
    method Unlock()
      modifies this`locked
      ensures !locked
    {
      locked := false;
    }
  }

  /** The first scope along the enclosing chain from `p` that is not skipped. */
  function NearestUnskipped(p: NameScope?): (r: NameScope?)
    requires p != null ==> p.Rooted()
    ensures r != null ==> p != null && r.Rooted() && !r.Skip() && r.depth <= p.depth
    decreases if p == null then 0 else p.depth + 1
  {
    if p == null then null else if !p.Skip() then p else NearestUnskipped(p.enclosing)
  }

  /** `parent_scope` passes over class scopes only: every scope it skips is a class scope. */
  lemma {:induction false} NearestUnskippedSkipsClasses(p: NameScope?)
    requires p != null ==> p.Rooted()
    ensures NearestUnskipped(p) == null <==> AllSkipped(p)
    decreases if p == null then 0 else p.depth + 1
  {
    if p != null && p.Skip() {
      NearestUnskippedSkipsClasses(p.enclosing);
    }
  }

  /** Every scope on the enclosing chain from `p` is a class scope. */
  ghost predicate AllSkipped(p: NameScope?)
    requires p != null ==> p.Rooted()
    decreases if p == null then 0 else p.depth + 1
  {
    p == null || (p.kind == ClassScope && AllSkipped(p.enclosing))
  }

  /**
   * Lookup finds the binding of the nearest visible scope that binds the
   * name, and nothing when none of them does.
   */
  lemma {:induction false} FindNameNearest(s: NameScope, name: string)
    requires s.Rooted()
    ensures s.FindName(name, false) == null <==>
              forall i :: 0 <= i < |s.VisibleSeq()| ==> name !in s.VisibleSeq()[i].names
    ensures s.FindName(name, false) != null ==>
              exists i :: 0 <= i < |s.VisibleSeq()| && name in s.VisibleSeq()[i].names &&
                          s.FindName(name, false) == s.VisibleSeq()[i].names[name] &&
                          forall j :: 0 <= j < i ==> name !in s.VisibleSeq()[j].names
    decreases s.depth
  {
    var p := s.ParentScopeOf();
    if name in s.names {
      assert s.VisibleSeq()[0] == s;
    } else if p == null {
      assert s.VisibleSeq() == [s];
    } else {
      FindNameNearest(p, name);
      assert s.VisibleSeq() == [s] + p.VisibleSeq();
      if p.FindName(name, false) != null {
        var i :| 0 <= i < |p.VisibleSeq()| && name in p.VisibleSeq()[i].names &&
                 p.FindName(name, false) == p.VisibleSeq()[i].names[name] &&
                 forall j :: 0 <= j < i ==> name !in p.VisibleSeq()[j].names;
        assert s.VisibleSeq()[i + 1] == p.VisibleSeq()[i];
        forall j | 0 <= j < i + 1
          ensures name !in s.VisibleSeq()[j].names
        {
          if j > 0 { assert s.VisibleSeq()[j] == p.VisibleSeq()[j - 1]; }
        }
      } else {
        forall k | 0 <= k < |s.VisibleSeq()|
          ensures name !in s.VisibleSeq()[k].names
        {
          if k > 0 { assert s.VisibleSeq()[k] == p.VisibleSeq()[k - 1]; }
        }
      }
    }
  }
}
