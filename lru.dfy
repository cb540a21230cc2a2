/**
 * The length-limited LRU table: a dict from key to list node plus a
 * doubly linked list of `(key, value)` nodes, oldest first. Here the list
 * is the sequence of its keys and the dict is a map to the values.
 */
module Lru {
  import opened Wrappers

  predicate Distinct<K(==,!new)>(s: seq<K>)
  {
    forall i, j :: 0 <= i < j < |s| ==> s[i] != s[j]
  }

  /** The list without the node for `k`, the other nodes keeping their order. */
  function Remove<K(==,!new)>(s: seq<K>, k: K): (r: seq<K>)
    ensures forall x :: x in r <==> x in s && x != k
    ensures Distinct(s) ==> Distinct(r)
    ensures k !in s ==> r == s
  {
    if |s| == 0 then []
    else if s[0] == k then Remove(s[1..], k)
    else
      var rest := Remove(s[1..], k);
      DistinctTail(s);
      if Distinct(s) then DistinctCons(s[0], rest); [s[0]] + rest else [s[0]] + rest
  }

  /** Unlinking a key that occurs once leaves the nodes before and after it, in their order. */
  lemma {:induction false} RemoveAt<K(!new)>(s: seq<K>, i: nat)
    requires Distinct(s) && i < |s|
    ensures Remove(s, s[i]) == s[..i] + s[i + 1..]
  {
    var k, front, back := s[i], s[..i], s[i + 1..];
    assert s == front + ([k] + back);
    forall j | 0 <= j < |front| ensures front[j] != k { assert front[j] == s[j]; }
    forall j | 0 <= j < |back| ensures back[j] != k { assert back[j] == s[i + 1 + j]; }
    RemoveAppend(front, [k] + back, k);
    assert ([k] + back)[1..] == back;
    RemoveAbsent(front, k);
    RemoveAbsent(back, k);
  }

  /** Unlinking from a concatenated list unlinks from each part. */
  lemma {:induction false} RemoveAppend<K(!new)>(a: seq<K>, b: seq<K>, k: K)
    ensures Remove(a + b, k) == Remove(a, k) + Remove(b, k)
  {
    if |a| == 0 {
      assert a + b == b;
    } else {
      assert (a + b)[1..] == a[1..] + b;
      RemoveAppend(a[1..], b, k);
    }
  }

  lemma RemoveAbsent<K(!new)>(s: seq<K>, k: K)
    requires k !in s
    ensures Remove(s, k) == s
  {
  }

  lemma DistinctTail<K(!new)>(s: seq<K>)
    requires |s| > 0
    ensures Distinct(s) ==> Distinct(s[1..]) && s[0] !in s[1..]
  {
  }

  lemma DistinctCons<K(!new)>(x: K, s: seq<K>)
    requires Distinct(s) && x !in s
    ensures Distinct([x] + s)
  {
  }

  lemma DistinctSnoc<K(!new)>(s: seq<K>, k: K)
    requires Distinct(s) && k !in s
    ensures Distinct(s + [k])
  {
  }

  /** The linked list and the dict as one value. */
  datatype State<K, V> = State(order: seq<K>, d: map<K, V>)

  /**
   * The table's invariant: each key has exactly one node, the nodes are the
   * dict's keys, and there are at most `count` of them.
   */
  ghost predicate WellFormed<K(!new), V>(st: State<K, V>, count: nat)
  {
    && Distinct(st.order)
    && (forall x :: x in st.order <==> x in st.d)
    && |st.order| <= count
  }

  /**
   * `table[k] = v`: the key's old node (if any) is unlinked, a new node is
   * linked at the newest end, and when the table then holds more than
   * `count` entries the oldest node is dropped. (The list and the dict
   * always have the same size, so the list length is the source's
   * `len(self.d)`.)
   */
  function Put<K(==,!new), V>(st: State<K, V>, count: nat, k: K, v: V): State<K, V>
  {
    var o := Remove(st.order, k) + [k];
    var dd := st.d[k := v];
    if |o| > count then State(o[1..], dd - {o[0]}) else State(o, dd)
  }

  /**
   * What a store does to a well-formed table: the invariant holds again,
   * the key is the newest entry with the new value, an existing key or a
   * table with room loses nothing else, and otherwise exactly the oldest
   * entry is evicted; no other entry changes value.
   */
  lemma PutEffect<K(!new), V>(st: State<K, V>, count: nat, k: K, v: V)
    requires count >= 1 && WellFormed(st, count)
    ensures var r := Put(st, count, k, v);
            && WellFormed(r, count)
            && |r.order| > 0 && r.order[|r.order| - 1] == k
            && k in r.d && r.d[k] == v
            && (forall x :: x in r.d && x != k ==> x in st.d && r.d[x] == st.d[x])
            && (k in st.d || |st.order| < count ==> forall x :: x in st.d ==> x in r.d)
            && (k !in st.d && |st.order| == count ==>
                  st.order[0] !in r.d && forall x :: x in st.d && x != st.order[0] ==> x in r.d)
  {
    var o := Remove(st.order, k) + [k];
    RemoveLength(st.order, k);
    DistinctSnoc(Remove(st.order, k), k);
    if |o| > count {
      assert Remove(st.order, k) == st.order;
      assert o[0] == st.order[0];
      assert o[1..][|o| - 2] == k;
      DistinctTail(o);
      EvictOldest(o, st.d[k := v]);
    }
  }

  /** A store keeps the table well formed. */
  lemma PutWellFormed<K(!new), V>(st: State<K, V>, count: nat, k: K, v: V)
    requires count >= 1 && WellFormed(st, count)
    ensures WellFormed(Put(st, count, k, v), count)
  {
    PutEffect(st, count, k, v);
  }

  /** Dropping the first node of a list where each key occurs once removes exactly that key. */
  lemma EvictOldest<K(!new), V>(o: seq<K>, d: map<K, V>)
    requires |o| > 0 && Distinct(o)
    requires forall x :: x in o <==> x in d
    ensures forall x :: x in o[1..] <==> x in d - {o[0]}
  {
    DistinctTail(o);
    forall x | x in d - {o[0]}
      ensures x in o[1..]
    {
      var i :| 0 <= i < |o| && o[i] == x;
      assert o[1..][i - 1] == x;
    }
  }

  /** In a list where each key occurs once, removing a key shortens the list by one exactly when it is present. */
  lemma {:induction false} RemoveLength<K(!new)>(s: seq<K>, k: K)
    requires Distinct(s)
    ensures |Remove(s, k)| == if k in s then |s| - 1 else |s|
  {
    if |s| > 0 {
      assert Distinct(s[1..]);
      RemoveLength(s[1..], k);
      if s[0] == k {
        assert k !in s[1..];
      }
    }
  }

  /** The state after storing each pair in turn. */
  function PutAll<K(==,!new), V>(st: State<K, V>, count: nat, pairs: seq<(K, V)>): State<K, V>
    decreases |pairs|
  {
    if |pairs| == 0 then st else PutAll(Put(st, count, pairs[0].0, pairs[0].1), count, pairs[1..])
  }

  datatype LruError = KeyError

  class Lru<K(==,!new), V> {
    const count: nat
    var order: seq<K>
    var d: map<K, V>

    ghost predicate Valid()
      reads this
    {
      count >= 1 && WellFormed(State(order, d), count)
    }

    function Contents(): State<K, V>
      reads this
    {
      State(order, d)
    }

    /** `LRU(count, pairs)`: a capacity of at least one, then each pair stored in turn. */
    constructor (count: int, pairs: seq<(K, V)>)
      ensures Valid()
      ensures this.count == if count < 1 then 1 else count
      ensures Contents() == PutAll(State([], map[]), this.count, pairs)
    {
      this.count := if count < 1 then 1 else count;
      order, d := [], map[];
      new;
      var i := 0;
      while i < |pairs|
        invariant 0 <= i <= |pairs|
        invariant Valid()
        invariant PutAll(Contents(), this.count, pairs[i..]) == PutAll(State([], map[]), this.count, pairs)
      {
        assert pairs[i..][1..] == pairs[i + 1..];
        SetItem(pairs[i].0, pairs[i].1);
        i := i + 1;
      }
    }

    /** `k in table`: a question to the dict, which in a valid table agrees with the list of nodes. */
    predicate Contains(k: K): (r: bool)
      reads this
      ensures Valid() ==> (r <==> k in order)
    {
      k in d
    }

    /** `table[k] = v`. */
    method SetItem(k: K, v: V)
      requires Valid()
      modifies this`order, this`d
      ensures Valid()
      ensures Contents() == Put(old(Contents()), count, k, v)
    {
      ghost var before := Contents();
      PutWellFormed(before, count, k, v);
      if k in d {
        var _ := DelItem(k);
      }
      assert order == Remove(before.order, k) && d[k := v] == before.d[k := v];
      // link the new node at the newest end, then evict the oldest on overflow
      var o, dd := order + [k], d[k := v];
      if |o| > count {
        order, d := o[1..], dd - {o[0]};
      } else {
        order, d := o, dd;
      }
      assert Contents() == Put(before, count, k, v);
    }

    /** `del table[k]`: `KeyError` for an absent key, else its node is unlinked. */
    method DelItem(k: K) returns (r: Result<(), LruError>)
      requires Valid()
      modifies this`order, this`d
      ensures Valid()
      ensures r.Failure? <==> k !in old(d)
      ensures r.Failure? ==> r.error == KeyError && Contents() == old(Contents())
      ensures r.Success? ==> order == Remove(old(order), k) && d == old(d) - {k}
    {
      if k !in d {
        return Failure(KeyError);
      }
      RemoveLength(order, k);
      order := Remove(order, k);
      d := d - {k};
      return Success(());
    }

    /** `table[k]`: `KeyError` for an absent key, else its value, the entry becoming the newest. */
    method GetItem(k: K) returns (r: Result<V, LruError>)
      requires Valid()
      modifies this`order, this`d
      ensures Valid()
      ensures r.Failure? <==> k !in old(d)
      ensures r.Failure? ==> r.error == KeyError && Contents() == old(Contents())
      ensures r.Success? ==> r.value == old(d)[k] && Contents() == Put(old(Contents()), count, k, old(d)[k])
    {
      if k !in d {
        return Failure(KeyError);
      }
      var v := d[k];
      SetItem(k, v);
      return Success(v);
    }

    /**
     * `get(k, d=None)` as the source writes it: an absent key gives `None`
     * whatever default is passed; a present key behaves as `table[k]`.
     */
    method GetAsWritten(k: K, default: Option<V>) returns (r: Option<V>)
      requires Valid()
      modifies this`order, this`d
      ensures Valid()
      ensures k !in old(d) ==> r.None? && Contents() == old(Contents())
      ensures k in old(d) ==> r == Some(old(d)[k]) && Contents() == Put(old(Contents()), count, k, old(d)[k])
    {
      if k !in d {
        return None;
      }
      var v := d[k];
      SetItem(k, v);
      return Some(v);
    }

    /** `get(k, d)` as intended: an absent key gives the default. */
    method Get(k: K, default: Option<V>) returns (r: Option<V>)
      requires Valid()
      modifies this`order, this`d
      ensures Valid()
      ensures k !in old(d) ==> r == default && Contents() == old(Contents())
      ensures k in old(d) ==> r == Some(old(d)[k]) && Contents() == Put(old(Contents()), count, k, old(d)[k])
    {
      if k !in d {
        return default;
      }
      var v := d[k];
      SetItem(k, v);
      return Some(v);
    }

    /** `keys()`: the dict's keys, in insertion order, which is the list order. */
    function Keys(): (ks: seq<K>)
      reads this
      requires Valid()
      ensures Distinct(ks) && forall x :: x in ks <==> x in d
    {
      order
    }

    /** `iteritems()`: the `(key, value)` pairs walking the list from the oldest node. */
    method IterItems() returns (items: seq<(K, V)>)
      requires Valid()
      ensures |items| == |order|
      ensures forall i :: 0 <= i < |order| ==> items[i] == (order[i], d[order[i]])
    {
      items := [];
      var i := 0;
      while i < |order|
        invariant 0 <= i <= |order|
        invariant |items| == i
        invariant forall j :: 0 <= j < i ==> items[j] == (order[j], d[order[j]])
      {
        items := items + [(order[i], d[order[i]])];
        i := i + 1;
      }
    }

    /** `iter(table)` and `itervalues()`: the values from the oldest entry to the newest. */
    method Iter() returns (values: seq<V>)
      requires Valid()
      ensures |values| == |order|
      ensures forall i :: 0 <= i < |order| ==> values[i] == d[order[i]]
    {
      var items := IterItems();
      values := [];
      var i := 0;
      while i < |items|
        invariant 0 <= i <= |items|
        invariant |values| == i
        invariant forall j :: 0 <= j < i ==> values[j] == items[j].1
      {
        values := values + [items[i].1];
        i := i + 1;
      }
    }
  }

  /**
   * Reading an entry protects it: after `table[a]` on a full table, storing
   * a new key evicts some other entry, and `a` keeps its value.
   */
  lemma ReadProtectsFromEviction<K(!new), V>(st: State<K, V>, count: nat, a: K, k: K, v: V)
    requires count >= 2 && WellFormed(st, count) && a in st.d && k !in st.d
    ensures var touched := Put(st, count, a, st.d[a]);
            a in Put(touched, count, k, v).d && Put(touched, count, k, v).d[a] == st.d[a]
  {
    var touched := Put(st, count, a, st.d[a]);
    PutEffect(st, count, a, st.d[a]);
    PutEffect(touched, count, k, v);
    if k != a && |touched.order| == count {
      assert touched.order[|touched.order| - 1] == a;
      assert touched.order[0] != a by {
        assert touched.order[0] != touched.order[|touched.order| - 1];
      }
    }
  }

  /**
   * `get(k, d)` on a table without `k`: as written the default is ignored
   * and `None` comes back; as intended the default comes back.
   */
  method GetIgnoresDefault<K(==,!new), V>(k: K, default: V) returns (asWritten: Option<V>, intended: Option<V>)
    ensures asWritten.None? && intended == Some(default)
  {
    var table := new Lru<K, V>(1, []);
    asWritten := table.GetAsWritten(k, Some(default));
    intended := table.Get(k, Some(default));
  }
}
