/**
 * Process identities: the immutable `ProcessId` value, its total order,
 * its display forms and transport addressing, the 96-bit uid layout, and
 * the process-wide registry that publishes named identities and delivers
 * deferred lookups.
 */
module ProcessIds {
  import opened Wrappers
  import opened Text

  /** A transport address as stored in one slot of `transports`. */
  type Address = int

  /**
   * The seven fields of the `ProcessId` named tuple, in their order. The
   * process class `pcls` is represented by its class name.
   */
  datatype ProcessId = ProcessId(
    uid: nat,
    seqno: int,
    pcls: string,
    name: string,
    nodename: string,
    hostname: string,
    transports: seq<Option<Address>>)

  // ---------------------------------------------------------------------
  // Total order (named-tuple comparison, field by field)
  // ---------------------------------------------------------------------

  /** Order on transport slots: an empty slot before any address, addresses by value. */
  predicate SlotLess(x: Option<Address>, y: Option<Address>)
  {
    match (x, y)
    case (None, Some(_)) => true
    case (Some(a), Some(b)) => a < b
    case _ => false
  }

  lemma SlotLessStrictTotal()
    ensures StrictTotal(SlotLess)
  {
  }

  /**
   * `a < b` on identities: the first field in which they differ decides,
   * uid first, then seqno, class name, name, node name, host name and the
   * transport list.
   */
  predicate Less(a: ProcessId, b: ProcessId)
  {
    if a.uid != b.uid then a.uid < b.uid
    else if a.seqno != b.seqno then a.seqno < b.seqno
    else if a.pcls != b.pcls then StrLess(a.pcls, b.pcls)
    else if a.name != b.name then StrLess(a.name, b.name)
    else if a.nodename != b.nodename then StrLess(a.nodename, b.nodename)
    else if a.hostname != b.hostname then StrLess(a.hostname, b.hostname)
    else SeqLess(a.transports, b.transports, SlotLess)
  }

  lemma LessIrreflexive(a: ProcessId)
    ensures !Less(a, a)
  {
    SlotLessStrictTotal();
    SeqLessIrreflexive(a.transports, SlotLess);
  }

  lemma LessTransitive(a: ProcessId, b: ProcessId, c: ProcessId)
    requires Less(a, b) && Less(b, c)
    ensures Less(a, c)
  {
    CharLessStrictTotal();
    SlotLessStrictTotal();
    if a.uid != b.uid || b.uid != c.uid || a.seqno != b.seqno || b.seqno != c.seqno {
    } else if a.pcls != b.pcls || b.pcls != c.pcls {
      StrLessStep(a.pcls, b.pcls, c.pcls);
    } else if a.name != b.name || b.name != c.name {
      StrLessStep(a.name, b.name, c.name);
    } else if a.nodename != b.nodename || b.nodename != c.nodename {
      StrLessStep(a.nodename, b.nodename, c.nodename);
    } else if a.hostname != b.hostname || b.hostname != c.hostname {
      StrLessStep(a.hostname, b.hostname, c.hostname);
    } else {
      SeqLessTransitive(a.transports, b.transports, c.transports, SlotLess);
    }
  }

  /**
   * One field step of transitivity: between three strings where each
   * neighbouring pair is equal or ordered (at least one ordered), the outer
   * pair is ordered.
   */
  lemma StrLessStep(x: string, y: string, z: string)
    requires x == y || StrLess(x, y)
    requires y == z || StrLess(y, z)
    requires x != y || y != z
    ensures x != z && StrLess(x, z)
  {
    CharLessStrictTotal();
    if x != y && y != z {
      SeqLessTransitive(x, y, z, CharLess);
    }
    if x == z {
      SeqLessAsymmetric(x, y, CharLess);
    }
  }

  lemma LessTotal(a: ProcessId, b: ProcessId)
    requires a != b
    ensures Less(a, b) || Less(b, a)
  {
    CharLessStrictTotal();
    SlotLessStrictTotal();
    if a.uid == b.uid && a.seqno == b.seqno {
      if a.pcls != b.pcls {
        SeqLessTotal(a.pcls, b.pcls, CharLess);
      } else if a.name != b.name {
        SeqLessTotal(a.name, b.name, CharLess);
      } else if a.nodename != b.nodename {
        SeqLessTotal(a.nodename, b.nodename, CharLess);
      } else if a.hostname != b.hostname {
        SeqLessTotal(a.hostname, b.hostname, CharLess);
      } else {
        SeqLessTotal(a.transports, b.transports, SlotLess);
      }
    }
  }

  lemma LessAsymmetric(a: ProcessId, b: ProcessId)
    requires Less(a, b)
    ensures !Less(b, a)
  {
    if Less(b, a) {
      LessTransitive(a, b, a);
      LessIrreflexive(a);
    }
  }

  // ---------------------------------------------------------------------
  // Conflict resolution on publication
  // ---------------------------------------------------------------------

  /**
   * The identity that ends up published when `created` is made under a
   * name whose current entry is `entry`: a new id that compares below the
   * entry is discarded in favour of the entry.
   */
  function Resolve(entry: Option<ProcessId>, created: ProcessId): ProcessId
  {
    if entry.Some? && Less(created, entry.value) then entry.value else created
  }

  /** The published identity is the larger of the entry and the new id. */
  lemma ResolveIsMax(entry: Option<ProcessId>, created: ProcessId)
    ensures Resolve(entry, created) == created || Some(Resolve(entry, created)) == entry
    ensures !Less(Resolve(entry, created), created)
    ensures entry.Some? ==> !Less(Resolve(entry, created), entry.value)
  {
    var r := Resolve(entry, created);
    if r == created {
      LessIrreflexive(created);
    } else {
      LessAsymmetric(created, entry.value);
      LessIrreflexive(entry.value);
    }
  }

  /**
   * Two identities created under the same name leave the same published
   * entry whichever of the two is published first.
   */
  lemma ResolveOrderIndependent(entry: Option<ProcessId>, a: ProcessId, b: ProcessId)
    ensures Resolve(Some(Resolve(entry, a)), b) == Resolve(Some(Resolve(entry, b)), a)
  {
    var ea, eb := Resolve(entry, a), Resolve(entry, b);
    var ab := Resolve(Some(ea), b);
    var ba := Resolve(Some(eb), a);
    ResolveIsMax(entry, a);
    ResolveIsMax(entry, b);
    ResolveIsMax(Some(ea), b);
    ResolveIsMax(Some(eb), a);
    // each of `ab` and `ba` is one of `a`, `b` and the entry, and at least each of them
    NotLessTransitive(ab, ea, a);
    NotLessTransitive(ba, eb, b);
    if entry.Some? {
      NotLessTransitive(ab, ea, entry.value);
      NotLessTransitive(ba, eb, entry.value);
    }
    OrderAntisymmetric(ab, ba);
  }

  lemma NotLessTransitive(x: ProcessId, y: ProcessId, z: ProcessId)
    requires !Less(x, y) && !Less(y, z)
    ensures !Less(x, z)
  {
    if x != y && y != z && Less(x, z) {
      LessTotal(x, y);
      LessTransitive(y, x, z);
    }
  }

  lemma OrderAntisymmetric(x: ProcessId, y: ProcessId)
    requires !Less(x, y) && !Less(y, x)
    ensures x == y
  {
    if x != y {
      LessTotal(x, y);
    }
  }

  // ---------------------------------------------------------------------
  // Transport addressing and display forms
  // ---------------------------------------------------------------------

  /**
   * `address_for_transport`: the host name and the address in the
   * transport's slot, or `None` when the slot is beyond the list or empty.
   */
  function AddressForTransport(p: ProcessId, slot: nat): (r: Option<(string, Address)>)
    ensures r.Some? <==> slot < |p.transports| && p.transports[slot].Some?
    ensures r.Some? ==> r.value.0 == p.hostname && Some(r.value.1) == p.transports[slot]
  {
    if |p.transports| <= slot then None
    else match p.transports[slot]
      case None => None
      case Some(addr) => Some((p.hostname, addr))
  }

  /** The display forms mention the node name only when it is set and differs from the name. */
  predicate ShowsNode(p: ProcessId)
  {
    |p.nodename| > 0 && p.nodename != p.name
  }

  /** `_filename_form_`: `Class-name[.node]`, or the uid in hex for an anonymous id. */
  function FilenameForm(p: ProcessId): string
  {
    if ShowsNode(p) then
      if |p.name| > 0 then p.pcls + "-" + p.name + "." + p.nodename
      else p.pcls + "-" + Hex(p.uid) + "." + p.nodename
    else
      if |p.name| > 0 then p.pcls + "-" + p.name
      else p.pcls + "-" + Hex(p.uid)
  }

  /** The low 20 bits of the uid, `uid & 0xfffff`. */
  function ShortUid(uid: nat): (r: nat)
    ensures r < 0x10_0000
  {
    uid % 0x10_0000
  }

  /** `_short_form_`: `<Class:name[#node]>`, an anonymous id shown by its last five hex digits. */
  function ShortForm(p: ProcessId): string
  {
    if ShowsNode(p) then
      if |p.name| > 0 then "<" + p.pcls + ":" + p.name + "#" + p.nodename + ">"
      else "<" + p.pcls + ":" + Hex05(ShortUid(p.uid)) + "#" + p.nodename + ">"
    else
      if |p.name| > 0 then "<" + p.pcls + ":" + p.name + ">"
      else "<" + p.pcls + ":" + Hex05(ShortUid(p.uid)) + ">"
  }

  /** `_long_form_`: as the short form, but an anonymous id shows its whole uid in hex. */
  function LongForm(p: ProcessId): string
  {
    if ShowsNode(p) then
      if |p.name| > 0 then "<" + p.pcls + ":" + p.name + "#" + p.nodename + ">"
      else "<" + p.pcls + ":" + Hex(p.uid) + "#" + p.nodename + ">"
    else
      if |p.name| > 0 then "<" + p.pcls + ":" + p.name + ">"
      else "<" + p.pcls + ":" + Hex(p.uid) + ">"
  }

  /** For a named identity the short and the long form coincide. */
  lemma NamedFormsAgree(p: ProcessId)
    requires |p.name| > 0
    ensures ShortForm(p) == LongForm(p)
  {
  }

  /**
   * The short form of an anonymous identity holds exactly five hex digits
   * right after `<Class:`, and they read back as the uid's low 20 bits.
   */
  lemma ShortFormAnonymous(p: ProcessId)
    requires |p.name| == 0
    ensures |ShortForm(p)| == |p.pcls| + 8 + (if ShowsNode(p) then 1 + |p.nodename| else 0)
    ensures FromBase(ShortForm(p)[|p.pcls| + 2 .. |p.pcls| + 7], 16) == Some(p.uid % 0x10_0000)
  {
    var h := Hex05(ShortUid(p.uid));
    Hex05Exact(ShortUid(p.uid));
    var pre := "<" + p.pcls + ":";
    var rest := if ShowsNode(p) then "#" + p.nodename + ">" else ">";
    assert ShortForm(p) == pre + h + rest;
    assert (pre + h + rest)[|pre|..|pre| + 5] == h;
  }

  /**
   * Anonymous identities of one class and node name whose long forms are
   * equal have equal uids: the long form does not lose the uid.
   */
  lemma LongFormKeepsUid(a: ProcessId, b: ProcessId)
    requires |a.name| == 0 && |b.name| == 0
    requires a.pcls == b.pcls && a.nodename == b.nodename
    requires LongForm(a) == LongForm(b)
    ensures a.uid == b.uid
  {
    var pre := "<" + a.pcls + ":";
    var rest := if ShowsNode(a) then "#" + a.nodename + ">" else ">";
    assert ShowsNode(a) == ShowsNode(b);
    assert LongForm(a) == pre + (Hex(a.uid) + rest);
    assert LongForm(b) == pre + (Hex(b.uid) + rest);
    assert Hex(a.uid) + rest == LongForm(a)[|pre|..];
    assert Hex(a.uid) + rest == Hex(b.uid) + rest;
    SuffixCancel(Hex(a.uid), Hex(b.uid), rest);
  }

  lemma SuffixCancel(x: string, y: string, z: string)
    requires x + z == y + z
    ensures x == y
  {
    assert |x| == |y|;
    assert x == (x + z)[..|x|];
    assert y == (y + z)[..|y|];
  }

  /**
   * The file-name form is made only of characters of the class name, the
   * name and the node name, hex digits, `-` and `.`: it adds no `<`, `>`,
   * `:` or `#`.
   */
  lemma FilenameFormChars(p: ProcessId, i: nat)
    requires i < |FilenameForm(p)|
    ensures FilenameForm(p)[i] in p.pcls || FilenameForm(p)[i] in p.name ||
            FilenameForm(p)[i] in p.nodename || IsDigitChar(FilenameForm(p)[i]) ||
            FilenameForm(p)[i] == '-' || FilenameForm(p)[i] == '.'
  {
    ToBaseDigits(p.uid, 16);
  }

  // ---------------------------------------------------------------------
  // The 96-bit uid
  // ---------------------------------------------------------------------

  const TimestampModulus: nat := 0x40_0000_0000_0000   // 2^54
  const CounterModulus: nat := 1024

  /**
   * `gen_uid`'s packing `(tstamp << 42) | (hh << 26) | (pid << 10) | cnt`.
   * The four fields occupy disjoint bit ranges, so the `|` of the shifted
   * fields is their sum; it is written here as nested base-2^k digits.
   * `hash(...) & 0xffff` and `pid % 0xffff` on Python ints are Euclidean
   * remainders, as `%` is in Dafny.
   */
  function PackUid(millis: nat, hostHash: int, pid: int, counter: nat): nat
    requires counter < CounterModulus
  {
    var tstamp := millis % TimestampModulus;
    var hh := hostHash % 0x1_0000;
    var p := pid % 0xffff;
    ((tstamp * 0x1_0000 + hh) * 0x1_0000 + p) * CounterModulus + counter
  }

  /**
   * The uid is below 2^96 and decodes field by field: bits 0-9 are the
   * counter, bits 10-25 the pid modulo 65535, bits 26-41 the low 16 bits of
   * the host hash, bits 42-95 the millisecond timestamp modulo 2^54.
   */
  lemma PackUidFields(millis: nat, hostHash: int, pid: int, counter: nat)
    requires counter < CounterModulus
    ensures PackUid(millis, hostHash, pid, counter) < 0x1_0000_0000_0000_0000_0000_0000
    ensures PackUid(millis, hostHash, pid, counter) % 1024 == counter
    ensures (PackUid(millis, hostHash, pid, counter) / 1024) % 0x1_0000 == pid % 0xffff
    ensures (PackUid(millis, hostHash, pid, counter) / 1024 / 0x1_0000) % 0x1_0000 == hostHash % 0x1_0000
    ensures PackUid(millis, hostHash, pid, counter) / 1024 / 0x1_0000 / 0x1_0000 == millis % TimestampModulus
  {
    var tstamp := millis % TimestampModulus;
    var hh := hostHash % 0x1_0000;
    var p := pid % 0xffff;
    var top := tstamp * 0x1_0000 + hh;
    var mid := top * 0x1_0000 + p;
    var u := mid * 1024 + counter;
    assert u == PackUid(millis, hostHash, pid, counter);
    assert u / 1024 == mid && u % 1024 == counter;
    assert mid / 0x1_0000 == top && mid % 0x1_0000 == p;
    assert top / 0x1_0000 == tstamp && top % 0x1_0000 == hh;
    assert top < 0x40_0000_0000_0000_0000;
    assert mid < 0x40_0000_0000_0000_0000_0000;
  }

  // ---------------------------------------------------------------------
  // The registry
  // ---------------------------------------------------------------------

  /**
   * A key of the registry tables. Publication uses the pair
   * `(name, nodename)`; the lookup functions accept any key, and
   * `drop_entry` tests the bare name.
   */
  datatype Key = FullName(name: string, node: string) | BareName(name: string)

  /** The key under which an identity is published. */
  function KeyOf(p: ProcessId): Key
  {
    FullName(p.name, p.nodename)
  }

  /** A pending lookup callback, identified by the caller. */
  type CallbackId = nat

  /** The calls `callback(pid)` for each callback of a list, in order. */
  function Invocations(cbs: seq<CallbackId>, pid: ProcessId): (r: seq<(CallbackId, ProcessId)>)
    ensures |r| == |cbs|
    ensures forall i :: 0 <= i < |cbs| ==> r[i] == (cbs[i], pid)
  {
    if |cbs| == 0 then [] else [(cbs[0], pid)] + Invocations(cbs[1..], pid)
  }

  /**
   * The class-level state of `ProcessId`: the published names, the pending
   * callbacks, and the uid counter. `invoked` logs every callback call.
   */
  class Registry {
    var named: map<Key, ProcessId>
    var callbacks: map<Key, seq<CallbackId>>
    var pidCounter: nat
    ghost var invoked: seq<(CallbackId, ProcessId)>

    /** Every published entry sits under its own `(name, nodename)` key; the counter is below 1024. */
    ghost predicate Valid()
      reads this
    {
      && pidCounter < CounterModulus
      && forall k :: k in named ==> k == KeyOf(named[k]) && |k.name| > 0
    }

    constructor ()
      ensures Valid()
      ensures named == map[] && callbacks == map[] && pidCounter == 0 && invoked == []
    {
      named := map[];
      callbacks := map[];
      pidCounter := 0;
      invoked := [];
    }

    /** `ProcessId.lookup(key)`. */
    function Lookup(key: Key): (r: Option<ProcessId>)
      reads this
      ensures r.Some? <==> key in named
      ensures r.Some? ==> r.value == named[key]
    {
      Get(named, key)
    }

    /**
     * `ProcessId.__new__`: publish `obj` if it is named, resolving a conflict
     * with the current entry, drain the pending callbacks of its key, and call
     * each of them once, in registration order, with the final identity.
     */
    method Publish(obj: ProcessId) returns (res: ProcessId, fired: seq<CallbackId>)
      requires Valid()
      modifies this
      ensures Valid()
      ensures pidCounter == old(pidCounter)
      ensures |obj.name| == 0 ==>
                res == obj && fired == [] &&
                named == old(named) && callbacks == old(callbacks) && invoked == old(invoked)
      ensures |obj.name| > 0 ==>
                && res == Resolve(Get(old(named), KeyOf(obj)), obj)
                && named == old(named)[KeyOf(obj) := res]
                && callbacks == old(callbacks) - {KeyOf(obj)}
                && fired == (if KeyOf(obj) in old(callbacks) then old(callbacks)[KeyOf(obj)] else [])
                && invoked == old(invoked) + Invocations(fired, res)
    {
      res, fired := obj, [];
      if |obj.name| > 0 {
        var key := KeyOf(obj);
        var entry := Get(named, key);
        var pending := Get(callbacks, key);
        if entry.Some? && Less(res, entry.value) {
          // the published entry is authoritative
          res := entry.value;
        }
        if entry != Some(res) {
          named := named[key := res];
        } else {
          assert named == named[key := res];
        }
        if pending.Some? {
          callbacks := callbacks - {key};
          fired := pending.value;
        }
        // The callbacks run after the lock is released.
        CallAll(fired, res);
      }
    }

    /** `for callback in callbacks: callback(obj)`, logging each call. */
    method CallAll(cbs: seq<CallbackId>, pid: ProcessId)
      modifies this`invoked
      ensures invoked == old(invoked) + Invocations(cbs, pid)
    {
      var i := 0;
      while i < |cbs|
        invariant 0 <= i <= |cbs|
        invariant invoked == old(invoked) + Invocations(cbs[..i], pid)
      {
        InvocationsSnoc(cbs[..i], cbs[i], pid);
        assert cbs[..i + 1] == cbs[..i] + [cbs[i]];
        invoked := invoked + [(cbs[i], pid)];
        i := i + 1;
      }
      assert cbs[..i] == cbs;
    }

    /**
     * `lookup_or_register_callback`: a published key gives its identity and
     * changes nothing; otherwise the callback joins the end of the key's
     * pending list and the answer is `None`.
     */
    method LookupOrRegisterCallback(key: Key, cb: CallbackId) returns (r: Option<ProcessId>)
      requires Valid()
      modifies this
      ensures Valid()
      ensures named == old(named) && pidCounter == old(pidCounter) && invoked == old(invoked)
      ensures key in old(named) ==> r == Some(old(named)[key]) && callbacks == old(callbacks)
      ensures key !in old(named) ==>
                r.None? &&
                callbacks == old(callbacks)[key := (if key in old(callbacks) then old(callbacks)[key] else []) + [cb]]
    {
      if key !in named {
        if key !in callbacks {
          assert [] + [cb] == [cb];
          callbacks := callbacks[key := [cb]];
        } else {
          callbacks := callbacks[key := callbacks[key] + [cb]];
        }
        return None;
      } else {
        return Some(named[key]);
      }
    }

    /** `all_named_ids`: every published identity, once per key. */
    method AllNamedIds() returns (ids: seq<ProcessId>)
      ensures |ids| == |named|
      ensures forall p :: p in ids <==> p in named.Values
    {
      ids := [];
      var rest := named.Keys;
      while rest != {}
        invariant rest <= named.Keys
        invariant |ids| + |rest| == |named.Keys|
        invariant forall p :: p in ids <==> exists k :: k in named.Keys - rest && named[k] == p
        decreases |rest|
      {
        var k :| k in rest;
        ids := ids + [named[k]];
        rest := rest - {k};
      }
      assert named.Keys - rest == named.Keys;
      assert |named.Keys| == |named|;
    }

    /**
     * `drop_entry(nid)` as the source writes it: it removes the key equal
     * to the bare name `nid.name`. Entries are published under
     * `(name, nodename)` pairs, so in a valid registry it removes nothing.
     */
    method DropEntry(nid: ProcessId)
      requires Valid()
      modifies this
      ensures Valid()
      ensures named == old(named) - {BareName(nid.name)}
      ensures named == old(named)
      ensures callbacks == old(callbacks) && pidCounter == old(pidCounter) && invoked == old(invoked)
    {
      // removing an absent key leaves the map as it is, as the membership test does
      named := named - {BareName(nid.name)};
      assert BareName(nid.name) !in old(named);
    }

    /**
     * `drop_entry` as intended: remove the identity's published
     * `(name, nodename)` entry; pending callbacks are left alone.
     */
    method DropPublished(nid: ProcessId)
      requires Valid()
      modifies this
      ensures Valid()
      ensures Lookup(KeyOf(nid)).None?
      ensures forall k :: k != KeyOf(nid) ==> Lookup(k) == old(Lookup(k))
      ensures callbacks == old(callbacks) && pidCounter == old(pidCounter) && invoked == old(invoked)
    {
      named := named - {KeyOf(nid)};
    }

    /** `gen_uid`: bump the counter modulo 1024 and pack it with the other fields. */
    method GenUid(hostHash: int, pid: int, millis: nat) returns (uid: nat)
      requires Valid()
      modifies this`pidCounter
      ensures Valid()
      ensures pidCounter == (old(pidCounter) + 1) % CounterModulus
      ensures uid == PackUid(millis, hostHash, pid, pidCounter)
    {
      pidCounter := (pidCounter + 1) % CounterModulus;
      uid := PackUid(millis, hostHash, pid, pidCounter);
    }

    /**
     * `ProcessId._create`: a new uid, sequence number 1, then publication.
     * The host and node names (runtime options in the source), the host-name
     * hash, the thread id and the clock reading are parameters.
     */
    method Create(pcls: string, transports: seq<Option<Address>>, name: string,
                  hostname: string, nodename: string, hostHash: int, threadId: int, millis: nat)
      returns (p: ProcessId, fired: seq<CallbackId>)
      requires Valid()
      modifies this
      ensures Valid()
      ensures pidCounter == (old(pidCounter) + 1) % CounterModulus
      ensures var created := ProcessId(PackUid(millis, hostHash, threadId, pidCounter), 1, pcls, name,
                                     nodename, hostname, transports);
              && (|name| == 0 ==> p == created && named == old(named) && callbacks == old(callbacks) &&
                                  fired == [] && invoked == old(invoked))
              && (|name| > 0 ==> p == Resolve(Get(old(named), FullName(name, nodename)), created) &&
                                 named == old(named)[FullName(name, nodename) := p] &&
                                 callbacks == old(callbacks) - {FullName(name, nodename)} &&
                                 fired == (if FullName(name, nodename) in old(callbacks)
                                           then old(callbacks)[FullName(name, nodename)] else []) &&
                                 invoked == old(invoked) + Invocations(fired, p))
    {
      var uid := GenUid(hostHash, threadId, millis);
      p, fired := Publish(ProcessId(uid, 1, pcls, name, nodename, hostname, transports));
    }
  }

  lemma InvocationsSnoc(cbs: seq<CallbackId>, cb: CallbackId, pid: ProcessId)
    ensures Invocations(cbs + [cb], pid) == Invocations(cbs, pid) + [(cb, pid)]
  {
    assert |Invocations(cbs + [cb], pid)| == |cbs| + 1;
  }

  /**
   * A lookup made before the name is published is answered once, by the
   * publication: the callback is queued, the creation of the name calls it
   * exactly once with the published identity, and a later lookup is
   * answered directly without queueing anything.
   */
  method DeferredLookup(obj: ProcessId, cb: CallbackId) returns (early: Option<ProcessId>, res: ProcessId,
                                                                 fired: seq<CallbackId>, later: Option<ProcessId>)
    requires |obj.name| > 0
    ensures early.None? && res == obj && fired == [cb] && later == Some(obj)
  {
    var registry := new Registry();
    early := registry.LookupOrRegisterCallback(KeyOf(obj), cb);
    res, fired := registry.Publish(obj);
    assert registry.invoked == [(cb, obj)];
    later := registry.LookupOrRegisterCallback(KeyOf(obj), cb);
  }

  /**
   * `drop_entry` on a published identity: as written it leaves the name
   * published, since it looks for the bare name; the intended removal makes
   * a later lookup miss.
   */
  method DropEntryMissesPublished(obj: ProcessId) returns (afterAsWritten: Option<ProcessId>, afterIntended: Option<ProcessId>)
    requires |obj.name| > 0
    ensures afterAsWritten == Some(obj) && afterIntended.None?
  {
    var registry := new Registry();
    var res, fired := registry.Publish(obj);
    registry.DropEntry(obj);
    afterAsWritten := registry.Lookup(KeyOf(obj));
    registry.DropPublished(obj);
    afterIntended := registry.Lookup(KeyOf(obj));
  }
}
