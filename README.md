# DistAlgo runtime identities, queues and compiler name scopes in Dafny

This project models two Python files of the DistAlgo implementation.

`da/common.py` supplies the runtime's identity and delivery machinery:

- `ProcessId`, the immutable seven-field identity of a process instance, ordered lexicographically with `uid` first.
- The class-level registry behind `ProcessId`. It publishes named identities under `(name, nodename)` keys. When a name is published again, the larger identity in that order wins. Lookups made before publication wait as callbacks, and the publication calls each of them once.
- `gen_uid`, which packs a timestamp, a host hash, a thread id and a counter modulo 1024 into a 96-bit uid.
- The display forms and the transport address lookup of an identity.
- `WaitableQueue`, a FIFO with an optional length bound. With trace files it records one `(delay, outcome)` record per pop, `QueueEmpty` outcomes included.
- `ReplayQueue`, which answers pops from such a trace.
- Helpers: the `LRU` table, `BufferIOWrapper`, the name checker and splitters, `_parse_items`, `_version_as_bytes`, and the runtime option table.

`da/compiler/dast.py` supplies the compiler's syntax-tree bookkeeping:

- `NameScope` and `LockableNameScope`. Names are resolved outwards through enclosing scopes, and class scopes are skipped.
- `NamedVar`'s index of assignments, updates and reads.
- Structural matching of message patterns and events.
- A process's table of distinct events.
- The `ints(...)` range expression.

Modules, one per concern:

| file | module | models |
|---|---|---|
| `wrappers.dfy` | `Wrappers` | `Option`, `Result`, bytes, `dict.get` |
| `text.dfy` | `Text` | `str.split`, decimal and hex rendering, the restricted `int()` parse, Python's sequence order |
| `process_id.dfy` | `ProcessIds` | the identity value, its order, forms, uid layout and the `Registry` class |
| `names.dfy` | `Names` | `check_name`, `name_split_host`, `name_split_node` |
| `config.dfy` | `RuntimeConfig` | runtime options, `_parse_items`, `_version_as_bytes` |
| `queues.dfy` | `Queues` | `WaitableQueue`, `ReplayQueue`, record and replay |
| `buffer_io.dfy` | `BufferIO` | `BufferIOWrapper` |
| `lru.dfy` | `Lru` | the `LRU` table |
| `scopes.dfy` | `Scopes` | `NamedVar`, `NameScope`, `LockableNameScope` |
| `patterns.dfy` | `Patterns` | pattern elements, events, `Process` event table, `IntsExpr` |

Where state is updated in place in the source, the model uses a class with `modifies` clauses: the registry dicts and counter, the queue's deque and trace, the LRU table, the byte buffer, a scope's names, a `NamedVar`'s index and a process's event list. The contracts of these classes tie the new state to the old state. The properties those contracts rely on are proved as lemmas about the pure functions behind them: `Resolve`, `Put`, `Bounded`, `AppendAll`, `Kept`/`Purged`, `FirstMatch` and `AddEventSpec`.

Where the specification and the code disagree, the model follows the code:

- Once a replayed trace is exhausted, `ReplayQueue.pop` closes its streams. The next pop then reads a closed file and fails with Python's `ValueError`, modelled as `StreamClosed`. It does not raise `TraceEnded` forever. Only the first pop past the end ends the trace.
- `drop_entry` does not remove the published entry (see Findings).
- `ReplayQueue.pop` as written cannot reach `QueueEmpty` or `TraceEnded`, because it uses two undefined names (see Findings). Following the source's evident intent, `Queues.ReplayQueue.Pop` re-raises a stored `QueueEmpty` and reports a distinct `TraceEnded`.
- A recording queue whose trace files were closed still removes the item before the trace write fails. The popped item is lost, and the caller sees `StreamClosed`.
- The event table of a `Process` takes its comparison as a parameter. `KindBlind` is `Event.match` as written, which compares shapes only, so it is the table the source actually builds. `KindAware` is the intended comparison, which also requires equal event types. Every table lemma is proved for both, and `Patterns.KindBlindTableMerges` shows where the two tables part ways (see Findings).

## Model

| member | source | states |
|---|---|---|
| `Wrappers.Get` | da/common.py:429-430 | `dict.get`: a value exactly when the key is present, and then the stored value |
| `Text.Split` | da/common.py:341 | `str.split(c)`: one piece more than separators, no piece contains `c`, joining the pieces gives the string back |
| `Text.SplitJoin` | da/common.py:341 | splitting a join of separator-free pieces gives back the pieces |
| `Text.Hex` | da/common.py:522-537 | `"{:x}"` rendering reads back as the number |
| `Text.Hex05Exact` | da/common.py:548-556 | a value below 2^20 renders with `"{:05x}"` as exactly five hex digits that read back as the value |
| `Text.ParseIntToString` | da/common.py:348-350 | `int(str(n)) == n` for the modelled integer syntax |
| `Text.SeqLessTotal` | da/common.py:403-405 | Python's lexicographic sequence order is total when its element order is |
| `Text.SeqLessTransitive` | da/common.py:403-405 | the lexicographic order is transitive |
| `ProcessIds.AddressForTransport` | da/common.py:510-520 | `(hostname, address)` exactly when the slot index is within `transports` and the slot is filled; otherwise `None` |
| `ProcessIds.LessIrreflexive` | da/common.py:403-405 | no identity is below itself |
| `ProcessIds.LessTransitive` | da/common.py:403-405 | the identity order over `(uid, seqno, pcls, name, nodename, hostname, transports)` is transitive |
| `ProcessIds.LessTotal` | da/common.py:403-405 | any two distinct identities are ordered one way or the other |
| `ProcessIds.LessAsymmetric` | da/common.py:403-405 | no two identities are each below the other |
| `ProcessIds.ResolveIsMax` | da/common.py:434-440 | the conflict rule publishes the larger of the entry and the new id, and always one of the two |
| `ProcessIds.ResolveOrderIndependent` | da/common.py:434-445 | two creations under one name leave the same published identity in either order |
| `ProcessIds.ShortUid` | da/common.py:548-556 | `uid & 0xfffff` is below 2^20 |
| `ProcessIds.NamedFormsAgree` | da/common.py:539-574 | for a named identity the short and the long form are the same string |
| `ProcessIds.ShortFormAnonymous` | da/common.py:539-556 | an anonymous identity's short form has five hex digits after `<Class:`, and they read back as `uid & 0xfffff` |
| `ProcessIds.LongFormKeepsUid` | da/common.py:558-574 | two anonymous identities of one class and node with equal long forms have equal uids |
| `ProcessIds.FilenameFormChars` | da/common.py:522-537 | the file-name form is built only from the class, name and node characters, hex digits, `-` and `.` |
| `ProcessIds.PackUidFields` | da/common.py:482-495 | the uid is below 2^96. Bits 0-9 hold the counter, bits 10-25 the pid mod 65535, bits 26-41 `hash & 0xffff`, bits 42-95 the timestamp mod 2^54 |
| `ProcessIds.Invocations` | da/common.py:446-451 | the calls made for a pending list: one per callback, in registration order, each with the final id |
| `ProcessIds.Registry.constructor` | da/common.py:419-423 | empty tables, counter 0, no callback calls yet |
| `ProcessIds.Registry.Lookup` | da/common.py:454-456 | the published identity under the key, or `None` |
| `ProcessIds.Registry.Publish` | da/common.py:426-452 | an anonymous id changes nothing. A named id's key then maps to the conflict-resolved id, and no other key changes. The key's pending callbacks are removed and each is called once, in order, with the final id |
| `ProcessIds.Registry.LookupOrRegisterCallback` | da/common.py:458-468 | a published key returns its id and changes nothing. Otherwise the callback joins the end of the key's list (created as `[callback]`) and the result is `None` |
| `ProcessIds.Registry.AllNamedIds` | da/common.py:470-473 | every published identity, one per key |
| `ProcessIds.Registry.DropEntry` | da/common.py:475-479 | as written it removes the bare-name key, so in a valid registry the published names do not change |
| `ProcessIds.Registry.DropPublished` | da/common.py:475-479 | as intended: afterwards the identity's `(name, nodename)` key is unpublished and every other key keeps its entry. Pending callbacks are kept |
| `ProcessIds.Registry.GenUid` | da/common.py:482-495 | the counter becomes `(old + 1) % 1024`, and the uid packs it as its low 10 bits |
| `ProcessIds.Registry.Create` | da/common.py:497-508 | a new uid with `seqno` 1. Anonymous: returned unpublished, with no callback called. Named: the conflict-resolved id is published and returned, and the key's pending callbacks are removed and each is called once, in order, with it |
| `ProcessIds.DeferredLookup` | da/common.py:426-468 | a lookup before publication returns `None`, the publication calls the callback exactly once with the identity, and a later lookup returns it directly |
| `ProcessIds.DropEntryMissesPublished` | da/common.py:475-479 | after `drop_entry` as written a published name still resolves; after the intended removal it does not |
| `Names.CheckName` | da/common.py:334-337 | true iff the name holds none of `@`, `#`, `:` |
| `Names.NameSplitHost` | da/common.py:339-360 | more than one `@` gives `(None, None, None)`. A name alone, or a name and a host, rebuild the string. A port comes with a `:`-free suffix that parses to it and rebuilds the string as `name@host:suffix`. The parts hold no separators |
| `Names.NameSplitHostBadSuffix` | da/common.py:342-351 | after a single `@`, a second `:` in the suffix, or a port that does not parse as an integer, gives `(None, None, None)` |
| `Names.NameSplitHostBare` | da/common.py:357-358 | a string without `@` is all name |
| `Names.NameSplitHostNoPort` | da/common.py:353-354 | `name@host` splits back into name and host, without a port |
| `Names.NameSplitHostParsedPort` | da/common.py:339-350 | `name@host:p` with a separator-free suffix that parses as an integer (leading zeros and a sign included) gives back the name, the host and the parsed port |
| `Names.NameSplitHostWithPort` | da/common.py:347-350 | `name@host:port` splits back into all three, the port as an integer |
| `Names.NameSplitNode` | da/common.py:362-371 | no `#` gives `(s, s)`, one `#` gives the two sides, more give `(None, None)` |
| `Names.NameSplitNodeRoundTrip` | da/common.py:362-368 | `name#node` splits back into its parts |
| `RuntimeConfig.GetRuntimeOption` | da/common.py:84-95 | fails with `InvalidState` iff the table is uninitialised and no default is given. Otherwise it returns the configured value, else the default |
| `RuntimeConfig.SetRuntimeOption` | da/common.py:97-101 | fails iff the table is uninitialised. Otherwise the key is added to the table |
| `RuntimeConfig.GetAfterSet` | da/common.py:84-101 | a value that was set reads back whatever the default, and other keys are unaffected |
| `RuntimeConfig.SubstituteSpec` | da/common.py:114-118 | a spec is accepted iff it holds exactly one `:`, and its two parts rebuild it |
| `RuntimeConfig.ParseItems` | da/common.py:111-120 | no items give an empty dict. Otherwise the result is the specs applied in order, or the error for the first malformed one |
| `RuntimeConfig.SubstitutionsFailure` | da/common.py:111-120 | the result is an error iff some spec is malformed, and the error names the first malformed spec |
| `RuntimeConfig.SubstitutionsKeys` | da/common.py:111-120 | on success the keys are exactly the specs' left parts |
| `RuntimeConfig.SubstitutionsLastWins` | da/common.py:111-120 | on success each key maps to the right part of the last spec naming it |
| `RuntimeConfig.BigEndian4` | da/common.py:107-108 | four bytes whose big-endian value is the number |
| `RuntimeConfig.VersionAsBytes` | da/common.py:103-108 | the bytes are major, minor and patch mod 256, then the prerelease character sum mod 256 |
| `RuntimeConfig.VersionBytesValue` | da/common.py:41-44 | version 1.1.2rc16 gives the bytes `[1, 1, 2, 60]` |
| `BufferIO.BufferIOWrapper.constructor` | da/common.py:697-700 | the write position starts at 0 over the whole buffer |
| `BufferIO.BufferIOWrapper.Write` | da/common.py:702-707 | data that overruns the buffer raises `IOError("buffer full.")` and changes nothing. Otherwise the data lands at the write position, which advances by its length, and later bytes are untouched |
| `BufferIO.WriteBoth` | da/common.py:702-707 | successive writes that fit lie back to back in the buffer, and a write that does not fit keeps the earlier bytes |
| `Queues.AsResult` | da/common.py:783-789 | a delivered item is returned, and an empty outcome is `QueueEmpty` |
| `Queues.Bounded` | da/common.py:720 | a bounded deque keeps the newest `maxlen` items, in order |
| `Queues.AppendAllBounded` | da/common.py:732-733 | appending one item at a time to a bounded deque keeps exactly the newest `maxlen` items of everything appended |
| `Queues.DelayFor` | da/common.py:773-776 | a delay is recorded iff `block` and `timeout` are both truthy |
| `Queues.PopStepHead` | da/common.py:746-751 | a non-empty queue yields its oldest item, whatever the blocking arguments |
| `Queues.PopStepAfterWait` | da/common.py:755-767 | a blocking pop on an empty queue yields `QueueEmpty` iff nothing arrived during the wait, and otherwise the oldest arrival that survived the bound |
| `Queues.WaitableQueue.constructor` | da/common.py:719-730 | the deque holds the bounded initial items, and the trace files are open iff given |
| `Queues.WaitableQueue.Length` | da/common.py:791-792 | the number of queued items |
| `Queues.WaitableQueue.Append` | da/common.py:732-736 | the item joins the newest end, and the oldest is dropped past `maxlen` |
| `Queues.WaitableQueue.Close` | da/common.py:738-744 | both trace files are closed |
| `Queues.WaitableQueue.Pop` | da/common.py:746-789 | the queue changes as the plain pop says. Recording appends exactly one `(delay, outcome)` record and returns what the plain pop returned. A closed trace fails with `StreamClosed` |
| `Queues.Fifo` | da/common.py:732-754 | items come out of an unbounded queue in append order, then `QueueEmpty` |
| `Queues.SleepFor` | da/common.py:807-808 | a replayed record pauses iff its delay is truthy |
| `Queues.ReplayQueue.constructor` | da/common.py:798-802 | the cursor starts at the first record and both streams are open |
| `Queues.ReplayQueue.Close` | da/common.py:817-823 | both streams are closed |
| `Queues.ReplayQueue.Pop` | da/common.py:804-815 | each call consumes exactly one record and returns its item or `QueueEmpty`, pausing for its delay. At the end or at unreadable bytes the streams are closed and the result is `TraceEnded`, never `QueueEmpty`. A closed stream fails with `StreamClosed` |
| `Queues.ReplayQueue.PopAsWritten` | da/common.py:804-815 | as written, every pop that reads a record ends in a `NameError` for `common`, and the end of the trace ends in one for `TraceEndedException` |
| `Queues.AsStream` | da/common.py:783-789 | a trace file holds the records in order |
| `Queues.RecordAndReplay` | da/common.py:769-815 | replaying the trace of recorded pops gives the same results in the same order and pauses exactly for the measured delays. Every recorded outcome is an item or `QueueEmpty`, and the next pop is `TraceEnded` |
| `Queues.ReplayAsWrittenFails` | da/common.py:804-815 | on a one-record trace the pop as written fails with `NameError` where the intended pop returns the item |
| `Lru.Remove` | da/common.py:881-891 | unlinking keeps exactly the other keys, keeps keys distinct, and changes nothing when the key is absent |
| `Lru.RemoveAt` | da/common.py:881-891 | in a list where each key occurs once, unlinking the key at position `i` leaves the nodes before it followed by the nodes after it, in their order |
| `Lru.PutEffect` | da/common.py:860-880 | after `table[k] = v`: k maps to v and is the newest, the size stays within capacity, and no other value changes. Overflow evicts exactly the oldest entry |
| `Lru.ReadProtectsFromEviction` | da/common.py:856-880 | a key just read is not the one a following store evicts |
| `Lru.Lru.constructor` | da/common.py:847-853 | capacity `max(count, 1)`, then each pair stored in turn |
| `Lru.Lru.Contains` | da/common.py:854-855 | true iff the key has an entry, which in a valid table is iff the key has a node in the list; the order is not touched |
| `Lru.Lru.SetItem` | da/common.py:860-880 | the table becomes `Put` of the old table |
| `Lru.Lru.DelItem` | da/common.py:881-891 | `KeyError` for an absent key and no change. Otherwise the key's node is unlinked and its entry removed |
| `Lru.Lru.GetItem` | da/common.py:856-859 | `KeyError` for an absent key. Otherwise its value, and the key becomes the newest |
| `Lru.Lru.GetAsWritten` | da/common.py:915-920 | as written, an absent key gives `None` whatever the default and changes nothing. A present key behaves as `table[k]` |
| `Lru.Lru.Get` | da/common.py:915-920 | as intended, an absent key gives the default and changes nothing |
| `Lru.Lru.Keys` | da/common.py:913-914 | the keys, each once, in list order |
| `Lru.Lru.IterItems` | da/common.py:902-907 | the pairs from the oldest entry to the newest |
| `Lru.Lru.Iter` | da/common.py:892-897 | the values from the oldest entry to the newest |
| `Lru.GetIgnoresDefault` | da/common.py:915-920 | on an empty table `get(k, d)` as written returns `None`, and as intended it returns `d` |
| `Scopes.Select` | da/compiler/dast.py:536-546 | a pair is selected iff it is the `(node, typectx)` of an entry of the kind, and there are no more pairs than entries. Their order is stated by `Scopes.SelectAppend` |
| `Scopes.SelectAppend` | da/compiler/dast.py:536-557 | the pairs of one kind in a concatenated index are the two parts' pairs, concatenated, so the pairs follow the index order |
| `Scopes.ReplaceNodeSubstitutes` | da/compiler/dast.py:559-574 | with a new node, every entry keeps its place, kind and type context, and only entries for the old node change node |
| `Scopes.ReplaceNodeAppend` | da/compiler/dast.py:559-574 | the entry-by-entry rebuild of a concatenated index is the rebuild of the front followed by the rebuild of the back |
| `Scopes.ReplaceNodeRemoves` | da/compiler/dast.py:559-574 | without a new node, exactly the old node's entries disappear. At every split point the result is the front's result followed by the back's, so the rest keep their order |
| `Scopes.NodesOf` | da/compiler/dast.py:559-574 | the nodes of the index entries, in order |
| `Scopes.PurgeReadsPartition` | da/compiler/dast.py:610-628 | the index splits into kept and purged with nothing lost. No read in the scope is kept, and assignments and updates stay as they were |
| `Scopes.FirstKnownFirst` | da/compiler/dast.py:684-702 | the first pair that carries a type context gives it, and `None` when no pair does |
| `Scopes.TypeCtxUnknown` | da/compiler/dast.py:684-702 | the type context is unknown iff no entry carries one |
| `Scopes.NamedVar.constructor` | da/compiler/dast.py:530-534 | a fresh name with an empty index |
| `Scopes.NamedVar.AddAssignment` | da/compiler/dast.py:579-589 | an assignment entry is appended, and the node must have a parent |
| `Scopes.NamedVar.AddUpdate` | da/compiler/dast.py:591-602 | an update entry is appended, and the node must have a parent |
| `Scopes.NamedVar.AddRead` | da/compiler/dast.py:604-608 | a read entry is appended, and the node must have a parent |
| `Scopes.NamedVar.Merge` | da/compiler/dast.py:552-557 | the target's entries follow this name's own, kind by kind |
| `Scopes.NamedVar.IndexReplaceNode` | da/compiler/dast.py:559-574 | the index becomes `ReplaceNode` of the old index |
| `Scopes.NamedVar.PurgeReads` | da/compiler/dast.py:610-628 | returns the purged reads in order, and keeps the rest in order |
| `Scopes.NamedVar.GetTypectx` | da/compiler/dast.py:684-702 | the first known type context of the assignments, else of the updates, else of the reads |
| `Scopes.FirstKnownOf` | da/compiler/dast.py:693-701 | one loop of `get_typectx`: the first non-`None` type context |
| `Scopes.SelectAppendAll` | da/compiler/dast.py:552-557 | every kind's pairs distribute over concatenation |
| `Scopes.MergeMaps` | da/compiler/dast.py:287-297 | the merged names are the union of both scopes' names |
| `Scopes.MergeMapsLocalWins` | da/compiler/dast.py:287-297 | a merge never overwrites a local binding and adds the absent names. It is idempotent, and merging a scope with itself changes nothing |
| `Scopes.NameScope.constructor` | da/compiler/dast.py:221-225 | a scope with no names, unlocked |
| `Scopes.NameScope.ParentScopeOf` | da/compiler/dast.py:331-343 | the parent scope is an outer scope that is not skipped |
| `Scopes.NameScope.ParentScope` | da/compiler/dast.py:331-343 | the walk up the parent links returns the nearest enclosing scope that is not skipped |
| `Scopes.NameScope.FindName` | da/compiler/dast.py:236-252 | with `local` only the local binding is consulted |
| `Scopes.FindNameNearest` | da/compiler/dast.py:236-252 | lookup returns the binding of the nearest scope along the non-skipped parent chain that binds the name, and `None` iff none does |
| `Scopes.NearestUnskipped` | da/compiler/dast.py:2125-2129 | the result is a non-skipped scope on the chain |
| `Scopes.NearestUnskippedSkipsClasses` | da/compiler/dast.py:2125-2129 | `parent_scope` is `None` iff every enclosing scope is a class scope, so only class scopes are passed over |
| `Scopes.NameScope.AddName` | da/compiler/dast.py:254-266 | an existing local binding is returned unchanged. Otherwise exactly one fresh `NamedVar` is bound under the name. A locked lockable scope leaves its own names and binds in its parent's target instead, and an assertion failure results when it has no parent |
| `Scopes.NameScope.MergeScope` | da/compiler/dast.py:287-297 | the names become the local ones plus the target's names absent locally |
| `Scopes.NameScope.Lock` | da/compiler/dast.py:391-392 | the scope is locked |
| `Scopes.NameScope.Unlock` | da/compiler/dast.py:394-395 | the scope is unlocked |
| `Patterns.PatternMatch` | da/compiler/dast.py:1685-1705 | false for `None` and for another element type. Leaves match iff their values are equal, and tuples and lists iff lengths are equal and elements match pairwise: matching is equality |
| `Patterns.MatchElements` | da/compiler/dast.py:1700-1705 | the pairwise loop succeeds iff the element lists are equal |
| `Patterns.VarsFollowLeaves` | da/compiler/dast.py:1711-1792 | `ordered_boundvars` and `ordered_freevars` list the leaves' variables left to right, whatever the nesting |
| `Patterns.ShapeMatch` | da/compiler/dast.py:2748-2763 | true iff both patterns are absent or match, and sources, destinations and timestamps have equal lengths and match elementwise |
| `Patterns.EventMatchAsWritten` | da/compiler/dast.py:2743-2763 | as written, events match on shape alone, because the type test compares two `Event` classes |
| `Patterns.EventMatch` | da/compiler/dast.py:2743-2763 | as intended, events match iff they have the same event type and the same shape |
| `Patterns.KindBlindMatch` | da/compiler/dast.py:2743-2747 | a received and a sent event with one pattern match as written and not as intended |
| `Patterns.KindBlindTableMerges` | da/compiler/dast.py:2837-2850 | with a received "ping" stored, adding a sent "ping" returns the received event and keeps one entry under `KindBlind`, and appends the sent event as entry 1 under `KindAware` |
| `Patterns.FirstMatchFirst` | da/compiler/dast.py:2845-2850 | under either comparison (kind-blind as written, kind-aware as intended), the search finds a stored event iff one matches, and then the earliest |
| `Patterns.AddEventSpecEffect` | da/compiler/dast.py:2837-2843 | under either comparison, adding keeps `events[i].index == i` and no two stored events matching. It returns a matching stored event, or `None` for `None`, and grows the table by at most one |
| `Patterns.AddEventIdempotent` | da/compiler/dast.py:2837-2843 | under either comparison, adding the same event twice changes nothing the second time and returns the same event |
| `Patterns.AddEventsSpecEffect` | da/compiler/dast.py:2825-2835 | under either comparison, each element is answered by a matching stored event, or `None` for `None`, and the table stays well formed |
| `Patterns.Process.constructor` | da/compiler/dast.py:2811 | an empty, well-formed event table, with the comparison chosen: `KindBlind` for the process as written, `KindAware` as intended |
| `Patterns.Process.FindEvent` | da/compiler/dast.py:2845-2850 | the linear search, with `Event.match` as written or as intended according to the process's comparison, returns the first stored event that matches |
| `Patterns.Process.AddEvent` | da/compiler/dast.py:2837-2843 | the table and the result are those of `AddEventSpec`, so the table stays de-duplicated and indexed by position |
| `Patterns.Process.AddEvents` | da/compiler/dast.py:2825-2835 | `add_event` for each element in turn, collecting the answers |
| `Patterns.MakeIntsExpr` | da/compiler/dast.py:2860-2875 | one argument sets `end`. Two set `start` and `end`. Three set `start`, `step` and `end` from the arguments in order. Fields not set stay `None` |
| `Patterns.IntsExprArgs` | da/compiler/dast.py:2860-2875 | the arguments can be read back from the node in their order |

## Left out

- Threads and locks: `threading.Lock`, `threading.Condition`, `notify_all` and the `_num_waiting` handshake are not modelled. Every operation is atomic. A blocking pop receives the items other threads append during its wait as a parameter, and no other popper takes items meanwhile.
- Clocks: `time.time()` and `time.sleep()` are not modelled. The timestamp and the measured delay are parameters, and a replayed pop returns the pause it would take.
- `hash(hostname)` and the thread identifier are parameters of `gen_uid`.
- Serialisation: pickle, `_ObjectLoader` class substitution and `_loads` are not modelled. A trace file is the sequence of records written to it, and bytes that fail to unpickle are a `Garbled` entry. The out-trace streams are only open or closed flags, since the core never writes them.
- Callbacks are opaque identifiers, and their calls are recorded in a ghost log. The callbacks' own effects are not modelled. That includes a re-entrant call into the registry.
- The `log.warning` on name reassignment is not modelled.
- `pcls` is a class object in the source. It is represented by its class name and ordered by that name.
- `_full_form_` and the process-wide flag that picks a display form are not modelled.
- `initialize_runtime_options`, `_set_hostname`, `sysinit`, the logging setup, `load_modules` and `_install` are configuration and I/O plumbing and are not modelled. `_create` receives the host and node names as parameters.
- The `api`, `builtin`, `internal` and `deprecated` decorators, `Null`, `FunctionInstrument` and `ModuleIntrument` are metaprogramming and are not modelled.
- `Names.NameSplitHost`: the port must be an optional sign followed by ASCII digits. Python's `int()` also accepts surrounding whitespace and underscores.
- `ProcessIds.SlotLess`: an empty transport slot is ordered before any address. In the source the tuple comparison of `None` with an address raises `TypeError`, so identities that first differ at such a slot are not comparable there.
- `ProcessIds.LessTotal`: totality holds for the modelled order, which compares an empty slot with an address. Python's order is partial in that case.
- `ProcessIds.Registry.AllNamedIds`: it states which identities are returned and how many, but not the dict's insertion order.
- `Scopes.NameScope.FindName`: its own contract covers only the local case. The outward search is stated by `Scopes.FindNameNearest`.
- Syntax-tree nodes are values carrying an identity and the index of their scope. A scope's parent link is its nearest enclosing scope, with the non-scope nodes in between left out. The graph rewrites `transform`, `replace_child`, `link_name` and `rebind_name` depend on object identity and reflection, and are not modelled.
- Also not modelled in `dast.py`: the `clone` methods, `copy_location`, the `__str__` renderings, `is_a`, `last_assignment_before`, `is_assigned_in`, the `ordered_local_*` properties, `ordered_boundpatterns`, and `Event`'s own `ordered_*` and `nameobjs` chains.
- examples/hrbac.py is not part of this model. It is a generated program for the `da.DistProcess` runtime.

## Findings

| source | as written | input that shows it | evidently intended | confidence | as-written member | corrected member |
|---|---|---|---|---|---|---|
| da/common.py:476-479 | `drop_entry` tests and deletes `nid.name`, but entries are stored under `(name, nodename)` | any published named identity; `ProcessIds.DropEntryMissesPublished` | remove the identity's `(name, nodename)` entry | high, not executed | `ProcessIds.Registry.DropEntry` | `ProcessIds.Registry.DropPublished` |
| da/common.py:915-920 | `get(k, d=None)` returns `None` for an absent key and never uses `d` | `get(k, d)` on an empty table; `Lru.GetIgnoresDefault` | return `d` for an absent key, as `dict.get` does | medium, not executed | `Lru.Lru.GetAsWritten` | `Lru.Lru.Get` |
| da/common.py:804-815 | `ReplayQueue.pop` refers to `common.QueueEmpty` and `TraceEndedException`, neither defined in the module, so every pop ends in `NameError` | a trace holding one delivered item; `Queues.ReplayAsWrittenFails` | re-raise a stored `QueueEmpty`, return items, raise a distinct end-of-trace exception | high, not executed | `Queues.ReplayQueue.PopAsWritten` | `Queues.ReplayQueue.Pop` |
| da/compiler/dast.py:2743-2747 | `Event.match` compares `type(target)` with `type(self)`, which are always both `Event`, so a received and a sent event with equal patterns match | a received and a sent event with pattern `"ping"`; `Patterns.KindBlindMatch`, and at table level `Patterns.KindBlindTableMerges`, where `add_event` of the sent event returns the stored received one | compare the event types (`self.type`), so the two kinds of event stay apart | medium, not executed | `Patterns.EventMatchAsWritten` | `Patterns.EventMatch` |
