# ArceOS TCP listen table and per-CPU sleep timers, in Dafny

This project models two small kernel data structures of ArceOS and proves
what they promise.

**The TCP listen table** (`axnet`, module `ListenTable`) has one slot per
`u16` port. A slot is empty or holds a listen entry: the endpoint being
listened on (a wildcard or a bound address, and the port) and a bounded SYN
queue of socket handles. The model is a class over a 65536-element array of
`Option<Entry>`. It holds a reference to the socket registry (`SOCKET_SET`,
class `Smoltcp.SocketSet`, a map from handle to socket state and address
pair). The table invariant `ListenTable.ListenTable.Valid` says four things:
- an entry in slot `p` listens on port `p`, and `p` is never 0;
- every SYN queue is at most `LISTEN_QUEUE_SIZE` long;
- no handle appears twice in a queue or under two ports;
- every queued handle is live in the registry.

Every operation keeps this invariant. Every operation on port `p` leaves
every other slot unchanged.

`accept` removes with `VecDeque::swap_remove_front`. The model defines that
operation exactly (`SwapRemoveFront`) and proves its shape,
`q[1..idx] + [q[0]] + q[idx+1..]`.

The small predicates `IsConnected`, `IsClosed`, `AcceptsAddress` and
`NewEntry` transcribe `is_connected`, `is_closed`,
`ListenTableEntry::can_accept` and `ListenTableEntry::new`
(modules/axnet/src/listen_table.rs lines 165-169, 171-174, 33-38 and 25-30).
Likewise `Timers.PtrEq` and `Timers.PtrHash` transcribe `PartialEq for
TaskPtr` and `Hash for TaskPtr` (modules/axtask/src/timers.rs lines 22-26 and
30-34). The contracts below are stated with them.

**The sleep timer list** (`axtask`, module `Timers`) is one CPU's
`TIMER_LIST`. It is a priority queue keyed by task identity, and its
priority is the wake deadline under `Reverse`, so the earliest deadline
comes out first. The model is a class holding a `map<TaskPtr, TimeValue>`.
Pushing a task that is already queued replaces its deadline.

`check_events` is a loop of `pop_if(deadline < now)`. It is proved against a
step-by-step description of a drain (`Pops`, `Drains`). Lemmas derive what
callers rely on:
- only expired entries are popped, and all of them are;
- each task is popped once;
- deadlines come out in non-decreasing order;
- the entries not yet due stay untouched.

The module `ListenTableClient` is a caller written against the contracts
alone. It walks a listener on port 8080 with a queue of capacity 4 through
a full life cycle:
- a second `listen` fails until `unlisten`;
- four SYNs fill the queue and a fifth is dropped;
- nothing is acceptable until one socket completes its handshake;
- `accept` then hands out exactly that socket, and the old front of the
  queue takes its place.

`accept` removes the found handle with `VecDeque::swap_remove_front`, which
swaps it with the front of the queue, not the back, so the queue keeps
neither FIFO order nor the swap-with-last shape. On the `ECONNRESET` path the
reset handle leaves the SYN queue but stays in the socket registry, where
nothing in the table refers to it any more: `Accept` leaves the registry
unchanged on every path.

`PriorityQueue::push` on a task that is already queued replaces its
deadline, so a task never has two registrations;
`Timers.RearmReplacesDeadline` states the consequence.

## Model

| member | source | states |
|---|---|---|
| `ListenTable.SwapRemoveFront` | modules/axnet/src/listen_table.rs:121 | out of range gives `None` and no change; otherwise the element at `idx` is returned, the queue is one shorter, and element `k` of the result is `q[0]` where `k + 1 == idx` and `q[k + 1]` elsewhere |
| `ListenTable.SwapRemoveFrontShape` | modules/axnet/src/listen_table.rs:121 | the remaining queue is `q[1..idx] + [q[0]] + q[idx+1..]` (`q[1..]` for `idx == 0`), and its multiset is the old one less the removed handle |
| `ListenTable.SwapRemoveFrontKeepsDistinct` | modules/axnet/src/listen_table.rs:121 | removal keeps a duplicate-free queue duplicate-free, keeps only handles that were queued, and the removed handle is gone |
| `ListenTable.FirstConnected` | modules/axnet/src/listen_table.rs:109-113 | the `find_map` result: the lowest index whose socket is connected, or `None` exactly when no queued socket is connected |
| `ListenTable.FindConnected` | modules/axnet/src/listen_table.rs:109-113 | the loop returns exactly `FirstConnected`: a connected index with none before it, or `None` iff nothing is connected |
| `ListenTable.FirstConnectedIsLeast` | modules/axnet/src/listen_table.rs:109-113 | a connected index with no connected index before it is the one `find_map` yields |
| `ListenTable.CanAcceptIffAcceptFinds` | modules/axnet/src/listen_table.rs:91-113 | `can_accept`'s `any` is true exactly when `accept`'s `find_map` finds an index, so `can_accept` true means `accept` will not answer `EAGAIN` |
| `ListenTable.AcceptFrom` | modules/axnet/src/listen_table.rs:108-129 | `EAGAIN` with the entry unchanged iff no queued socket is connected; otherwise the lowest-index connected handle leaves the queue by `swap_remove_front` and is not queued any more; the queue shrinks by one; `ECONNRESET` iff that socket is closed, else the handle with its address pair; a returned handle is connected and not closed |
| `ListenTable.ListenTable.constructor` | modules/axnet/src/listen_table.rs:54-63 | all 65536 slots are empty and the table invariant holds |
| `ListenTable.ListenTable.CanListen` | modules/axnet/src/listen_table.rs:65-67 | true exactly when the port's slot is empty |
| `ListenTable.ListenTable.Listen` | modules/axnet/src/listen_table.rs:69-80 | port 0 is refused as a caller bug; on an empty slot `Ok` and an entry with the given endpoint and an empty queue; on an occupied slot `EADDRINUSE` and the slot unchanged; other slots unchanged; invariant kept |
| `ListenTable.ListenTable.DropEntry` | modules/axnet/src/listen_table.rs:41-47 | every handle in the entry's SYN queue is removed from the registry, and nothing else is |
| `ListenTable.ListenTable.Unlisten` | modules/axnet/src/listen_table.rs:82-85 | the slot is empty afterwards whatever it held (so a repeat is a no-op); the old entry's queued handles, and only those, leave the registry; other slots unchanged; invariant kept |
| `ListenTable.ListenTable.CanAccept` | modules/axnet/src/listen_table.rs:91-98 | `EINVAL` on an empty slot; otherwise `Ok` of whether some queued socket has left `Listen` and `SynReceived` |
| `ListenTable.ListenTable.Accept` | modules/axnet/src/listen_table.rs:100-130 | `EINVAL` on an empty slot; otherwise result and new entry are those of `AcceptFrom`; the registry and other slots unchanged; invariant kept |
| `ListenTable.ListenTable.IncomingTcpPacket` | modules/axnet/src/listen_table.rs:132-162 | no change unless the port has a listener, the listener accepts `dst.addr` (a wildcard accepts any), its queue is below capacity and the new socket's `listen` succeeded; then exactly the fresh handle is appended and registered as a listening socket; other slots unchanged; invariant kept, so the queue never exceeds capacity |
| `ListenTableClient.AcceptThirdOfFour` | modules/axnet/src/listen_table.rs:109-129 | from the queue `[1, 2, 3, 4]` with only socket 3 connected, `accept` returns socket 3 and leaves `[2, 1, 4]`: not FIFO order and not swap-with-last |
| `Timers.PtrEqIsIdentity` | modules/axtask/src/timers.rs:22-28 | two `TaskPtr`s are equal iff they point to the same task, so a map keyed by `TaskPtr` holds at most one deadline per task |
| `Timers.PtrHashAgreesWithEq` | modules/axtask/src/timers.rs:30-34 | equal `TaskPtr`s hash alike, whatever the hasher |
| `Timers.TimerList.constructor` | modules/axtask/src/timers.rs:36-38 | a CPU's timer list starts empty |
| `Timers.TimerList.Push` | modules/axtask/src/timers.rs:42 | the task's deadline becomes the given one, replacing any earlier deadline; no other entry changes |
| `Timers.TimerList.Remove` | modules/axtask/src/timers.rs:48 | the task's entry, if any, is removed; no other entry changes |
| `Timers.EarliestExists` | modules/axtask/src/timers.rs:55-56 | a non-empty list has an entry whose deadline is not later than any other: the top under `Reverse` |
| `Timers.TimerList.PopIfExpired` | modules/axtask/src/timers.rs:55-56 | if the earliest entry's deadline is strictly before `now` it is removed and returned; otherwise `None`, nothing changes, and no entry is expired |
| `Timers.SetAlarmWakeup` | modules/axtask/src/timers.rs:40-44 | afterwards the task is in the list with exactly the given deadline; every other task's entry is unchanged |
| `Timers.ClearAlarmWakeup` | modules/axtask/src/timers.rs:46-50 | afterwards the task has no entry (a no-op if it had none); every other task's entry is unchanged |
| `Timers.PopsExtend` | modules/axtask/src/timers.rs:55-59 | one more successful `pop_if` extends a run of pops, which is the loop invariant of the drain |
| `Timers.PopsFromList` | modules/axtask/src/timers.rs:55-56 | every popped entry was in the list with that deadline, strictly before `now` |
| `Timers.PopsRest` | modules/axtask/src/timers.rs:55-57 | what remains is the list less the popped tasks, deadlines unchanged, one entry fewer per pop |
| `Timers.PopsOrdered` | modules/axtask/src/timers.rs:55-56 | no task is popped twice, deadlines come out in non-decreasing order, and none is later than a deadline still queued |
| `Timers.DrainFacts` | modules/axtask/src/timers.rs:55-59 | after a drain the popped tasks are exactly those with deadline before `now`, and the list is exactly the entries with deadline at or after `now` |
| `Timers.CheckEvents` | modules/axtask/src/timers.rs:52-60 | the loop terminates; each expired task is unblocked exactly once with flag `true`, earliest deadline first; an entry due exactly at `now` is not fired; no expired entry remains and the rest are untouched |
| `Timers.RearmReplacesDeadline` | modules/axtask/src/timers.rs:40-44 | a task armed at `d1` and then at `d2` is not woken by a drain at a time in `(d1, d2]` and keeps deadline `d2` |

## Left out

- Concurrency is not modelled: the per-slot `Mutex` and `Arc` of the table, `percpu_static!`, `with_current`, the raw `current_ref_mut_raw` access and interrupt masking. The model has one table and one CPU's timer list, used sequentially.
- `ListenTable::listen_entry` clones the slot's `Arc` so that the lock can be taken outside the table; the model reads the array slot directly.
- The entry behind each slot's lock is updated in place. The model assigns a new `Entry` value to the slot. Nothing else can reach the entry, so nothing is lost.
- `ListenTable::new` builds the slots with an `unsafe` uninitialised slice; only its result, 65536 empty slots, is modelled.
- `LISTEN_QUEUE_SIZE` comes from `consts.rs`, which is not part of this model. The table takes it as a constructor argument.
- `ListenTable.ListenTable.IncomingTcpPacket`: creating the smoltcp socket and its buffers (`TCP_RX_BUF_LEN`, `TCP_TX_BUF_LEN`) is not modelled. The outcome of `socket.listen` is the argument `listenOk`. The handle `SocketSet::add` would choose is an argument that must not be live. `src` is only logged.
- `incoming_tcp_packet` takes the registry as its `sockets` argument, while `Drop`, `is_connected` and `is_closed` use `SOCKET_SET`. The model treats the two as one registry, the class's `sockets` field, because the caller passes the locked `SOCKET_SET`; the invariant that every queued handle is live depends on this.
- The socket registry is abstract. A socket is its TCP state and its optional address pair. `SocketSet.Valid` assumes what smoltcp keeps true: a socket that is neither `Closed` nor `Listen` has an address pair. So the `unwrap`s in `get_addr_tuple` cannot fail for a connected socket that is not closed.
- `SocketSet::remove` panics on a dead handle, so the model requires the handle to be live. The table invariant guarantees this for the handles `Drop` removes.
- `Timers.CheckEvents` reads the clock once. The source calls `wall_time()` again on each iteration. With `now` fixed, the drain stops at the same point a monotone clock read at its start would give. Entries that fall due during the drain are left for the next timer tick.
- `Timers.TimerList.PopIfExpired`: when several tasks share the earliest deadline, the model may pop any of them. The binary heap of the `priority_queue` crate picks one by its internal layout, which is not modelled.
- The heap and index map inside `PriorityQueue` are not modelled; the queue is its abstract content, a map from task to deadline.
- foldhash is not modelled. The hash is any function of the task pointer, because that pointer is all `Hash for TaskPtr` feeds the hasher.
- `select_run_queue` and `unblock_task` are external; `run_queue.rs` is not part of this model. The drain returns the calls it would make, in order, as `UnblockCall` values.
- Logging (`warn!`, `debug!`) has no effect on the state and is left out.
