# Broadcast `Subject` of rx_rs, modelled in Dafny

rx_rs is a small push-based reactive stream crate. Its one component is the
`Subject`: at once an observable (observers `subscribe` to it) and an observer
(values are pushed into it with `next`). Every value pushed in is fanned out to
all currently subscribed callbacks, in registration order. `from_stream` forks
a single-subscriber upstream stream into such a broadcast.

The model has two modules:

- `CallbackRegistry` (`registry.dfy`) is the registry itself: a sequence of
  entries. Each entry pairs an identity token with an opaque observer tag. The
  registry also keeps the next unused token. The module holds the `retain`
  filter used for removal and the delivery trace of one broadcast.
- `Subjects` (`subject.dfy`) is the subject. The shared `Rc<RefCell<Vec<…>>>`
  becomes a `World`: a map from cell numbers to registries. A `Subject` handle
  is the number of the cell it points at, so `Clone` yields a handle to the
  same registry. A `Subscription` holds the handle it was made on and the new
  callback's identity. `subscribe`, `remove_callback`, `unsubscribe`, `next`
  and `from_stream` are pure functions from one world to the next.

Callbacks are not run. `next` returns a trace: one `Delivery(entry, tag, value)`
for each callback invocation, in invocation order. The `base_data_flow` test
becomes a small interpretation, `DoubledState`, of the doubling callback over
such a trace.

Two details of the code shape the model:

- `retain` (src/subject.rs:71) drops every entry whose pointer matches, not
  just one, so `Retain` is a full filter. `RetainRemovesOne` shows it removes
  exactly one entry when identities are unique, which the fresh-token scheme
  guarantees.
- `next` holds `borrow_mut` for the whole loop (src/subject.rs:79), so a
  callback that edits the registry during delivery panics. The model makes
  non-reentrancy structural: a callback is a tag and cannot act. `Next` reads
  one registry state and does not return a new one.

## Model

| member | source | states |
|---|---|---|
| CallbackRegistry.Empty | src/subject.rs:46-50 | a new registry has no entries and satisfies the identity invariant |
| CallbackRegistry.Push | src/subject.rs:35-36 | the callback is appended at the end, all earlier entries unchanged and in order; its identity was not in use before; the invariant (unique identities, all below the counter) is kept |
| CallbackRegistry.Retain | src/subject.rs:67-72 | no entry with the key survives, every other identity keeps its multiplicity, and the length drops by the number of entries carrying the key (all of them, not just one) |
| CallbackRegistry.RetainMembers | src/subject.rs:71 | every kept entry comes from the input and does not carry the key, and every input entry not carrying the key is kept |
| CallbackRegistry.RetainLoop | src/subject.rs:71 | a left-to-right loop that visits each entry once and keeps the non-matching ones in order computes the same sequence as the filter |
| CallbackRegistry.RetainAppend | src/subject.rs:71 | filtering distributes over concatenation, so kept entries keep their original relative order |
| CallbackRegistry.RetainAbsent | src/subject.rs:71 | removing an identity that no entry carries leaves the entries unchanged |
| CallbackRegistry.RetainIdempotent | src/subject.rs:71 | removing the same identity twice equals removing it once |
| CallbackRegistry.RetainValid | src/subject.rs:67-72 | removal preserves the identity invariant of the registry |
| CallbackRegistry.RetainRemovesOne | src/subject.rs:71 | with unique identities, removing the identity of the entry at position i yields the entries before i followed by those after i |
| CallbackRegistry.Deliver | src/subject.rs:78-83 | the trace has one invocation per entry, position by position, each with that entry's identity and tag and the pushed value |
| CallbackRegistry.DeliverCounts | src/subject.rs:79-81 | each identity is invoked exactly as often as it is registered |
| CallbackRegistry.DeliverExactlyOnce | src/subject.rs:79-81 | with unique identities, every registered entry is invoked exactly once |
| CallbackRegistry.DeliverAppend | src/subject.rs:78-83 | broadcasting over an appended registry invokes the earlier entries first, then the appended ones |
| CallbackRegistry.DeliverRetain | src/subject.rs:67-83 | broadcasting after a removal gives the earlier broadcast's trace with the removed identity's invocations struck out |
| Subjects.New | src/subject.rs:46-50 | a new handle points at a newly allocated cell whose registry is empty; existing cells are untouched and the world invariant is kept |
| Subjects.Clone | src/subject.rs:14-19 | the clone points at the same registry cell as the original |
| Subjects.Subscribe | src/subject.rs:26-42 | the callback is appended at the end of the shared registry, earlier entries unchanged; the subscription holds the handle and the new, previously unused identity; no other cell changes |
| Subjects.RemoveCallback | src/subject.rs:67-72 | the registry keeps exactly the entries whose identity differs from the key, loses as many as carried it, and no other cell changes |
| Subjects.Unsubscribe | src/subject.rs:91-93 | afterwards no entry carries the subscription's identity, every other identity keeps its count, no other cell changes, and the world invariant is kept |
| Subjects.Next | src/subject.rs:78-83 | the trace has one invocation per registered entry, in registration order, each with the pushed value; the same handle is returned |
| Subjects.FromStream | src/subject.rs:54-65 | the subject is a newly allocated cell whose registry is empty; existing cells are untouched; the relay given to the upstream holds a handle to that same cell |
| Subjects.Forward | src/subject.rs:61-63 | an upstream item reaches every callback registered on the subject, one invocation per entry in registration order with that item, and each identity is invoked exactly as often as it is registered |
| Subjects.CloneShares | src/subject.rs:14-19 | a callback subscribed through one handle is reached, last, by `next` through any other handle to the same cell |
| Subjects.SubscribeRegistersOnce | src/subject.rs:35-41 | the new subscription's identity occurs exactly once in the registry |
| Subjects.SubscribeUnsubscribe | src/subject.rs:35-92 | unsubscribing right after subscribing restores the registry's entries |
| Subjects.RemoveAbsent | src/subject.rs:71 | removing an identity that is not registered leaves the whole world unchanged |
| Subjects.RemoveIdempotent | src/subject.rs:71 | removing the same identity twice gives the same world as removing it once |
| Subjects.UnsubscribeRemovesOne | src/subject.rs:92 | with unique identities, unsubscribing removes exactly the one entry at the subscription's position and keeps the rest in order |
| Subjects.UnsubscribeStopsDelivery | src/subject.rs:78-92 | after unsubscribing, `next` through any handle to the cell never reaches that callback, and reaches every other one in the earlier order |
| Subjects.NextExactlyOnce | src/subject.rs:79-81 | every callback registered when `next` is called is invoked exactly once |
| Subjects.FromStreamNoReplay | src/subject.rs:54-65 | an upstream item reaches no subscriber added after it, while each later item reaches that subscriber exactly once |
| Subjects.DoubledState | src/subject.rs:100 | the test's doubling closure (body `i = *v * 2`) run over a trace: the captured value is unchanged when the closure is never invoked, and is twice the last value when the closure is invoked last |
| Subjects.BaseDataFlow | src/subject.rs:95-104 | a doubling callback subscribed through a clone, its subscription dropped, stores 2 after `next(1)` |
| Subjects.UnsubscribedDoublerScenario | src/subject.rs:78-93 | a scenario beyond the crate's test: after the doubling callback that stored 2 unsubscribes, `next(5)` leaves 2 |
| Subjects.TwoObserversScenario | src/subject.rs:78-93 | with A subscribed before B, `next(x)` invokes A then B; after B unsubscribes, `next(y)` invokes A alone |

## Left out

- Raw fat-pointer identity: callbacks are identified by a fresh token from a
  per-registry counter, not by their boxed address. In the code, two boxed
  zero-sized closures of the same type share one fat pointer, and `retain`
  would then remove both on one `unsubscribe`. The model does not reproduce
  this. `Retain` still removes every entry carrying the key.
- The `unsafe` `transmute` and the lifetime/variance handling in `subscribe`:
  a type-system workaround with no run-time behaviour.
- `RefCell` run-time borrow checks: a callback that subscribes, unsubscribes or
  calls `next` on the same subject during delivery panics in the code. The
  model has no such callback, since callbacks are opaque tags.
- The bodies and side effects of user callbacks: delivery is recorded as a
  trace instead. The one exception is `DoubledState`, for the crate's own test.
- The upstream `Observable` and the `Observer`/`Subscription` trait definitions
  in the crate root are not part of this model. `from_stream` is modelled with
  an abstract upstream: it receives the `Relay` and calls `Forward` per item.
- `Rc` reference counting and deallocation: cells are never freed in the model.
- DoubledState: values are unbounded integers. In the crate's test, `i` and
  the item type are `i32`, so the closure's `*v * 2` overflows, and panics in a
  test build, for any value outside -2^30 .. 2^30 - 1. The contract's "twice
  the last value" holds in the code only inside that range; the test itself
  pushes 1.
- `#[derive(Default)]` on `Subject` is not modelled separately; it yields an
  empty registry just as `new` does.
