/**
 The broadcast `Subject`. Every handle to a subject points at one shared,
 mutable callback registry (an `Rc<RefCell<Vec<…>>>`); cloning a handle
 copies the pointer, never the callbacks. Here the shared cells live in a
 `World`, a handle is the number of the cell it points at, and every
 operation is a pure function from one world to the next.

 Callbacks cannot act on the subject while it broadcasts (the registry is
 mutably borrowed for the whole delivery), so `Next` reads one registry
 state and returns the trace of the invocations it makes.
 */
module Subjects {
  import opened CallbackRegistry

  /** A `Subject` handle: the shared registry cell it points at. */
  datatype Subject = Subject(cell: nat)

  /** What `subscribe` returns: the handle it was called on and the identity of the new callback. */
  datatype Subscription = Subscription(source: Subject, callback: nat)

  /**
   The forwarding closure `from_stream` registers on the upstream stream:
   it owns a clone of the new subject and calls `next` on it per item.
   */
  datatype Relay = Relay(target: Subject)

  /** All shared registry cells, and the next cell number never allocated. */
  datatype World<Tag> = World(cells: map<nat, Registry<Tag>>, nextCell: nat)

  /** Every allocated cell lies below `nextCell` and holds a valid registry. */
  ghost predicate WorldValid<Tag>(w: World<Tag>)
  {
    forall c :: c in w.cells ==> c < w.nextCell && Valid(w.cells[c])
  }

  /** The handle points at an allocated cell (an `Rc` never dangles). */
  predicate Live<Tag>(w: World<Tag>, s: Subject)
  {
    s.cell in w.cells
  }

  /** The callbacks currently registered on the subject behind `s`. */
  function Entries<Tag>(w: World<Tag>, s: Subject): seq<Entry<Tag>>
    requires Live(w, s)
  {
    w.cells[s.cell].entries
  }

  /** Only the cell `c` may differ between `w` and `w'`; the set of cells is the same. */
  ghost predicate OthersUnchanged<Tag>(w: World<Tag>, w': World<Tag>, c: nat)
  {
    && w'.cells.Keys == w.cells.Keys
    && w'.nextCell == w.nextCell
    && forall d :: d in w.cells && d != c ==> w'.cells[d] == w.cells[d]
  }

  /** A world in which no subject has been created yet. */
  function Init<Tag>(): (w: World<Tag>)
    ensures WorldValid(w)
    ensures forall s: Subject :: !Live(w, s)
  {
    World(map[], 0)
  }

  /** `Subject::new`: a handle to a newly allocated, empty registry. */
  function New<Tag>(w: World<Tag>): (res: (World<Tag>, Subject))
    ensures Live(res.0, res.1)
    ensures |Entries(res.0, res.1)| == 0
    ensures WorldValid(w) ==> res.1.cell !in w.cells
    ensures WorldValid(w) ==> forall c :: c in w.cells ==> c in res.0.cells && res.0.cells[c] == w.cells[c]
    ensures WorldValid(w) ==> WorldValid(res.0)
  {
    var c := w.nextCell;
    (World(w.cells[c := Empty()], c + 1), Subject(c))
  }

  /** `Clone for Subject`: a second handle to the same registry. */
  function Clone(s: Subject): (c: Subject)
    ensures c.cell == s.cell
  {
    Subject(s.cell)
  }

  /**
   `Observable::subscribe`: appends the callback at the end of the shared
   registry and returns a subscription holding its identity.
   */
  function Subscribe<Tag>(w: World<Tag>, s: Subject, tag: Tag): (res: (World<Tag>, Subscription))
    requires Live(w, s)
    ensures Live(res.0, s)
    ensures Entries(res.0, s) == Entries(w, s) + [Entry(res.1.callback, tag)]
    ensures res.1.source == s
    ensures OthersUnchanged(w, res.0, s.cell)
    ensures WorldValid(w) ==> WorldValid(res.0)
    ensures WorldValid(w) ==> Count(Entries(w, s), res.1.callback) == 0
  {
    var (r, id) := Push(w.cells[s.cell], tag);
    (World(w.cells[s.cell := r], w.nextCell), Subscription(s, id))
  }

  /** `Subject::remove_callback`: drops every callback whose identity is `k`. */
  function RemoveCallback<Tag>(w: World<Tag>, s: Subject, k: nat): (w': World<Tag>)
    requires Live(w, s)
    ensures Live(w', s)
    ensures forall i :: 0 <= i < |Entries(w', s)| ==>
              Entries(w', s)[i] in Entries(w, s) && Entries(w', s)[i].id != k
    ensures forall i :: 0 <= i < |Entries(w, s)| && Entries(w, s)[i].id != k ==>
              Entries(w, s)[i] in Entries(w', s)
    ensures |Entries(w', s)| == |Entries(w, s)| - Count(Entries(w, s), k)
    ensures OthersUnchanged(w, w', s.cell)
    ensures WorldValid(w) ==> WorldValid(w')
  {
    var r := w.cells[s.cell];
    var kept := Retain(r.entries, k);
    RetainMembers(r.entries, k);
    RetainValid(r, k);
    World(w.cells[s.cell := Registry(kept, r.nextId)], w.nextCell)
  }

  /** `SubjectSubscription::unsubscribe`: removes the subscription's callback from its subject. */
  function Unsubscribe<Tag>(w: World<Tag>, sub: Subscription): (w': World<Tag>)
    requires Live(w, sub.source)
    ensures Live(w', sub.source)
    ensures Count(Entries(w', sub.source), sub.callback) == 0
    ensures forall j :: j != sub.callback ==>
              Count(Entries(w', sub.source), j) == Count(Entries(w, sub.source), j)
    ensures OthersUnchanged(w, w', sub.source.cell)
    ensures WorldValid(w) ==> WorldValid(w')
  {
    RemoveCallback(w, sub.source, sub.callback)
  }

  /**
   `Observer::next`: invokes every registered callback once with `v`, in
   registration order, and hands back the same handle for chaining.
   */
  function Next<Tag, T>(w: World<Tag>, s: Subject, v: T): (res: (seq<Delivery<Tag, T>>, Subject))
    requires Live(w, s)
    ensures res.1 == s
    ensures |res.0| == |Entries(w, s)|
    ensures forall i :: 0 <= i < |res.0| ==>
              res.0[i] == Delivery(Entries(w, s)[i].id, Entries(w, s)[i].tag, v)
  {
    (Deliver(Entries(w, s), v), s)
  }

  /**
   `Subject::from_stream`: a new, empty subject, and the relay (holding a
   clone of it) that the upstream stream now calls for each item.
   */
  function FromStream<Tag>(w: World<Tag>): (res: (World<Tag>, Subject, Relay))
    ensures Live(res.0, res.1)
    ensures |Entries(res.0, res.1)| == 0
    ensures WorldValid(w) ==> res.1.cell !in w.cells
    ensures res.2.target.cell == res.1.cell
    ensures WorldValid(w) ==> forall c :: c in w.cells ==> c in res.0.cells && res.0.cells[c] == w.cells[c]
    ensures WorldValid(w) ==> WorldValid(res.0)
  {
    var (w', broadcast) := New(w);
    (w', broadcast, Relay(Clone(broadcast)))
  }

  /**
   The relay receiving one upstream item: a `next` on its clone of the
   subject, so every callback registered on that subject gets the item.
   */
  function Forward<Tag, T>(w: World<Tag>, relay: Relay, x: T): (t: seq<Delivery<Tag, T>>)
    requires Live(w, relay.target)
    ensures |t| == |Entries(w, relay.target)|
    ensures forall i :: 0 <= i < |t| ==>
              t[i] == Delivery(Entries(w, relay.target)[i].id, Entries(w, relay.target)[i].tag, x)
    ensures forall k :: Received(t, k) == Count(Entries(w, relay.target), k)
  {
    DeliverCountsAll(Entries(w, relay.target), x);
    Next(w, relay.target, x).0
  }

  // ----- Sharing between clones -----

  /**
   A callback subscribed through any handle is reached by `next` through any
   other handle to the same registry, after every earlier callback.
   */
  lemma CloneShares<Tag, T>(w: World<Tag>, s: Subject, h: Subject, tag: Tag, v: T)
    requires Live(w, s)
    requires h.cell == s.cell
    ensures var (w', sub) := Subscribe(w, h, tag);
            Live(w', s) &&
            Next(w', s, v).0 == Next(w, s, v).0 + [Delivery(sub.callback, tag, v)]
  {
    var (w', sub) := Subscribe(w, h, tag);
    DeliverAppend(Entries(w, s), [Entry(sub.callback, tag)], v);
  }

  // ----- Subscribe and unsubscribe -----

  /** A new subscription's callback is registered exactly once. */
  lemma SubscribeRegistersOnce<Tag>(w: World<Tag>, s: Subject, tag: Tag)
    requires WorldValid(w)
    requires Live(w, s)
    ensures var (w', sub) := Subscribe(w, s, tag);
            Count(Entries(w', s), sub.callback) == 1
  {
    var (w', sub) := Subscribe(w, s, tag);
    CountAppend(Entries(w, s), [Entry(sub.callback, tag)], sub.callback);
  }

  /** Unsubscribing right after subscribing restores the registry's callbacks. */
  lemma SubscribeUnsubscribe<Tag>(w: World<Tag>, s: Subject, tag: Tag)
    requires WorldValid(w)
    requires Live(w, s)
    ensures var (w', sub) := Subscribe(w, s, tag);
            Live(Unsubscribe(w', sub), s) && Entries(Unsubscribe(w', sub), s) == Entries(w, s)
  {
    var (w', sub) := Subscribe(w, s, tag);
    var k := sub.callback;
    RetainAppend(Entries(w, s), [Entry(k, tag)], k);
    RetainAbsent(Entries(w, s), k);
  }

  /** Removing an identity that is not registered leaves the world as it was. */
  lemma RemoveAbsent<Tag>(w: World<Tag>, s: Subject, k: nat)
    requires Live(w, s)
    requires Count(Entries(w, s), k) == 0
    ensures RemoveCallback(w, s, k) == w
  {
    RetainAbsent(Entries(w, s), k);
    assert w.cells[s.cell := w.cells[s.cell]] == w.cells;
  }

  /** Removing the same identity twice has the effect of removing it once. */
  lemma RemoveIdempotent<Tag>(w: World<Tag>, s: Subject, k: nat)
    requires Live(w, s)
    ensures RemoveCallback(RemoveCallback(w, s, k), s, k) == RemoveCallback(w, s, k)
  {
    RetainIdempotent(Entries(w, s), k);
  }

  /**
   With unique identities, unsubscribing a registered callback removes that
   one entry and keeps all the others in order.
   */
  lemma UnsubscribeRemovesOne<Tag>(w: World<Tag>, sub: Subscription, i: nat)
    requires WorldValid(w)
    requires Live(w, sub.source)
    requires i < |Entries(w, sub.source)|
    requires Entries(w, sub.source)[i].id == sub.callback
    ensures var before := Entries(w, sub.source);
            Entries(Unsubscribe(w, sub), sub.source) == before[..i] + before[i + 1..]
  {
    RetainRemovesOne(Entries(w, sub.source), i);
  }

  /**
   After `unsubscribe`, a `next` through any handle to the same registry
   skips the removed callback and reaches every other one, in the same order.
   */
  lemma UnsubscribeStopsDelivery<Tag, T>(w: World<Tag>, sub: Subscription, h: Subject, v: T)
    requires Live(w, sub.source)
    requires h.cell == sub.source.cell
    ensures var w' := Unsubscribe(w, sub);
            Live(w', h) &&
            Next(w', h, v).0 == Without(Next(w, h, v).0, sub.callback) &&
            Received(Next(w', h, v).0, sub.callback) == 0
  {
    var w' := Unsubscribe(w, sub);
    DeliverRetain(Entries(w, h), sub.callback, v);
    DeliverCounts(Entries(w', h), v, sub.callback);
  }

  // ----- Broadcast -----

  /** Every callback registered when `next` is called is invoked exactly once. */
  lemma NextExactlyOnce<Tag, T>(w: World<Tag>, s: Subject, v: T, i: nat)
    requires WorldValid(w)
    requires Live(w, s)
    requires i < |Entries(w, s)|
    ensures Received(Next(w, s, v).0, Entries(w, s)[i].id) == 1
  {
    DeliverExactlyOnce(Entries(w, s), v, i);
  }

  // ----- from_stream -----

  /**
   An upstream item reaches exactly the observers subscribed when it is
   produced: a subscriber added later gets no invocation from it, but gets
   exactly one from every later item.
   */
  lemma FromStreamNoReplay<Tag, T>(w: World<Tag>, relay: Relay, tag: Tag, x: T, y: T)
    requires WorldValid(w)
    requires Live(w, relay.target)
    ensures var (w', sub) := Subscribe(w, relay.target, tag);
            Received(Forward(w, relay, x), sub.callback) == 0 &&
            Received(Forward(w', relay, y), sub.callback) == 1
  {
    var (w', sub) := Subscribe(w, relay.target, tag);
    DeliverCounts(Entries(w, relay.target), x, sub.callback);
    DeliverCounts(Entries(w', relay.target), y, sub.callback);
    SubscribeRegistersOnce(w, relay.target, tag);
  }

  // ----- The base_data_flow test and two further scenarios -----

  /** Observers used by the scenarios: a callback storing twice its argument, and two recorders. */
  datatype Probe = Doubler | ObserverA | ObserverB

  /**
   The captured `i` after the doubling callback has run for each of its
   invocations in `t`: untouched when the doubler is never invoked, twice
   the last value when the doubler is invoked last.
   */
  function DoubledState(i: int, t: seq<Delivery<Probe, int>>): (r: int)
    ensures (forall j :: 0 <= j < |t| ==> t[j].tag != Doubler) ==> r == i
    ensures |t| > 0 && t[|t| - 1].tag == Doubler ==> r == t[|t| - 1].value * 2
    decreases |t|
  {
    if |t| == 0 then i
    else DoubledState(if t[0].tag == Doubler then t[0].value * 2 else i, t[1..])
  }

  /**
   The crate's `base_data_flow` test: a doubling callback subscribed through
   a clone, whose subscription is dropped, stores 2 after `next(1)`.
   */
  lemma BaseDataFlow()
    ensures var (w1, broadcast) := New<Probe>(Init());
            var (w2, _) := Subscribe(w1, Clone(broadcast), Doubler);
            DoubledState(0, Next(w2, broadcast, 1).0) == 2
  {
    var (w1, broadcast) := New<Probe>(Init());
    var (w2, _) := Subscribe(w1, Clone(broadcast), Doubler);
    assert Entries(w2, broadcast) == [Entry(0, Doubler)];
  }

  /**
   Once the doubling callback that stored 2 is unsubscribed, `next(5)`
   leaves the stored value at 2.
   */
  lemma UnsubscribedDoublerScenario()
    ensures var (w1, broadcast) := New<Probe>(Init());
            var (w2, sub) := Subscribe(w1, Clone(broadcast), Doubler);
            var i := DoubledState(0, Next(w2, broadcast, 1).0);
            var w3 := Unsubscribe(w2, sub);
            i == 2 && DoubledState(i, Next(w3, broadcast, 5).0) == 2
  {
    var (w1, broadcast) := New<Probe>(Init());
    var (w2, sub) := Subscribe(w1, Clone(broadcast), Doubler);
    assert Entries(w2, broadcast) == [Entry(0, Doubler)];
    var w3 := Unsubscribe(w2, sub);
    assert Entries(w3, broadcast) == [];
  }

  /**
   With A subscribed before B, `next(x)` invokes A then B; after B
   unsubscribes, `next(y)` invokes A alone.
   */
  lemma TwoObserversScenario(x: int, y: int)
    ensures var (w1, s) := New<Probe>(Init());
            var (w2, subA) := Subscribe(w1, s, ObserverA);
            var (w3, subB) := Subscribe(w2, s, ObserverB);
            Next(w3, s, x).0 == [Delivery(subA.callback, ObserverA, x), Delivery(subB.callback, ObserverB, x)] &&
            Next(Unsubscribe(w3, subB), s, y).0 == [Delivery(subA.callback, ObserverA, y)]
  {
    var (w1, s) := New<Probe>(Init());
    var (w2, subA) := Subscribe(w1, s, ObserverA);
    var (w3, subB) := Subscribe(w2, s, ObserverB);
    var e := Entries(w3, s);
    assert e == [Entry(0, ObserverA), Entry(1, ObserverB)];
    RetainRemovesOne(e, 1);
    assert e[..1] + e[2..] == [Entry(0, ObserverA)];
  }
}
