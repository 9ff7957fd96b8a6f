/**
 The callback registry behind a `Subject`: an ordered vector of boxed
 callbacks. A callback is an opaque observer tag; what distinguishes two
 entries is an identity token (standing in for the boxed closure's address),
 which is the only key `remove_callback` compares.

 Broadcasting a value does not run closures here: it produces a delivery
 trace, one `Delivery` per invoked callback, in invocation order.
 */
module CallbackRegistry {

  /** One registered callback: its identity token and the observer it stands for. */
  datatype Entry<Tag> = Entry(id: nat, tag: Tag)

  /** The vector of callbacks, plus the next identity token never handed out. */
  datatype Registry<Tag> = Registry(entries: seq<Entry<Tag>>, nextId: nat)

  /** One callback invocation: which entry was called, for which observer, with which value. */
  datatype Delivery<Tag, T> = Delivery(entry: nat, tag: Tag, value: T)

  /** Number of entries in `s` whose identity is `k`. */
  function Count<Tag>(s: seq<Entry<Tag>>, k: nat): nat
  {
    if |s| == 0 then 0
    else (if s[0].id == k then 1 else 0) + Count(s[1..], k)
  }

  /** No two entries share an identity. */
  ghost predicate UniqueIds<Tag>(s: seq<Entry<Tag>>)
  {
    forall i, j :: 0 <= i < j < |s| ==> s[i].id != s[j].id
  }

  /** Every identity in use lies below `bound`. */
  ghost predicate IdsBelow<Tag>(s: seq<Entry<Tag>>, bound: nat)
  {
    forall i :: 0 <= i < |s| ==> s[i].id < bound
  }

  /** The representation invariant: identities are unique and were all issued before `nextId`. */
  ghost predicate Valid<Tag>(r: Registry<Tag>)
  {
    UniqueIds(r.entries) && IdsBelow(r.entries, r.nextId)
  }

  /** The registry a new subject starts with. */
  function Empty<Tag>(): (r: Registry<Tag>)
    ensures |r.entries| == 0
    ensures Valid(r)
  {
    Registry([], 0)
  }

  /**
   Appends a callback at the end of the vector and returns the identity
   under which it can later be removed.
   */
  function Push<Tag>(r: Registry<Tag>, tag: Tag): (res: (Registry<Tag>, nat))
    ensures res.0.entries == r.entries + [Entry(res.1, tag)]
    ensures Valid(r) ==> Valid(res.0)
    ensures Valid(r) ==> Count(r.entries, res.1) == 0
  {
    var id := r.nextId;
    CountFresh(r.entries, id);
    (Registry(r.entries + [Entry(id, tag)], id + 1), id)
  }

  /**
   Keeps exactly the entries whose identity differs from `k`, in order
   (the `retain` filter of `remove_callback`). Every entry carrying `k` is
   dropped, not just the first one.
   */
  function Retain<Tag>(s: seq<Entry<Tag>>, k: nat): (r: seq<Entry<Tag>>)
    ensures Count(r, k) == 0
    ensures forall j :: j != k ==> Count(r, j) == Count(s, j)
    ensures |r| == |s| - Count(s, k)
  {
    if |s| == 0 then []
    else if s[0].id == k then Retain(s[1..], k)
    else [s[0]] + Retain(s[1..], k)
  }

  /**
   A left-to-right loop that visits each entry once and keeps the
   non-matching ones in order; it agrees with the filter `Retain`.
   */
  method RetainLoop<Tag>(s: seq<Entry<Tag>>, k: nat) returns (kept: seq<Entry<Tag>>)
    ensures kept == Retain(s, k)
  {
    kept := [];
    var i := 0;
    while i < |s|
      invariant 0 <= i <= |s|
      invariant kept == Retain(s[..i], k)
    {
      assert s[..i + 1] == s[..i] + [s[i]];
      RetainAppend(s[..i], [s[i]], k);
      if s[i].id != k {
        kept := kept + [s[i]];
      }
      i := i + 1;
    }
    assert s[..|s|] == s;
  }

  /** The trace of one broadcast: every entry is called once with `v`, in vector order. */
  function Deliver<Tag, T>(s: seq<Entry<Tag>>, v: T): (t: seq<Delivery<Tag, T>>)
    ensures |t| == |s|
    ensures forall i :: 0 <= i < |s| ==> t[i] == Delivery(s[i].id, s[i].tag, v)
  {
    if |s| == 0 then []
    else [Delivery(s[0].id, s[0].tag, v)] + Deliver(s[1..], v)
  }

  /** Number of invocations in trace `t` that went to the entry with identity `k`. */
  function Received<Tag, T>(t: seq<Delivery<Tag, T>>, k: nat): nat
  {
    if |t| == 0 then 0
    else (if t[0].entry == k then 1 else 0) + Received(t[1..], k)
  }

  /** The trace `t` with every invocation of entry `k` struck out. */
  function Without<Tag, T>(t: seq<Delivery<Tag, T>>, k: nat): seq<Delivery<Tag, T>>
  {
    if |t| == 0 then []
    else if t[0].entry == k then Without(t[1..], k)
    else [t[0]] + Without(t[1..], k)
  }

  // ----- Counting identities -----

  lemma {:induction false} CountAppend<Tag>(a: seq<Entry<Tag>>, b: seq<Entry<Tag>>, k: nat)
    ensures Count(a + b, k) == Count(a, k) + Count(b, k)
  {
    if |a| == 0 {
      assert a + b == b;
    } else {
      assert (a + b)[1..] == a[1..] + b;
      CountAppend(a[1..], b, k);
    }
  }

  /** An identity carried by no entry has count zero. */
  lemma {:induction false} CountAbsent<Tag>(s: seq<Entry<Tag>>, k: nat)
    requires forall i :: 0 <= i < |s| ==> s[i].id != k
    ensures Count(s, k) == 0
  {
    if |s| > 0 {
      CountAbsent(s[1..], k);
    }
  }

  /** An identity at or above every issued one is not registered. */
  lemma {:induction false} CountFresh<Tag>(s: seq<Entry<Tag>>, k: nat)
    ensures IdsBelow(s, k) ==> Count(s, k) == 0
  {
    if IdsBelow(s, k) {
      CountAbsent(s, k);
    }
  }

  /** With unique identities, the identity of the entry at `i` occurs exactly once. */
  lemma CountUnique<Tag>(s: seq<Entry<Tag>>, i: nat)
    requires UniqueIds(s)
    requires i < |s|
    ensures Count(s, s[i].id) == 1
  {
    var k := s[i].id;
    assert s == s[..i] + [s[i]] + s[i + 1..];
    CountAppend(s[..i] + [s[i]], s[i + 1..], k);
    CountAppend(s[..i], [s[i]], k);
    CountAbsent(s[..i], k);
    CountAbsent(s[i + 1..], k);
  }

  // ----- Properties of remove_callback's filter -----

  /** Filtering distributes over concatenation: the relative order of kept entries is the original one. */
  lemma {:induction false} RetainAppend<Tag>(a: seq<Entry<Tag>>, b: seq<Entry<Tag>>, k: nat)
    ensures Retain(a + b, k) == Retain(a, k) + Retain(b, k)
  {
    if |a| == 0 {
      assert a + b == b;
    } else {
      assert (a + b)[1..] == a[1..] + b;
      RetainAppend(a[1..], b, k);
    }
  }

  /** The filter keeps exactly the entries whose identity differs from `k`. */
  lemma {:induction false} RetainMembers<Tag>(s: seq<Entry<Tag>>, k: nat)
    ensures forall i :: 0 <= i < |Retain(s, k)| ==> Retain(s, k)[i] in s && Retain(s, k)[i].id != k
    ensures forall i :: 0 <= i < |s| && s[i].id != k ==> s[i] in Retain(s, k)
  {
    if |s| > 0 {
      RetainMembers(s[1..], k);
      var r := Retain(s, k);
      forall i | 0 <= i < |s| && s[i].id != k
        ensures s[i] in r
      {
        if i > 0 {
          assert s[i] == s[1..][i - 1];
        }
      }
    }
  }

  /** Removing an identity that is not registered changes nothing. */
  lemma {:induction false} RetainAbsent<Tag>(s: seq<Entry<Tag>>, k: nat)
    requires Count(s, k) == 0
    ensures Retain(s, k) == s
  {
    if |s| > 0 {
      RetainAbsent(s[1..], k);
    }
  }

  /** Removing the same identity twice has the effect of removing it once. */
  lemma {:induction false} RetainIdempotent<Tag>(s: seq<Entry<Tag>>, k: nat)
    ensures Retain(Retain(s, k), k) == Retain(s, k)
  {
    RetainAbsent(Retain(s, k), k);
  }

  /** Filtering keeps identities unique. */
  lemma {:induction false} RetainUnique<Tag>(s: seq<Entry<Tag>>, k: nat)
    requires UniqueIds(s)
    ensures UniqueIds(Retain(s, k))
  {
    if |s| > 0 {
      var rest := Retain(s[1..], k);
      RetainUnique(s[1..], k);
      RetainMembers(s[1..], k);
      if s[0].id != k {
        forall j | 0 <= j < |rest|
          ensures s[0].id != rest[j].id
        {
          assert rest[j] in s[1..];
        }
      }
    }
  }

  /** Removing an identity keeps the registry invariant. */
  lemma RetainValid<Tag>(r: Registry<Tag>, k: nat)
    ensures Valid(r) ==> Valid(Registry(Retain(r.entries, k), r.nextId))
  {
    if Valid(r) {
      RetainUnique(r.entries, k);
      RetainMembers(r.entries, k);
    }
  }

  /**
   When identities are unique, removing the identity of the entry at `i`
   removes that one entry and nothing else.
   */
  lemma RetainRemovesOne<Tag>(s: seq<Entry<Tag>>, i: nat)
    requires UniqueIds(s)
    requires i < |s|
    ensures Retain(s, s[i].id) == s[..i] + s[i + 1..]
    ensures |Retain(s, s[i].id)| == |s| - 1
  {
    var k := s[i].id;
    var before, after := s[..i], s[i + 1..];
    assert s == before + ([s[i]] + after);
    CountAbsent(before, k);
    CountAbsent(after, k);
    RetainAbsent(before, k);
    RetainAbsent(after, k);
    RetainAppend([s[i]], after, k);
    RetainAppend(before, [s[i]] + after, k);
  }

  // ----- Properties of broadcast -----

  /** Each identity is invoked exactly as many times as it is registered. */
  lemma {:induction false} DeliverCounts<Tag, T>(s: seq<Entry<Tag>>, v: T, k: nat)
    ensures Received(Deliver(s, v), k) == Count(s, k)
  {
    if |s| > 0 {
      assert Deliver(s, v)[1..] == Deliver(s[1..], v);
      DeliverCounts(s[1..], v, k);
    }
  }

  /** `DeliverCounts` for every identity at once. */
  lemma {:induction false} DeliverCountsAll<Tag, T>(s: seq<Entry<Tag>>, v: T)
    ensures forall k :: Received(Deliver(s, v), k) == Count(s, k)
  {
    forall k
      ensures Received(Deliver(s, v), k) == Count(s, k)
    {
      DeliverCounts(s, v, k);
    }
  }

  /** With unique identities, every registered entry is invoked exactly once. */
  lemma DeliverExactlyOnce<Tag, T>(s: seq<Entry<Tag>>, v: T, i: nat)
    requires UniqueIds(s)
    requires i < |s|
    ensures Received(Deliver(s, v), s[i].id) == 1
  {
    DeliverCounts(s, v, s[i].id);
    CountUnique(s, i);
  }

  /** An appended entry is invoked after every earlier entry. */
  lemma {:induction false} DeliverAppend<Tag, T>(a: seq<Entry<Tag>>, b: seq<Entry<Tag>>, v: T)
    ensures Deliver(a + b, v) == Deliver(a, v) + Deliver(b, v)
  {
    if |a| == 0 {
      assert a + b == b;
    } else {
      assert (a + b)[1..] == a[1..] + b;
      DeliverAppend(a[1..], b, v);
    }
  }

  /**
   Broadcasting after a removal yields the earlier broadcast with the removed
   entry's invocations struck out: everyone else still receives, in the same order.
   */
  lemma {:induction false} DeliverRetain<Tag, T>(s: seq<Entry<Tag>>, k: nat, v: T)
    ensures Deliver(Retain(s, k), v) == Without(Deliver(s, v), k)
  {
    if |s| > 0 {
      assert Deliver(s, v)[1..] == Deliver(s[1..], v);
      DeliverRetain(s[1..], k, v);
      if s[0].id != k {
        DeliverAppend([s[0]], Retain(s[1..], k), v);
      }
    }
  }
}
