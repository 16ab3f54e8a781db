/**
 A cache that evicts the least recently used entry but reports a value as evicted only when it has left
 the cache and no client uses it any more. Values are reference counted; a client's handle can be
 finished any number of times and counts once.
 */
module LruCache {
  import opened Base

  /** A stored value, named by the order of insertion. */
  type Obj = nat
  type Handle = nat

  datatype Item<V> = Item(key: string, value: V)

  /** `recent` holds what is cached, most recently used first; `reported` the eviction callbacks so far. */
  datatype Cache<V> = Cache(
    max: int, recent: seq<Obj>, items: seq<Item<V>>, counts: seq<int>, finalized: set<Obj>,
    handles: seq<Obj>, done: set<Handle>, reported: seq<Obj>)

  function Empty<V>(max: int): Cache<V> {
    Cache(max, [], [], [], {}, [], {}, [])
  }

  // ------------------------------------------------------- counting

  /** One reference less; the last one reports the value. */
  function Dec<V>(c: Cache<V>, o: Obj): Cache<V>
    requires o < |c.counts|
  {
    var c1 := c.(counts := c.counts[o := c.counts[o] - 1]);
    if c1.counts[o] <= 0 then c1.(reported := c.reported + [o]) else c1
  }

  /** Gives up the cache's own reference, the first time only. */
  function Finalize<V>(c: Cache<V>, o: Obj): Cache<V>
    requires o < |c.counts|
  {
    if o in c.finalized then c else Dec(c.(finalized := c.finalized + {o}), o)
  }

  /** A client starts using a value. */
  function Acquire<V>(c: Cache<V>, o: Obj): Cache<V>
    requires o < |c.counts|
  {
    c.(counts := c.counts[o := c.counts[o] + 1], handles := c.handles + [o])
  }

  // ------------------------------------------------- the recency list

  predicate InItems<V>(c: Cache<V>) {
    |c.counts| == |c.items| && (forall k :: 0 <= k < |c.recent| ==> c.recent[k] < |c.items|)
    && (forall h :: 0 <= h < |c.handles| ==> c.handles[h] < |c.items|)
  }

  /** Position of a key in the recency list, or its length. */
  function Find<V>(items: seq<Item<V>>, recent: seq<Obj>, key: string): nat
    requires forall k :: 0 <= k < |recent| ==> recent[k] < |items|
  {
    if recent == [] || items[recent[0]].key == key then 0 else 1 + Find(items, recent[1..], key)
  }

  function ToFront(recent: seq<Obj>, k: nat): seq<Obj>
    requires k < |recent|
  {
    [recent[k]] + recent[..k] + recent[k + 1..]
  }

  /** Takes an entry out of the cache. */
  function Drop<V>(c: Cache<V>, k: nat): Cache<V>
    requires InItems(c) && k < |c.recent|
  {
    Finalize(c.(recent := c.recent[..k] + c.recent[k + 1..]), c.recent[k])
  }

  function Insert<V>(c: Cache<V>, item: Item<V>): Cache<V> {
    c.(recent := [|c.items|] + c.recent, items := c.items + [item], counts := c.counts + [1])
  }

  predicate Full<V>(c: Cache<V>) {
    c.max != 0 && |c.recent| > c.max
  }

  // ------------------------------------------------------ operations

  function GetEntry<V>(c: Cache<V>, key: string): Cache<V>
    requires InItems(c)
  {
    var k := Find(c.items, c.recent, key);
    if k >= |c.recent| then c else Acquire(c.(recent := ToFront(c.recent, k)), c.recent[k])
  }

  function AddEntry<V>(c: Cache<V>, key: string, value: V): Cache<V>
    requires InItems(c)
  {
    if Find(c.items, c.recent, key) < |c.recent| then GetEntry(c, key)
    else
      var c1 := Acquire(Insert(c, Item(key, value)), |c.items|);
      if Full(c1) then Drop(c1, |c1.recent| - 1) else c1
  }

  function RemoveEntry<V>(c: Cache<V>, key: string): Cache<V>
    requires InItems(c)
  {
    var k := Find(c.items, c.recent, key);
    if k >= |c.recent| then c else Drop(c, k)
  }

  /** Finishing a handle counts once. */
  function Finish<V>(c: Cache<V>, h: Handle): Cache<V>
    requires InItems(c)
  {
    if h >= |c.handles| || h in c.done then c else Dec(c.(done := c.done + {h}), c.handles[h])
  }

  // -------------------------------------------------------- the invariant

  /** The unfinished handles on a value. */
  function Held(handles: seq<Obj>, done: set<Handle>, o: Obj): set<Handle> {
    set h | 0 <= h < |handles| && handles[h] == o && h !in done
  }

  predicate NoDups(s: seq<Obj>) {
    forall a, b :: 0 <= a < b < |s| ==> s[a] != s[b]
  }

  predicate Listed<V>(c: Cache<V>) {
    && NoDups(c.recent)
    && (forall a, b :: 0 <= a < b < |c.recent| && c.recent[a] < |c.items| && c.recent[b] < |c.items| ==>
          c.items[c.recent[a]].key != c.items[c.recent[b]].key)
  }

  /** What one value's count says: one for the cache and one for each client. */
  predicate CountOk<V>(c: Cache<V>, o: Obj) {
    && o < |c.counts| && c.counts[o] == (if o in c.recent then 1 else 0) + |Held(c.handles, c.done, o)|
    && (o in c.finalized <==> o !in c.recent)
    && (o in c.reported <==> c.counts[o] == 0)
  }

  ghost predicate Inv<V>(c: Cache<V>) {
    && InItems(c) && Listed(c) && NoDups(c.reported)
    && (forall o: Obj {:trigger CountOk(c, o)} | o < |c.items| :: CountOk(c, o))
    && (forall k :: 0 <= k < |c.reported| ==> c.reported[k] < |c.items|)
    && (forall h | h in c.done :: h < |c.handles|)
    && (forall o | o in c.finalized :: o < |c.items|)
  }

  predicate Fits<V>(c: Cache<V>) {
    (c.max > 0 ==> |c.recent| <= c.max) && (c.max < 0 ==> c.recent == [])
  }

  // ------------------------------------------------------ step by step

  lemma {:induction false} HeldSnoc(handles: seq<Obj>, done: set<Handle>, n: Obj, o: Obj)
    requires forall h | h in done :: h < |handles|
    ensures Held(handles + [n], done, o) == Held(handles, done, o) + (if n == o then {|handles|} else {})
    ensures |Held(handles + [n], done, o)| == |Held(handles, done, o)| + (if n == o then 1 else 0)
  {
    var all := handles + [n];
    assert all[|handles|] == n && forall h :: 0 <= h < |handles| ==> all[h] == handles[h];
    assert Held(all, done, o) == Held(handles, done, o) + (if n == o then {|handles|} else {});
  }

  lemma {:induction false} AcquireKeepsInv<V>(c: Cache<V>, o: Obj)
    requires Inv(c) && o in c.recent
    ensures Inv(Acquire(c, o))
  {
    var c' := Acquire(c, o);
    assert CountOk(c, o);
    forall x: Obj | x < |c'.items| ensures CountOk(c', x) {
      assert CountOk(c, x);
      HeldSnoc(c.handles, c.done, o, x);
    }
  }

  lemma {:induction false} NobodyHolds(handles: seq<Obj>, done: set<Handle>, o: Obj)
    requires forall h :: 0 <= h < |handles| ==> handles[h] != o
    ensures Held(handles, done, o) == {}
  {
  }

  lemma {:induction false} FindFinds<V>(items: seq<Item<V>>, recent: seq<Obj>, key: string)
    requires forall k :: 0 <= k < |recent| ==> recent[k] < |items|
    ensures var k := Find(items, recent, key);
            && k <= |recent| && (k < |recent| ==> items[recent[k]].key == key)
            && (k == |recent| ==> forall a :: 0 <= a < |recent| ==> items[recent[a]].key != key)
  {
    if recent != [] { FindFinds(items, recent[1..], key); }
  }

  lemma {:induction false} InsertKeepsInv<V>(c: Cache<V>, item: Item<V>)
    requires Inv(c) && forall a :: 0 <= a < |c.recent| ==> c.items[c.recent[a]].key != item.key
    ensures Inv(Insert(c, item)) && |c.items| in Insert(c, item).recent
  {
    var c' := Insert(c, item);
    var n := |c.items|;
    assert c'.recent[0] == n;
    assert c.finalized == c'.finalized;
    NobodyHolds(c.handles, c.done, n);
    forall o: Obj | o < |c'.items| ensures CountOk(c', o) {
      if o < n { assert CountOk(c, o); }
      assert o in c'.recent <==> o == n || o in c.recent;
    }
  }

  lemma {:induction false} ToFrontSame(recent: seq<Obj>, k: nat)
    requires k < |recent| && NoDups(recent)
    ensures NoDups(ToFront(recent, k)) && |ToFront(recent, k)| == |recent|
    ensures forall o :: o in ToFront(recent, k) <==> o in recent
  {
    var front := ToFront(recent, k);
    forall a | 0 <= a < |front| ensures front[a] == recent[if a == 0 then k else if a <= k then a - 1 else a] { }
    forall o | o in recent ensures o in front {
      var a :| 0 <= a < |recent| && recent[a] == o;
      assert front[if a == k then 0 else if a < k then a + 1 else a] == o;
    }
  }

  lemma {:induction false} TouchKeepsInv<V>(c: Cache<V>, k: nat)
    requires Inv(c) && k < |c.recent|
    ensures Inv(c.(recent := ToFront(c.recent, k)))
  {
    var c' := c.(recent := ToFront(c.recent, k));
    ToFrontSame(c.recent, k);
    forall a | 0 <= a < |c'.recent|
      ensures c'.recent[a] == c.recent[if a == 0 then k else if a <= k then a - 1 else a] { }
    forall o: Obj | o < |c'.items| ensures CountOk(c', o) { assert CountOk(c, o); }
  }

  lemma {:induction false} WithoutKth(recent: seq<Obj>, k: nat)
    requires k < |recent| && NoDups(recent)
    ensures var left := recent[..k] + recent[k + 1..];
            NoDups(left) && forall o :: o in left <==> o in recent && o != recent[k]
  {
    var left := recent[..k] + recent[k + 1..];
    forall a | 0 <= a < |left| ensures left[a] == recent[if a < k then a else a + 1] { }
    forall o | o in recent && o != recent[k] ensures o in left {
      var a :| 0 <= a < |recent| && recent[a] == o;
      assert left[if a < k then a else a - 1] == o;
    }
  }

  lemma {:induction false} DropKeepsInv<V>(c: Cache<V>, k: nat)
    requires Inv(c) && k < |c.recent|
    ensures Inv(Drop(c, k)) && |Drop(c, k).recent| == |c.recent| - 1
  {
    var o := c.recent[k];
    var left := c.recent[..k] + c.recent[k + 1..];
    WithoutKth(c.recent, k);
    assert CountOk(c, o);
    assert o in c.recent;
    var c' := Drop(c, k);
    forall a | 0 <= a < |left| ensures left[a] == c.recent[if a < k then a else a + 1] { }
    forall x: Obj | x < |c'.items| ensures CountOk(c', x) { assert CountOk(c, x); }
  }

  lemma {:induction false} HeldFinish(handles: seq<Obj>, done: set<Handle>, h: Handle, o: Obj)
    requires h < |handles| && h !in done
    ensures |Held(handles, done + {h}, o)| == |Held(handles, done, o)| - (if handles[h] == o then 1 else 0)
  {
    assert Held(handles, done + {h}, o) == Held(handles, done, o) - {h};
  }

  lemma {:induction false} FinishKeepsInv<V>(c: Cache<V>, h: Handle)
    requires Inv(c)
    ensures Inv(Finish(c, h))
  {
    if h < |c.handles| && h !in c.done {
      var c' := Finish(c, h);
      var o := c.handles[h];
      assert CountOk(c, o);
      assert h in Held(c.handles, c.done, o);
      forall x: Obj | x < |c'.items| ensures CountOk(c', x) {
        assert CountOk(c, x);
        HeldFinish(c.handles, c.done, h, x);
      }
    }
  }

  // ------------------------------------------------------- whole runs

  datatype Event<V> = Get(key: string) | Add(key: string, value: V) | Remove(key: string) | Done(h: Handle)

  function Step<V>(c: Cache<V>, e: Event<V>): Cache<V>
    requires InItems(c)
  {
    match e
    case Get(key) => GetEntry(c, key)
    case Add(key, value) => AddEntry(c, key, value)
    case Remove(key) => RemoveEntry(c, key)
    case Done(h) => Finish(c, h)
  }

  lemma {:induction false} GetKeepsInv<V>(c: Cache<V>, key: string)
    requires Inv(c)
    ensures Inv(GetEntry(c, key)) && |GetEntry(c, key).recent| == |c.recent|
  {
    var k := Find(c.items, c.recent, key);
    if k < |c.recent| {
      TouchKeepsInv(c, k);
      ToFrontSame(c.recent, k);
      AcquireKeepsInv(c.(recent := ToFront(c.recent, k)), c.recent[k]);
    }
  }

  lemma {:induction false} NewEntryKeepsInv<V>(c: Cache<V>, key: string, value: V)
    requires Inv(c) && Find(c.items, c.recent, key) >= |c.recent|
    ensures var c1 := Acquire(Insert(c, Item(key, value)), |c.items|); Inv(c1) && |c1.recent| == |c.recent| + 1
  {
    FindFinds(c.items, c.recent, key);
    InsertKeepsInv(c, Item(key, value));
    AcquireKeepsInv(Insert(c, Item(key, value)), |c.items|);
  }

  lemma {:induction false} AddKeepsInv<V>(c: Cache<V>, key: string, value: V)
    requires Inv(c) && Fits(c)
    ensures Inv(AddEntry(c, key, value)) && Fits(AddEntry(c, key, value))
  {
    if Find(c.items, c.recent, key) < |c.recent| {
      GetKeepsInv(c, key);
    } else {
      NewEntryKeepsInv(c, key, value);
      var c1 := Acquire(Insert(c, Item(key, value)), |c.items|);
      if Full(c1) { DropKeepsInv(c1, |c1.recent| - 1); }
    }
  }

  lemma {:induction false} RemoveKeepsInv<V>(c: Cache<V>, key: string)
    requires Inv(c) && Fits(c)
    ensures Inv(RemoveEntry(c, key)) && Fits(RemoveEntry(c, key))
  {
    var k := Find(c.items, c.recent, key);
    if k < |c.recent| { DropKeepsInv(c, k); }
  }

  lemma {:induction false} SameMax<V>(c: Cache<V>, e: Event<V>)
    requires InItems(c)
    ensures Step(c, e).max == c.max
  {
  }

  lemma {:induction false} StepKeepsInv<V>(c: Cache<V>, e: Event<V>)
    requires Inv(c) && Fits(c)
    ensures Inv(Step(c, e)) && Fits(Step(c, e)) && Step(c, e).max == c.max
  {
    SameMax(c, e);
    match e
    case Get(key) => GetKeepsInv(c, key);
    case Add(key, value) => AddKeepsInv(c, key, value);
    case Remove(key) => RemoveKeepsInv(c, key);
    case Done(h) => FinishKeepsInv(c, h);
  }

  /** Every cache that some sequence of calls leads to. */
  ghost function Run<V>(max: int, es: seq<Event<V>>): (c: Cache<V>)
    ensures Inv(c) && Fits(c) && c.max == max
  {
    if es == [] then Empty(max)
    else
      var before := Run(max, es[..|es| - 1]);
      StepKeepsInv(before, es[|es| - 1]);
      Step(before, es[|es| - 1])
  }

  function Times(s: seq<Obj>, o: Obj): nat {
    if s == [] then 0 else Times(s[..|s| - 1], o) + (if s[|s| - 1] == o then 1 else 0)
  }

  lemma {:induction false} TimesNoDups(s: seq<Obj>, o: Obj)
    requires NoDups(s)
    ensures Times(s, o) == if o in s then 1 else 0
  {
    if s != [] {
      TimesNoDups(s[..|s| - 1], o);
      assert s == s[..|s| - 1] + [s[|s| - 1]];
    }
  }

  /** A value's count is one for the cache and one for every unfinished handle. */
  lemma {:induction false} CountIsCachePlusHandles<V>(max: int, es: seq<Event<V>>, o: Obj)
    requires o < |Run(max, es).items|
    ensures var c := Run(max, es);
            o < |c.counts| && c.counts[o] == (if o in c.recent then 1 else 0) + |Held(c.handles, c.done, o)|
  {
    assert CountOk(Run(max, es), o);
  }

  /** Some call finished the handle, after it had been given out. */
  ghost predicate Finished<V>(max: int, es: seq<Event<V>>, h: Handle) {
    exists n: nat :: FinishedAt(max, es, h, n)
  }

  ghost predicate FinishedAt<V>(max: int, es: seq<Event<V>>, h: Handle, n: nat) {
    n < |es| && es[n] == Done(h) && h < |Run(max, es[..n]).handles|
  }

  /** Calls change the finished handles and those given out only as they say. */
  lemma {:induction false} DoneAndHandles<V>(c: Cache<V>, e: Event<V>)
    requires InItems(c)
    ensures Step(c, e).done == if e.Done? && e.h < |c.handles| then c.done + {e.h} else c.done
    ensures c.handles <= Step(c, e).handles
  {
  }

  lemma {:induction false} FinishedSnoc<V>(max: int, es: seq<Event<V>>, e: Event<V>, h: Handle)
    ensures Finished(max, es + [e], h) <==> Finished(max, es, h) || (e == Done(h) && h < |Run(max, es).handles|)
  {
    var all := es + [e];
    assert all[..|es|] == es;
    forall n: nat | n < |es| ensures FinishedAt(max, all, h, n) <==> FinishedAt(max, es, h, n) {
      assert all[..n] == es[..n];
    }
    if e == Done(h) && h < |Run(max, es).handles| { assert FinishedAt(max, all, h, |es|); }
    if n: nat :| FinishedAt(max, all, h, n) { assert n == |es| || FinishedAt(max, es, h, n); }
    if n: nat :| FinishedAt(max, es, h, n) { assert FinishedAt(max, all, h, n); }
  }

  /** A handle counts as finished exactly when a call finished it after it had been given out. */
  lemma {:induction false} DoneIffFinished<V>(max: int, es: seq<Event<V>>, h: Handle)
    ensures h in Run(max, es).done <==> Finished(max, es, h)
  {
    if es != [] {
      var front, e := es[..|es| - 1], es[|es| - 1];
      DoneIffFinished(max, front, h);
      DoneAndHandles(Run(max, front), e);
      FinishedSnoc(max, front, e, h);
      assert es == front + [e];
    }
  }

  /** A value is reported once, exactly when it has left the cache and a call has finished every handle on it. */
  lemma {:induction false} ReportedOnceWhenUnused<V>(max: int, es: seq<Event<V>>, o: Obj)
    requires o < |Run(max, es).items|
    ensures var c := Run(max, es);
            Times(c.reported, o) ==
              if o !in c.recent && (forall h: nat :: h < |c.handles| && c.handles[h] == o ==> Finished(max, es, h))
              then 1 else 0
  {
    var c := Run(max, es);
    assert CountOk(c, o);
    TimesNoDups(c.reported, o);
    forall h: nat | h < |c.handles| && c.handles[h] == o
      ensures Finished(max, es, h) <==> h !in Held(c.handles, c.done, o)
    {
      DoneIffFinished(max, es, h);
    }
  }

  // -------------------------------------------------- what calls leave

  ghost predicate IsCached<V>(c: Cache<V>, key: string)
    requires InItems(c)
  {
    exists k :: 0 <= k < |c.recent| && c.items[c.recent[k]].key == key
  }

  lemma {:induction false} FoundIffCached<V>(c: Cache<V>, key: string)
    requires InItems(c)
    ensures Find(c.items, c.recent, key) < |c.recent| <==> IsCached(c, key)
  {
    FindFinds(c.items, c.recent, key);
  }

  /** Get and Done leave the same entries in the cache; Remove takes out those with the key. */
  lemma {:induction false} CallsKeepCached<V>(c: Cache<V>, e: Event<V>, o: Obj)
    requires Inv(c) && !e.Add?
    ensures Step(c, e).items == c.items
    ensures o in Step(c, e).recent <==> o in c.recent && (e.Remove? ==> o < |c.items| && c.items[o].key != e.key)
  {
    if !e.Done? {
      FindFinds(c.items, c.recent, e.key);
      var k := Find(c.items, c.recent, e.key);
      if k < |c.recent| && e.Get? {
        ToFrontSame(c.recent, k);
      } else if k < |c.recent| {
        WithoutKth(c.recent, k);
      }
    }
  }

  /** Add leaves a cached key as it is. Otherwise it stores the value in front and everything else stays,
      unless the cache is full: then one entry goes; a cache with a negative bound keeps nothing. */
  lemma {:induction false} AddKeepsCached<V>(c: Cache<V>, key: string, value: V, o: Obj)
    requires Inv(c) && Fits(c)
    ensures var c', n := AddEntry(c, key, value), |c.items|;
            if IsCached(c, key) then c'.items == c.items && (o in c'.recent <==> o in c.recent)
            else && c'.items == c.items + [Item(key, value)]
                 && (o in c'.recent ==> o in c.recent || o == n)
                 && (c.max == 0 || |c.recent| < c.max ==> (o in c'.recent <==> o in c.recent || o == n))
                 && (0 < c.max == |c.recent| ==> |c'.recent| == c.max && n in c'.recent)
  {
    FoundIffCached(c, key);
    if IsCached(c, key) {
      CallsKeepCached(c, Get(key), o);
    } else {
      AddedLists(c, key, value);
      var all := [|c.items|] + c.recent;
      assert c.recent != [] ==> all[..|all| - 1][0] == |c.items|;
    }
  }

  /** One new handle was given out, on an entry with the key: one cached before, or else the next one made. */
  ghost predicate OneHandleMore<V>(c: Cache<V>, c': Cache<V>, key: string)
    requires InItems(c)
  {
    var n := |c.handles|;
    && |c'.handles| == n + 1 && c'.handles[..n] == c.handles
    && c'.handles[n] < |c'.items| && c'.items[c'.handles[n]].key == key
    && (if IsCached(c, key) then c'.handles[n] in c.recent else c'.handles[n] == |c.items|)
  }

  lemma {:induction false} GetGivesHandle<V>(c: Cache<V>, key: string)
    requires InItems(c)
    ensures if IsCached(c, key) then OneHandleMore(c, GetEntry(c, key), key)
            else GetEntry(c, key).handles == c.handles
  {
    FoundIffCached(c, key);
    FindFinds(c.items, c.recent, key);
  }

  lemma {:induction false} AddedHandle<V>(c: Cache<V>, key: string, value: V)
    requires InItems(c) && Find(c.items, c.recent, key) >= |c.recent|
    ensures AddEntry(c, key, value).handles == c.handles + [|c.items|]
  {
  }

  /** Get of a cached key and every Add give out one new handle; no other call does. */
  lemma {:induction false} HandlesGiven<V>(c: Cache<V>, e: Event<V>)
    requires Inv(c)
    ensures if e.Add? || (e.Get? && IsCached(c, e.key)) then OneHandleMore(c, Step(c, e), e.key)
            else Step(c, e).handles == c.handles
  {
    if e.Get? || e.Add? {
      FoundIffCached(c, e.key);
      GetGivesHandle(c, e.key);
      if e.Add? && !IsCached(c, e.key) {
        AddedHandle(c, e.key, e.value);
        AddedLists(c, e.key, e.value);
      }
    }
  }

  /** A positive bound is kept, and no key is cached twice. */
  lemma {:induction false} StaysWithinBound<V>(max: int, es: seq<Event<V>>)
    ensures var c := Run(max, es);
            && (max > 0 ==> |c.recent| <= max) && (max < 0 ==> c.recent == [])
            && (forall a, b :: 0 <= a < b < |c.recent| ==> c.items[c.recent[a]].key != c.items[c.recent[b]].key)
  {
  }

  // ----------------------------------------------------- least recent use

  /** When a key was last got or added, counting calls from one. */
  function LastUse<V>(es: seq<Event<V>>, key: string): (n: nat)
    ensures n <= |es|
  {
    if es == [] then 0
    else
      var e := es[|es| - 1];
      if (e.Get? || e.Add?) && e.key == key then |es| else LastUse(es[..|es| - 1], key)
  }

  function Use<V>(es: seq<Event<V>>): string -> nat {
    key => LastUse(es, key)
  }

  /** Later entries of the list were used earlier. */
  predicate ByUse<V>(items: seq<Item<V>>, recent: seq<Obj>, use: string -> nat) {
    && (forall k :: 0 <= k < |recent| ==> recent[k] < |items|)
    && (forall a, b :: 0 <= a < b < |recent| ==> use(items[recent[a]].key) > use(items[recent[b]].key))
  }

  lemma {:induction false} ByUseWithout<V>(items: seq<Item<V>>, recent: seq<Obj>, use: string -> nat, k: nat)
    requires ByUse(items, recent, use) && k < |recent|
    ensures ByUse(items, recent[..k] + recent[k + 1..], use)
  {
    var left := recent[..k] + recent[k + 1..];
    forall a | 0 <= a < |left| ensures left[a] == recent[if a < k then a else a + 1] { }
  }

  lemma {:induction false} ByUseInFront<V>(items: seq<Item<V>>, recent: seq<Obj>, use: string -> nat, o: Obj)
    requires ByUse(items, recent, use) && o < |items|
    requires forall k :: 0 <= k < |recent| ==> use(items[o].key) > use(items[recent[k]].key)
    ensures ByUse(items, [o] + recent, use)
  {
  }

  /** Entries other than the one called for keep their last use. */
  lemma {:induction false} OthersKeepUse<V>(items: seq<Item<V>>, recent: seq<Obj>, es: seq<Event<V>>, e: Event<V>)
    requires ByUse(items, recent, Use(es))
    requires (e.Get? || e.Add?) ==> forall k :: 0 <= k < |recent| ==> items[recent[k]].key != e.key
    ensures ByUse(items, recent, Use(es + [e]))
    ensures forall k :: 0 <= k < |recent| ==> Use(es + [e])(items[recent[k]].key) <= |es|
  {
    assert (es + [e])[..|es|] == es;
    forall k | 0 <= k < |recent|
      ensures Use(es + [e])(items[recent[k]].key) == Use(es)(items[recent[k]].key) <= |es| { }
  }

  lemma {:induction false} ToFrontByUse<V>(items: seq<Item<V>>, recent: seq<Obj>, es: seq<Event<V>>, e: Event<V>,
        k: nat)
    requires ByUse(items, recent, Use(es)) && (e.Get? || e.Add?) && k < |recent| && items[recent[k]].key == e.key
    requires forall a :: 0 <= a < |recent| && a != k ==> items[recent[a]].key != e.key
    ensures ByUse(items, ToFront(recent, k), Use(es + [e]))
  {
    var rest := recent[..k] + recent[k + 1..];
    forall a | 0 <= a < |rest| ensures rest[a] == recent[if a < k then a else a + 1] { }
    ByUseWithout(items, recent, Use(es), k);
    OthersKeepUse(items, rest, es, e);
    ByUseInFront(items, rest, Use(es + [e]), recent[k]);
    assert ToFront(recent, k) == [recent[k]] + rest;
  }

  lemma {:induction false} NewByUse<V>(items: seq<Item<V>>, recent: seq<Obj>, es: seq<Event<V>>, e: Event<V>)
    requires ByUse(items, recent, Use(es)) && e.Add? && forall k :: 0 <= k < |recent| ==> items[recent[k]].key != e.key
    ensures ByUse(items + [Item(e.key, e.value)], [|items|] + recent, Use(es + [e]))
  {
    OthersKeepUse(items, recent, es, e);
    var more := items + [Item(e.key, e.value)];
    assert forall k :: 0 <= k < |recent| ==> more[recent[k]] == items[recent[k]];
    ByUseInFront(more, recent, Use(es + [e]), |items|);
  }

  lemma {:induction false} GetKeepsByUse<V>(c: Cache<V>, es: seq<Event<V>>, e: Event<V>)
    requires InItems(c) && Listed(c) && ByUse(c.items, c.recent, Use(es)) && (e.Get? || e.Add?)
    ensures ByUse(c.items, GetEntry(c, e.key).recent, Use(es + [e]))
  {
    FindFinds(c.items, c.recent, e.key);
    var k := Find(c.items, c.recent, e.key);
    if k >= |c.recent| {
      OthersKeepUse(c.items, c.recent, es, e);
    } else {
      ToFrontByUse(c.items, c.recent, es, e, k);
    }
  }

  lemma {:induction false} AddKeepsByUse<V>(c: Cache<V>, es: seq<Event<V>>, e: Event<V>)
    requires InItems(c) && ByUse(c.items, c.recent, Use(es)) && e.Add? && Find(c.items, c.recent, e.key) >= |c.recent|
    ensures ByUse(AddEntry(c, e.key, e.value).items, AddEntry(c, e.key, e.value).recent, Use(es + [e]))
  {
    FindFinds(c.items, c.recent, e.key);
    NewByUse(c.items, c.recent, es, e);
    var all := [|c.items|] + c.recent;
    ByUseWithout(c.items + [Item(e.key, e.value)], all, Use(es + [e]), |all| - 1);
    AddedLists(c, e.key, e.value);
  }

  /** What an Add of a new key leaves in the lists. */
  lemma {:induction false} AddedLists<V>(c: Cache<V>, key: string, value: V)
    requires InItems(c) && Find(c.items, c.recent, key) >= |c.recent|
    ensures var c' := AddEntry(c, key, value);
            var all := [|c.items|] + c.recent;
            && c'.items == c.items + [Item(key, value)]
            && c'.recent == if c.max != 0 && |all| > c.max then all[..|all| - 1] + all[|all| - 1 + 1..] else all
  {
  }

  /** What Remove and Done leave in the lists. */
  lemma {:induction false} DroppedLists<V>(c: Cache<V>, e: Event<V>)
    requires InItems(c) && (e.Remove? || e.Done?)
    ensures Step(c, e).items == c.items
    ensures var k := if e.Remove? then Find(c.items, c.recent, e.key) else |c.recent|;
            Step(c, e).recent == if k < |c.recent| then c.recent[..k] + c.recent[k + 1..] else c.recent
  {
  }

  lemma {:induction false} WithoutByUse<V>(items: seq<Item<V>>, recent: seq<Obj>, es: seq<Event<V>>, e: Event<V>,
        k: nat)
    requires ByUse(items, recent, Use(es)) && (e.Remove? || e.Done?)
    ensures ByUse(items, if k < |recent| then recent[..k] + recent[k + 1..] else recent, Use(es + [e]))
  {
    OthersKeepUse(items, recent, es, e);
    if k < |recent| { ByUseWithout(items, recent, Use(es + [e]), k); }
  }

  lemma {:induction false} DropKeepsByUse<V>(c: Cache<V>, es: seq<Event<V>>, e: Event<V>)
    requires InItems(c) && ByUse(c.items, c.recent, Use(es)) && (e.Remove? || e.Done?)
    ensures ByUse(Step(c, e).items, Step(c, e).recent, Use(es + [e]))
  {
    DroppedLists(c, e);
    WithoutByUse(c.items, c.recent, es, e, if e.Remove? then Find(c.items, c.recent, e.key) else |c.recent|);
  }

  /** In every run the list is in the order of last use, so what a full cache gives up was used
      longest ago. */
  lemma {:induction false} ListIsInOrderOfUse<V>(max: int, es: seq<Event<V>>)
    ensures var c := Run(max, es); ByUse(c.items, c.recent, Use(es))
  {
    if es != [] {
      var front, e := es[..|es| - 1], es[|es| - 1];
      assert es == front + [e];
      ListIsInOrderOfUse(max, front);
      var c := Run(max, front);
      if e.Get? {
        GetKeepsByUse(c, front, e);
      } else if e.Add? && Find(c.items, c.recent, e.key) < |c.recent| {
        GetKeepsByUse(c, front, e);
      } else if e.Add? {
        AddKeepsByUse(c, front, e);
      } else {
        DropKeepsByUse(c, front, e);
      }
    }
  }

  /** In every run an entry that an Add pushes out was used longest ago: every entry that stays, the new one
      included, was used later, and the cache is full. */
  lemma {:induction false} AddEvictsLeastRecentlyUsed<V>(max: int, es: seq<Event<V>>, e: Event<V>, gone: Obj,
        stays: Obj)
    requires e.Add? && gone in Run(max, es).recent && gone !in Run(max, es + [e]).recent
    requires stays in Run(max, es + [e]).recent
    ensures var items := Run(max, es + [e]).items;
            && gone < |items| && stays < |items| && |Run(max, es + [e]).recent| == max
            && LastUse(es + [e], items[gone].key) < LastUse(es + [e], items[stays].key)
  {
    assert (es + [e])[..|es|] == es;
    var c := Run(max, es);
    assert Run(max, es + [e]) == AddEntry(c, e.key, e.value);
    FindFinds(c.items, c.recent, e.key);
    var k := Find(c.items, c.recent, e.key);
    if k < |c.recent| {
      assert gone in ToFront(c.recent, k) by { StaysInFront(c.recent, k, gone); }
      assert false;
    } else {
      ListIsInOrderOfUse(max, es);
      NewByUse(c.items, c.recent, es, e);
      AddedLists(c, e.key, e.value);
      PushedOut([|c.items|] + c.recent, gone, stays);
      StaysWithinBound(max, es);
    }
  }

  lemma {:induction false} StaysInFront(recent: seq<Obj>, k: nat, o: Obj)
    requires k < |recent| && o in recent
    ensures o in ToFront(recent, k)
  {
    var a :| 0 <= a < |recent| && recent[a] == o;
    assert ToFront(recent, k)[if a == k then 0 else if a < k then a + 1 else a] == o;
  }

  /** What leaves with the last place of a list was at that place, and everything else before it. */
  lemma {:induction false} PushedOut(all: seq<Obj>, gone: Obj, stays: Obj)
    requires all != [] && gone in all && gone !in all[..|all| - 1] && stays in all[..|all| - 1]
    ensures all[|all| - 1] == gone && exists a :: 0 <= a < |all| - 1 && all[a] == stays
  {
    assert all == all[..|all| - 1] + [all[|all| - 1]];
  }

  // ------------------------------------------------------------ the class

  class LRU<V> {
    const max: int
    var recent: seq<Obj>
    var items: seq<Item<V>>
    var counts: seq<int>
    var finalized: set<Obj>
    var handles: seq<Obj>
    var done: set<Handle>
    var reported: seq<Obj>

    function Contents(): Cache<V>
      reads this
    {
      Cache(max, recent, items, counts, finalized, handles, done, reported)
    }

    constructor (maxEntries: int)
      ensures Contents() == Empty(maxEntries)
    {
      max := maxEntries;
      recent, items, counts, finalized, handles, done, reported := [], [], [], {}, [], {}, [];
    }

    method DecRef(o: Obj)
      requires o < |counts|
      modifies this`counts, this`reported
      ensures Contents() == Dec(old(Contents()), o)
    {
      counts := counts[o := counts[o] - 1];
      if counts[o] <= 0 {
        reported := reported + [o];
      }
    }

    /** What the inner cache does when an entry leaves it. */
    method RemoveAt(k: nat)
      requires InItems(Contents()) && k < |recent|
      modifies this
      ensures Contents() == Drop(old(Contents()), k)
    {
      var o := recent[k];
      recent := recent[..k] + recent[k + 1..];
      if o !in finalized {
        finalized := finalized + {o};
        DecRef(o);
      }
    }

    method Get(key: string) returns (found: Option<Handle>)
      requires InItems(Contents())
      modifies this
      ensures Contents() == GetEntry(old(Contents()), key)
      ensures found.Some? <==> Find(old(items), old(recent), key) < |old(recent)|
      ensures found.Some? ==> found.value == |old(handles)| < |handles|
      ensures found.Some? ==> handles[found.value] < |items| && items[handles[found.value]].key == key
      ensures items == old(items) && (found.Some? ==> handles[found.value] in old(recent))
    {
      FindFinds(items, recent, key);
      var k := Find(items, recent, key);
      if k >= |recent| {
        return None;
      }
      var o := recent[k];
      recent := [o] + recent[..k] + recent[k + 1..];
      counts := counts[o := counts[o] + 1];
      handles := handles + [o];
      return Some(|handles| - 1);
    }

    method Add(key: string, value: V) returns (h: Handle, added: bool)
      requires InItems(Contents())
      modifies this
      ensures Contents() == AddEntry(old(Contents()), key, value)
      ensures added <==> Find(old(items), old(recent), key) == |old(recent)|
      ensures h == |old(handles)| < |handles| && handles[h] < |items| && items[handles[h]].key == key
      ensures if added then items == old(items) + [Item(key, value)] && handles[h] == |old(items)|
              else items == old(items) && handles[h] in old(recent)
    {
      FindFinds(items, recent, key);
      var cached := Get(key);
      if cached.Some? {
        return cached.value, false;
      }
      Store(Item(key, value));
      Trim();
      return |handles| - 1, true;
    }

    /** Gives up the last entry of a list that is too long. */
    method Trim()
      requires InItems(Contents()) && recent != []
      modifies this
      ensures Contents() == var c := old(Contents()); if Full(c) then Drop(c, |c.recent| - 1) else c
      ensures handles == old(handles) && items == old(items)
    {
      if max != 0 && |recent| > max {
        RemoveAt(|recent| - 1);
      }
    }

    /** A new value, with one reference of the cache and one of the client. */
    method Store(item: Item<V>)
      requires InItems(Contents())
      modifies this
      ensures Contents() == Acquire(Insert(old(Contents()), item), |old(items)|)
      ensures InItems(Contents()) && recent != [] && handles != []
    {
      var o := |items|;
      items := items + [item];
      counts := counts + [1];
      counts := counts[o := counts[o] + 1];
      recent := [o] + recent;
      handles := handles + [o];
    }

    method Remove(key: string)
      requires InItems(Contents())
      modifies this
      ensures Contents() == RemoveEntry(old(Contents()), key)
    {
      FindFinds(items, recent, key);
      var k := Find(items, recent, key);
      if k < |recent| {
        RemoveAt(k);
      }
    }

    /** The callback a client got; calling it again does nothing. */
    method DoneWith(h: Handle)
      requires InItems(Contents()) && h < |handles|
      modifies this`counts, this`reported, this`done
      ensures Contents() == Finish(old(Contents()), h)
      ensures done == old(done) + {h}
      ensures h in old(done) ==> counts == old(counts) && reported == old(reported)
    {
      if h !in done {
        done := done + {h};
        DecRef(handles[h]);
      }
    }
  }
}
