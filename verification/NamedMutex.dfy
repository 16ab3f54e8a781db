/**
 A mutex per name: mutex objects are created when a name is first used and deleted when its last user
 leaves. A thread passes through a short section under the table's own lock and only then locks or
 unlocks the mutex object it found there, so threads of several generations of objects can interleave.
 */
module NamedMutex {
  import opened Base

  type Mutex = nat
  type Thread = nat

  /** The table: the mutex of each name, how many refer to it, and the next fresh mutex object. */
  datatype Table = Table(mutexes: map<string, Mutex>, refs: map<string, int>, next: Mutex)

  /** The section of Lock under the table's lock. */
  function Refer(t: Table, name: string): (Table, Mutex) {
    var t1 := if name in t.mutexes then t else t.(mutexes := t.mutexes[name := t.next], next := t.next + 1);
    var count := if name in t1.refs then t1.refs[name] else 0;
    (t1.(refs := t1.refs[name := count + 1]), t1.mutexes[name])
  }

  /** The section of Unlock under the table's lock. */
  function Unrefer(t: Table, name: string): (Table, Option<Mutex>) {
    var mu := if name in t.mutexes then Some(t.mutexes[name]) else None;
    var count := (if name in t.refs then t.refs[name] else 0) - 1;
    if count <= 0 then (t.(mutexes := t.mutexes - {name}, refs := t.refs - {name}), mu)
    else (t.(refs := t.refs[name := count]), mu)
  }

  class Locks {
    var mutexes: map<string, Mutex>
    var refs: map<string, int>
    var next: Mutex

    function Contents(): Table
      reads this
    {
      Table(mutexes, refs, next)
    }

    constructor ()
      ensures Contents() == Table(map[], map[], 0)
    {
      mutexes, refs, next := map[], map[], 0;
    }

    /** Finds or makes the mutex of a name and counts the caller. */
    method StartLock(name: string) returns (mu: Mutex)
      modifies this
      ensures (Contents(), mu) == Refer(old(Contents()), name)
    {
      if name !in mutexes {
        mutexes := mutexes[name := next];
        next := next + 1;
      }
      mu := mutexes[name];
      refs := refs[name := (if name in refs then refs[name] else 0) + 1];
    }

    /** Finds the mutex of a name and uncounts the caller; the last one deletes it. */
    method StartUnlock(name: string) returns (mu: Option<Mutex>)
      modifies this`mutexes, this`refs
      ensures (Contents(), mu) == Unrefer(old(Contents()), name)
    {
      mu := if name in mutexes then Some(mutexes[name]) else None;
      refs := refs[name := (if name in refs then refs[name] else 0) - 1];
      if refs[name] <= 0 {
        mutexes := mutexes - {name};
        refs := refs - {name};
        assert refs == old(refs) - {name};
      }
    }
  }

  // ---------------------------------------------------------- the machine

  datatype Where =
    | Waiting(name: string, mu: Mutex)
    | Holding(name: string, mu: Mutex)
    | Leaving(left: Option<Mutex>)

  /** `locked` are the mutex objects somebody has locked; threads without an entry are elsewhere. */
  datatype State = State(table: Table, locked: set<Mutex>, at: map<Thread, Where>)

  const INIT := State(Table(map[], map[], 0), {}, map[])

  datatype Event = Lock(t: Thread, name: string) | Acquire(t: Thread) | Unlock(t: Thread) | Release(t: Thread)

  predicate Enabled(s: State, e: Event) {
    match e
    case Lock(t, _) => t !in s.at
    case Acquire(t) => t in s.at && s.at[t].Waiting? && s.at[t].mu !in s.locked
    case Unlock(t) => t in s.at && s.at[t].Holding?
    case Release(t) => t in s.at && s.at[t].Leaving?
  }

  function Step(s: State, e: Event): State {
    if !Enabled(s, e) then s
    else
      match e
      case Lock(t, name) =>
        var (table, mu) := Refer(s.table, name);
        s.(table := table, at := s.at[t := Waiting(name, mu)])
      case Acquire(t) =>
        s.(locked := s.locked + {s.at[t].mu}, at := s.at[t := Holding(s.at[t].name, s.at[t].mu)])
      case Unlock(t) =>
        var (table, mu) := Unrefer(s.table, s.at[t].name);
        s.(table := table, at := s.at[t := Leaving(mu)])
      case Release(t) =>
        s.(locked := if s.at[t].left.Some? then s.locked - {s.at[t].left.value} else s.locked, at := s.at - {t})
  }

  function Run(s: State, es: seq<Event>): State {
    if es == [] then s else Step(Run(s, es[..|es| - 1]), es[|es| - 1])
  }

  // -------------------------------------------------------- the invariant

  predicate Uses(w: Where, name: string) {
    !w.Leaving? && w.name == name
  }

  /** The threads that wait for or hold a name. */
  function Users(at: map<Thread, Where>, name: string): set<Thread> {
    set t | t in at && Uses(at[t], name)
  }

  predicate Owns(w: Where, mu: Mutex) {
    (w.Holding? && w.mu == mu) || (w.Leaving? && w.left == Some(mu))
  }

  /** Counts are users, and a name is in the table as long as it has one. */
  ghost predicate Counted(table: Table, at: map<Thread, Where>) {
    && table.mutexes.Keys == table.refs.Keys
    && (forall n | n in table.refs :: table.refs[n] == |Users(at, n)| > 0)
    && (forall t | t in at && !at[t].Leaving? :: at[t].name in table.mutexes && table.mutexes[at[t].name] == at[t].mu)
  }

  /** Names have different mutexes, and no object is made twice. */
  ghost predicate Separate(table: Table, locked: set<Mutex>) {
    && (forall n | n in table.mutexes :: table.mutexes[n] < table.next)
    && (forall n, n' | n in table.mutexes && n' in table.mutexes && table.mutexes[n] == table.mutexes[n'] :: n == n')
    && (forall mu | mu in locked :: mu < table.next)
  }

  /** A mutex is locked exactly when it has an owner, and it has one owner at most. */
  ghost predicate Owned(locked: set<Mutex>, at: map<Thread, Where>) {
    && (forall t | t in at && at[t].Holding? :: at[t].mu in locked)
    && (forall t | t in at && at[t].Leaving? :: at[t].left.Some? && at[t].left.value in locked)
    && (forall t, t', mu {:trigger Owns(at[t], mu), Owns(at[t'], mu)} |
          t in at && t' in at && Owns(at[t], mu) && Owns(at[t'], mu) :: t == t')
    && (forall mu | mu in locked :: exists t :: t in at && Owns(at[t], mu))
  }

  ghost predicate Inv(s: State) {
    Counted(s.table, s.at) && Separate(s.table, s.locked) && Owned(s.locked, s.at)
  }

  // --------------------------------------------------------- step by step

  lemma {:induction false} UsersAfter(at: map<Thread, Where>, t: Thread, w: Where, name: string)
    ensures Users(at[t := w], name) == if Uses(w, name) then Users(at, name) + {t} else Users(at, name) - {t}
  {
  }

  lemma {:induction false} LockKeepsCounted(s: State, t: Thread, name: string)
    requires Counted(s.table, s.at) && t !in s.at
    ensures var (table, mu) := Refer(s.table, name); Counted(table, s.at[t := Waiting(name, mu)])
  {
    var (table, mu) := Refer(s.table, name);
    var at := s.at[t := Waiting(name, mu)];
    forall n | n in table.refs ensures table.refs[n] == |Users(at, n)| > 0 {
      UsersAfter(s.at, t, Waiting(name, mu), n);
      if n == name && n !in s.table.refs {
        NobodyUses(s.table, s.at, n);
      }
    }
  }

  lemma {:induction false} NobodyUses(table: Table, at: map<Thread, Where>, name: string)
    requires Counted(table, at) && name !in table.refs
    ensures Users(at, name) == {}
  {
    forall t | t in at ensures !Uses(at[t], name) { }
  }

  lemma {:induction false} UsersAfterLeaving(at: map<Thread, Where>, t: Thread, mu: Option<Mutex>, name: string)
    requires t in Users(at, name)
    ensures |Users(at[t := Leaving(mu)], name)| == |Users(at, name)| - 1
    ensures forall n | n != name :: Users(at[t := Leaving(mu)], n) == Users(at, n)
  {
    UsersAfter(at, t, Leaving(mu), name);
    forall n | n != name ensures Users(at[t := Leaving(mu)], n) == Users(at, n) {
      UsersAfter(at, t, Leaving(mu), n);
    }
  }

  lemma {:induction false} UnlockKeepsCounted(s: State, t: Thread)
    requires Counted(s.table, s.at) && t in s.at && s.at[t].Holding?
    ensures var (table, mu) := Unrefer(s.table, s.at[t].name);
            mu == Some(s.at[t].mu) && Counted(table, s.at[t := Leaving(mu)])
  {
    var name := s.at[t].name;
    var (table, mu) := Unrefer(s.table, name);
    var at := s.at[t := Leaving(mu)];
    assert t in Users(s.at, name);
    UsersAfterLeaving(s.at, t, mu, name);
    forall u | u in at && !at[u].Leaving? ensures at[u].name in table.mutexes && table.mutexes[at[u].name] == at[u].mu {
      if at[u].name == name {
        assert u in Users(s.at, name);
        if name !in table.refs { OnlyUser(s.at, name, t); }
      }
    }
  }

  lemma {:induction false} OnlyUser(at: map<Thread, Where>, name: string, t: Thread)
    requires t in Users(at, name) && |Users(at, name)| <= 1
    ensures Users(at, name) == {t}
  {
    assert |Users(at, name) - {t}| == |Users(at, name)| - 1;
    assert Users(at, name) == (Users(at, name) - {t}) + {t};
  }

  lemma {:induction false} LockKeepsOwned(s: State, t: Thread, name: string, mu: Mutex)
    requires Owned(s.locked, s.at) && t !in s.at
    ensures Owned(s.locked, s.at[t := Waiting(name, mu)])
  {
    var at := s.at[t := Waiting(name, mu)];
    forall u, m | u in at ensures Owns(at[u], m) == (u in s.at && Owns(s.at[u], m)) { }
    forall m | m in s.locked ensures exists u :: u in at && Owns(at[u], m) {
      var u :| u in s.at && Owns(s.at[u], m);
      assert Owns(at[u], m);
    }
  }

  lemma {:induction false} LockKeepsInv(s: State, t: Thread, name: string)
    requires Inv(s) && t !in s.at
    ensures Inv(Step(s, Lock(t, name)))
  {
    LockKeepsCounted(s, t, name);
    LockKeepsOwned(s, t, name, Refer(s.table, name).1);
  }

  lemma {:induction false} AcquireKeepsCounted(s: State, t: Thread)
    requires Counted(s.table, s.at) && t in s.at && s.at[t].Waiting?
    ensures Counted(s.table, s.at[t := Holding(s.at[t].name, s.at[t].mu)])
  {
    var at := s.at[t := Holding(s.at[t].name, s.at[t].mu)];
    forall n ensures Users(at, n) == Users(s.at, n) { }
  }

  lemma {:induction false} AcquireKeepsOwned(s: State, t: Thread)
    requires Owned(s.locked, s.at) && t in s.at && s.at[t].Waiting? && s.at[t].mu !in s.locked
    ensures Owned(s.locked + {s.at[t].mu}, s.at[t := Holding(s.at[t].name, s.at[t].mu)])
  {
    var at := s.at[t := Holding(s.at[t].name, s.at[t].mu)];
    var locked := s.locked + {s.at[t].mu};
    forall u, mu | u in s.at && u != t && Owns(s.at[u], mu) ensures mu in s.locked { }
    forall mu | mu in locked ensures exists u :: u in at && Owns(at[u], mu) {
      if mu == s.at[t].mu {
        assert Owns(at[t], mu);
      } else {
        var u :| u in s.at && Owns(s.at[u], mu);
        assert Owns(at[u], mu);
      }
    }
    forall u, u', mu | u in at && u' in at && Owns(at[u], mu) && Owns(at[u'], mu) ensures u == u' {
      if u != t && u' != t { assert Owns(s.at[u], mu) && Owns(s.at[u'], mu); }
    }
  }

  lemma {:induction false} UnlockKeepsOwned(s: State, t: Thread)
    requires Owned(s.locked, s.at) && t in s.at && s.at[t].Holding?
    ensures Owned(s.locked, s.at[t := Leaving(Some(s.at[t].mu))])
  {
    var at := s.at[t := Leaving(Some(s.at[t].mu))];
    forall u, mu | u in s.at ensures Owns(at[u], mu) == Owns(s.at[u], mu) { }
    forall mu | mu in s.locked ensures exists u :: u in at && Owns(at[u], mu) {
      var u :| u in s.at && Owns(s.at[u], mu);
      assert Owns(at[u], mu);
    }
  }

  lemma {:induction false} ReleaseKeepsOwned(s: State, t: Thread)
    requires Owned(s.locked, s.at) && t in s.at && s.at[t].Leaving?
    ensures Owned(s.locked - {s.at[t].left.value}, s.at - {t})
  {
    var at := s.at - {t};
    var gone := s.at[t].left.value;
    assert Owns(s.at[t], gone);
    forall u, mu | u in at && Owns(at[u], mu) ensures mu in s.locked && mu != gone {
      assert Owns(s.at[u], mu);
    }
    forall u | u in at && at[u].Holding? ensures at[u].mu in s.locked - {gone} { assert Owns(at[u], at[u].mu); }
    forall u | u in at && at[u].Leaving? ensures at[u].left.value in s.locked - {gone} {
      assert Owns(at[u], at[u].left.value);
    }
    forall mu | mu in s.locked - {gone} ensures exists u :: u in at && Owns(at[u], mu) {
      var u :| u in s.at && Owns(s.at[u], mu);
      assert u in at && Owns(at[u], mu);
    }
    forall u, u', mu | u in at && u' in at && Owns(at[u], mu) && Owns(at[u'], mu) ensures u == u' {
      assert Owns(s.at[u], mu) && Owns(s.at[u'], mu);
    }
  }

  lemma {:induction false} ReleaseKeepsCounted(s: State, t: Thread)
    requires Counted(s.table, s.at) && t in s.at && s.at[t].Leaving?
    ensures Counted(s.table, s.at - {t})
  {
    var at := s.at - {t};
    forall n ensures Users(at, n) == Users(s.at, n) { }
  }

  lemma {:induction false} AcquireKeepsInv(s: State, t: Thread)
    requires Inv(s) && Enabled(s, Acquire(t))
    ensures Inv(Step(s, Acquire(t)))
  {
    AcquireKeepsCounted(s, t);
    AcquireKeepsOwned(s, t);
  }

  lemma {:induction false} UnlockKeepsInv(s: State, t: Thread)
    requires Inv(s) && Enabled(s, Unlock(t))
    ensures Inv(Step(s, Unlock(t)))
  {
    UnlockKeepsCounted(s, t);
    UnlockKeepsOwned(s, t);
  }

  lemma {:induction false} ReleaseKeepsInv(s: State, t: Thread)
    requires Inv(s) && Enabled(s, Release(t))
    ensures Inv(Step(s, Release(t)))
  {
    ReleaseKeepsCounted(s, t);
    ReleaseKeepsOwned(s, t);
  }

  lemma {:induction false} StepKeepsInv(s: State, e: Event)
    requires Inv(s)
    ensures Inv(Step(s, e))
  {
    if Enabled(s, e) {
      match e
      case Lock(t, name) => LockKeepsInv(s, t, name);
      case Acquire(t) => AcquireKeepsInv(s, t);
      case Unlock(t) => UnlockKeepsInv(s, t);
      case Release(t) => ReleaseKeepsInv(s, t);
    }
  }

  lemma {:induction false} EveryRunKeepsInv(es: seq<Event>)
    ensures Inv(Run(INIT, es))
  {
    if es != [] {
      EveryRunKeepsInv(es[..|es| - 1]);
      StepKeepsInv(Run(INIT, es[..|es| - 1]), es[|es| - 1]);
    }
  }

  // ------------------------------------------------------- main theorems

  /** Two threads never hold the same name, whatever objects came and went. */
  lemma {:induction false} MutualExclusion(es: seq<Event>, t: Thread, t': Thread)
    requires var at := Run(INIT, es).at;
             t in at && t' in at && at[t].Holding? && at[t'].Holding? && at[t].name == at[t'].name
    ensures t == t'
  {
    EveryRunKeepsInv(es);
    var s := Run(INIT, es);
    assert Owns(s.at[t], s.at[t].mu) && Owns(s.at[t'], s.at[t'].mu);
  }

  /** A name is in the table exactly while somebody uses it, and its count is the number of users, all
      of whom refer to the mutex the table has for it now. */
  lemma {:induction false} TableIsUsers(es: seq<Event>, name: string)
    ensures var s := Run(INIT, es);
            && (name in s.table.mutexes <==> Users(s.at, name) != {})
            && (name in s.table.mutexes <==> name in s.table.refs)
            && (name in s.table.refs ==> s.table.refs[name] == |Users(s.at, name)|)
            && (forall t | t in Users(s.at, name) :: name in s.table.mutexes && s.at[t].mu == s.table.mutexes[name])
  {
    EveryRunKeepsInv(es);
    var s := Run(INIT, es);
    if name !in s.table.refs { NobodyUses(s.table, s.at, name); }
  }

  /** A thread that leaves unlocks the mutex it locked, and that mutex is locked. */
  lemma {:induction false} UnlockReleasesOwnMutex(es: seq<Event>, t: Thread)
    requires var at := Run(INIT, es).at; t in at && at[t].Holding?
    ensures var s := Run(INIT, es);
            var s' := Step(s, Unlock(t));
            s'.at[t] == Leaving(Some(s.at[t].mu)) && s.at[t].mu in s'.locked
  {
    EveryRunKeepsInv(es);
    UnlockKeepsCounted(Run(INIT, es), t);
  }

  /** Whenever somebody waits, a waiting thread can enter or the owner of its mutex can move on. */
  lemma {:induction false} NoDeadlock(es: seq<Event>, t: Thread)
    requires var at := Run(INIT, es).at; t in at && at[t].Waiting?
    ensures var s := Run(INIT, es);
            || Enabled(s, Acquire(t))
            || exists u :: u in s.at && Owns(s.at[u], s.at[t].mu) && (Enabled(s, Unlock(u)) || Enabled(s, Release(u)))
  {
    EveryRunKeepsInv(es);
    var s := Run(INIT, es);
    if s.at[t].mu in s.locked {
      var u :| u in s.at && Owns(s.at[u], s.at[t].mu);
      assert Enabled(s, Unlock(u)) || Enabled(s, Release(u));
    }
  }

  /** What a step does to its thread: it waits for the name it asked for, enters with the mutex it waited
      for, leaves with that mutex, and is gone with the mutex free again. */
  lemma {:induction false} StepMovesItsThread(es: seq<Event>, e: Event)
    requires Enabled(Run(INIT, es), e)
    ensures var s, s', t := Run(INIT, es), Step(Run(INIT, es), e), e.t;
            && (e.Lock? ==> t in s'.at && s'.at[t].Waiting? && s'.at[t].name == e.name && s'.locked == s.locked)
            && (e.Acquire? ==> t in s'.at && s'.at[t] == Holding(s.at[t].name, s.at[t].mu))
            && (e.Unlock? ==> t in s'.at && s'.at[t] == Leaving(Some(s.at[t].mu)))
            && (e.Release? ==> t !in s'.at && s.at[t].left.Some? && s'.locked == s.locked - {s.at[t].left.value})
            && (forall u :: u != t && u in s.at ==> u in s'.at && s'.at[u] == s.at[u])
  {
    EveryRunKeepsInv(es);
    if e.Unlock? { UnlockReleasesOwnMutex(es, e.t); }
  }

  /** The steps by which the owner of a mutex gives it back. */
  function WayOut(u: Thread, w: Where): seq<Event> {
    if w.Holding? then [Unlock(u), Release(u)] else [Release(u)]
  }

  lemma {:induction false} RunSnoc(s: State, es: seq<Event>, e: Event)
    ensures Run(s, es + [e]) == Step(Run(s, es), e)
  {
    assert (es + [e])[..|es|] == es;
  }

  /** An owner that leaves frees its mutex and disturbs nobody. */
  lemma {:induction false} OwnerCanLeave(es: seq<Event>, u: Thread, mu: Mutex)
    requires var at := Run(INIT, es).at; u in at && Owns(at[u], mu)
    ensures var s, s' := Run(INIT, es), Run(Run(INIT, es), WayOut(u, Run(INIT, es).at[u]));
            s'.locked == s.locked - {mu} && s'.at == s.at - {u}
  {
    var s := Run(INIT, es);
    StepMovesItsThread(es, if s.at[u].Holding? then Unlock(u) else Release(u));
    if s.at[u].Holding? {
      var s1 := Step(s, Unlock(u));
      assert s1.at == s.at[u := Leaving(Some(mu))];
      RunSnoc(s, [], Unlock(u));
      RunSnoc(s, [Unlock(u)], Release(u));
      assert [] + [Unlock(u)] == [Unlock(u)] && [Unlock(u)] + [Release(u)] == [Unlock(u), Release(u)];
      RunSnoc(INIT, es, Unlock(u));
      StepMovesItsThread(es + [Unlock(u)], Release(u));
    } else {
      RunSnoc(s, [], Release(u));
      assert [] + [Release(u)] == [Release(u)];
    }
  }

  /** Whoever waits holds the name as soon as the owner of its mutex, if there is one, has left and it moves. */
  lemma {:induction false} WaiterCanEnter(es: seq<Event>, t: Thread)
    requires var at := Run(INIT, es).at; t in at && at[t].Waiting?
    ensures var s := Run(INIT, es);
            var enter := Holding(s.at[t].name, s.at[t].mu);
            if s.at[t].mu !in s.locked then t in Step(s, Acquire(t)).at && Step(s, Acquire(t)).at[t] == enter
            else exists u :: && u in s.at && Owns(s.at[u], s.at[t].mu)
                             && var s' := Step(Run(s, WayOut(u, s.at[u])), Acquire(t)); t in s'.at && s'.at[t] == enter
  {
    var s := Run(INIT, es);
    EveryRunKeepsInv(es);
    if s.at[t].mu in s.locked {
      var u :| u in s.at && Owns(s.at[u], s.at[t].mu);
      OwnerCanLeave(es, u, s.at[t].mu);
    }
  }
}
