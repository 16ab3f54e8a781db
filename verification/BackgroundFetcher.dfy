/**
 The background fetcher: resolvers wait in a queue, the run loop pops them and lets a goroutine fetch
 one span, after which the resolver is appended again while it has more spans. Adds from outside, pops,
 fetches and re-adds interleave freely.
 */
module BackgroundFetcher {
  import opened Base

  type Resolver = nat

  /** How many spans each resolver's layer has. */
  type Spans = Resolver -> nat

  /** Where resolvers are: waiting in the queue, with a goroutine that fetches a span, with a goroutine
      about to append them again, or gone for one of four reasons. */
  datatype Places = Places(
    queue: seq<Resolver>, fetching: seq<Resolver>, ready: seq<Resolver>,
    completed: seq<Resolver>, failed: seq<Resolver>, closedOut: seq<Resolver>, evicted: seq<Resolver>)

  datatype State = State(
    max: int, oldest: bool, spans: Spans, at: Places,
    added: set<Resolver>, closed: set<Resolver>, next: map<Resolver, nat>, readds: map<Resolver, nat>)

  function Init(max: int, oldest: bool, spans: Spans): State {
    State(max, oldest, spans, Places([], [], [], [], [], [], []), {}, {}, map[], map[])
  }

  function At(m: map<Resolver, nat>, r: Resolver): nat {
    if r in m then m[r] else 0
  }

  /** Appending to the queue; a full queue evicts its oldest entry or turns the new one away. */
  function Append(max: int, oldest: bool, at: Places, r: Resolver): Places {
    if max > 0 && |at.queue| >= max then
      if oldest then at.(queue := at.queue[1..] + [r], evicted := at.evicted + [at.queue[0]])
      else at.(evicted := at.evicted + [r])
    else at.(queue := at.queue + [r])
  }

  function Without(s: seq<Resolver>, i: nat): seq<Resolver>
    requires i < |s|
  {
    s[..i] + s[i + 1..]
  }

  datatype Event = Add(r: Resolver) | Close(r: Resolver) | Pop | Fetch(i: nat, ok: bool) | ReAdd(i: nat)

  predicate Enabled(s: State, e: Event) {
    match e
    case Add(r) => r !in s.added
    case Close(_) => true
    case Pop => s.at.queue != []
    case Fetch(i, _) => i < |s.at.fetching|
    case ReAdd(i) => i < |s.at.ready|
  }

  function PopPlaces(at: Places, closed: set<Resolver>): Places
    requires at.queue != []
  {
    var r := at.queue[0];
    var at1 := at.(queue := at.queue[1..]);
    if r in closed then at1.(closedOut := at.closedOut + [r]) else at1.(fetching := at.fetching + [r])
  }

  /** After a fetch: past the last span the resolver is complete; a failed fetch ends it. */
  function FetchPlaces(at: Places, i: nat, past: bool, ok: bool): Places
    requires i < |at.fetching|
  {
    var r := at.fetching[i];
    var at1 := at.(fetching := Without(at.fetching, i));
    if past then at1.(completed := at.completed + [r])
    else if ok then at1.(ready := at.ready + [r])
    else at1.(failed := at.failed + [r])
  }

  function Step(s: State, e: Event): State {
    if !Enabled(s, e) then s
    else
      match e
      case Add(r) => s.(added := s.added + {r}, at := Append(s.max, s.oldest, s.at, r))
      case Close(r) => s.(closed := s.closed + {r})
      case Pop => s.(at := PopPlaces(s.at, s.closed))
      case Fetch(i, ok) =>
        var r := s.at.fetching[i];
        var past := At(s.next, r) >= s.spans(r);
        s.(at := FetchPlaces(s.at, i, past, ok),
           next := if !past && ok then s.next[r := At(s.next, r) + 1] else s.next)
      case ReAdd(i) =>
        var r := s.at.ready[i];
        s.(at := Append(s.max, s.oldest, s.at.(ready := Without(s.at.ready, i)), r),
           readds := s.readds[r := At(s.readds, r) + 1])
  }

  function Run(s: State, es: seq<Event>): State {
    if es == [] then s else Step(Run(s, es[..|es| - 1]), es[|es| - 1])
  }

  // -------------------------------------------------------- the invariant

  function Times(s: seq<Resolver>, r: Resolver): nat {
    multiset(s)[r]
  }

  /** In how many places a resolver is. */
  function Everywhere(at: Places, r: Resolver): nat {
    Times(at.queue, r) + Times(at.fetching, r) + Times(at.ready, r)
    + Times(at.completed, r) + Times(at.failed, r) + Times(at.closedOut, r) + Times(at.evicted, r)
  }

  predicate Bounded(max: int, at: Places) {
    max > 0 ==> |at.queue| <= max
  }

  /** One place for each resolver that was added; one re-add per fetched span, apart from one about to
      happen; completion only after the last span. */
  predicate ResolverOk(s: State, r: Resolver) {
    && Everywhere(s.at, r) == (if r in s.added then 1 else 0)
    && At(s.next, r) <= s.spans(r) && At(s.readds, r) + Times(s.at.ready, r) == At(s.next, r)
    && (Times(s.at.completed, r) > 0 ==> At(s.next, r) == s.spans(r))
  }

  ghost predicate Inv(s: State) {
    Bounded(s.max, s.at) && forall r {:trigger ResolverOk(s, r)} :: ResolverOk(s, r)
  }

  // ------------------------------------------------------ step by step

  lemma {:induction false} TimesSnoc(s: seq<Resolver>, n: Resolver, r: Resolver)
    ensures Times(s + [n], r) == Times(s, r) + (if n == r then 1 else 0)
  {
  }

  lemma {:induction false} TimesWithout(s: seq<Resolver>, i: nat, r: Resolver)
    requires i < |s|
    ensures Times(s, r) == Times(Without(s, i), r) + (if s[i] == r then 1 else 0)
  {
    assert s == s[..i] + [s[i]] + s[i + 1..];
  }

  lemma {:induction false} TimesTail(s: seq<Resolver>, r: Resolver)
    requires s != []
    ensures Times(s, r) == Times(s[1..], r) + (if s[0] == r then 1 else 0)
  {
    TimesWithout(s, 0, r);
    assert Without(s, 0) == s[1..];
  }

  lemma {:induction false} AppendPlaces(max: int, oldest: bool, at: Places, n: Resolver, r: Resolver)
    ensures var at' := Append(max, oldest, at, n);
            && Everywhere(at', r) == Everywhere(at, r) + (if n == r then 1 else 0)
            && at'.ready == at.ready && at'.completed == at.completed
  {
    TimesSnoc(at.queue, n, r);
    TimesSnoc(at.evicted, n, r);
    if max > 0 && |at.queue| >= max && oldest {
      TimesTail(at.queue, r);
      TimesSnoc(at.queue[1..], n, r);
      TimesSnoc(at.evicted, at.queue[0], r);
    }
  }

  lemma {:induction false} PopKeepsPlaces(at: Places, closed: set<Resolver>, r: Resolver)
    requires at.queue != []
    ensures var at' := PopPlaces(at, closed);
            Everywhere(at', r) == Everywhere(at, r) && at'.ready == at.ready && at'.completed == at.completed
  {
    TimesTail(at.queue, r);
    if at.queue[0] in closed {
      TimesSnoc(at.closedOut, at.queue[0], r);
    } else {
      TimesSnoc(at.fetching, at.queue[0], r);
    }
  }

  lemma {:induction false} FetchKeepsPlaces(at: Places, i: nat, past: bool, ok: bool, r: Resolver)
    requires i < |at.fetching|
    ensures var at' := FetchPlaces(at, i, past, ok);
            var own := if at.fetching[i] == r then 1 else 0;
            && Everywhere(at', r) == Everywhere(at, r)
            && Times(at'.ready, r) == Times(at.ready, r) + (if !past && ok then own else 0)
            && Times(at'.completed, r) == Times(at.completed, r) + (if past then own else 0)
            && Times(at.fetching, r) >= own
  {
    var n := at.fetching[i];
    TimesWithout(at.fetching, i, r);
    TimesSnoc(at.completed, n, r);
    TimesSnoc(at.ready, n, r);
    TimesSnoc(at.failed, n, r);
  }

  lemma {:induction false} ReAddKeepsPlaces(max: int, oldest: bool, at: Places, i: nat, r: Resolver)
    requires i < |at.ready|
    ensures var at' := Append(max, oldest, at.(ready := Without(at.ready, i)), at.ready[i]);
            && Everywhere(at', r) == Everywhere(at, r) && at'.completed == at.completed
            && Times(at.ready, r) == Times(at'.ready, r) + (if at.ready[i] == r then 1 else 0)
  {
    TimesWithout(at.ready, i, r);
    AppendPlaces(max, oldest, at.(ready := Without(at.ready, i)), at.ready[i], r);
  }

  lemma {:induction false} AddKeepsResolver(s: State, n: Resolver, r: Resolver)
    requires ResolverOk(s, r)
    ensures ResolverOk(Step(s, Add(n)), r)
  {
    AppendPlaces(s.max, s.oldest, s.at, n, r);
  }

  lemma {:induction false} PopKeepsResolver(s: State, r: Resolver)
    requires ResolverOk(s, r)
    ensures ResolverOk(Step(s, Pop), r)
  {
    if s.at.queue != [] { PopKeepsPlaces(s.at, s.closed, r); }
  }

  lemma {:induction false} FetchKeepsResolver(s: State, i: nat, ok: bool, r: Resolver)
    requires ResolverOk(s, r)
    ensures ResolverOk(Step(s, Fetch(i, ok)), r)
  {
    if i < |s.at.fetching| {
      FetchKeepsPlaces(s.at, i, At(s.next, s.at.fetching[i]) >= s.spans(s.at.fetching[i]), ok, r);
    }
  }

  lemma {:induction false} ReAddKeepsResolver(s: State, i: nat, r: Resolver)
    requires ResolverOk(s, r)
    ensures ResolverOk(Step(s, ReAdd(i)), r)
  {
    if i < |s.at.ready| { ReAddKeepsPlaces(s.max, s.oldest, s.at, i, r); }
  }

  lemma {:induction false} StepKeepsResolver(s: State, e: Event, r: Resolver)
    requires ResolverOk(s, r)
    ensures ResolverOk(Step(s, e), r)
  {
    match e
    case Add(n) => AddKeepsResolver(s, n, r);
    case Close(_) =>
    case Pop => PopKeepsResolver(s, r);
    case Fetch(i, ok) => FetchKeepsResolver(s, i, ok, r);
    case ReAdd(i) => ReAddKeepsResolver(s, i, r);
  }

  lemma {:induction false} StepKeepsInv(s: State, e: Event)
    requires Inv(s)
    ensures Inv(Step(s, e))
  {
    forall r ensures ResolverOk(Step(s, e), r) {
      assert ResolverOk(s, r);
      StepKeepsResolver(s, e, r);
    }
  }

  lemma {:induction false} EveryRunKeepsInv(max: int, oldest: bool, spans: Spans, es: seq<Event>)
    ensures var s := Run(Init(max, oldest, spans), es); Inv(s) && s.max == max && s.spans == spans
  {
    if es != [] {
      EveryRunKeepsInv(max, oldest, spans, es[..|es| - 1]);
      StepKeepsInv(Run(Init(max, oldest, spans), es[..|es| - 1]), es[|es| - 1]);
    }
  }

  // ------------------------------------------------------- main theorems

  /** A resolver that was added is in one place: queued, with one goroutine, or gone for one reason. */
  lemma {:induction false} OnePlaceEach(max: int, oldest: bool, spans: Spans, es: seq<Event>, r: Resolver)
    ensures var s := Run(Init(max, oldest, spans), es); Everywhere(s.at, r) == if r in s.added then 1 else 0
  {
    EveryRunKeepsInv(max, oldest, spans, es);
    assert ResolverOk(Run(Init(max, oldest, spans), es), r);
  }

  /** A bounded queue stays within its bound. */
  lemma {:induction false} QueueStaysBounded(max: int, oldest: bool, spans: Spans, es: seq<Event>)
    requires max > 0
    ensures |Run(Init(max, oldest, spans), es).at.queue| <= max
  {
    EveryRunKeepsInv(max, oldest, spans, es);
  }

  /** A resolver is appended again at most once per span, and one that completes fetched every span. */
  lemma {:induction false} OneReAddPerSpan(max: int, oldest: bool, spans: Spans, es: seq<Event>, r: Resolver)
    ensures var s := Run(Init(max, oldest, spans), es);
            && At(s.readds, r) <= At(s.next, r) <= spans(r)
            && (Times(s.at.completed, r) > 0 ==> At(s.readds, r) == At(s.next, r) == spans(r))
  {
    EveryRunKeepsInv(max, oldest, spans, es);
    assert ResolverOk(Run(Init(max, oldest, spans), es), r);
  }

  // ------------------------------------------------------------- draining

  /** Steps the fetcher takes by itself. */
  predicate Own(e: Event) {
    e.Pop? || e.Fetch? || e.ReAdd?
  }

  /** What the spans a list of resolvers still has to fetch weigh, `k` more for each resolver. */
  function Weight(s: seq<Resolver>, spans: Spans, next: map<Resolver, nat>, k: nat): int {
    if s == [] then 0
    else Weight(s[..|s| - 1], spans, next, k) + 3 * (spans(s[|s| - 1]) - At(next, s[|s| - 1])) + k
  }

  function WorkAt(at: Places, spans: Spans, next: map<Resolver, nat>): int {
    Weight(at.queue, spans, next, 3) + Weight(at.fetching, spans, next, 2) + Weight(at.ready, spans, next, 4)
  }

  function Work(s: State): int {
    WorkAt(s.at, s.spans, s.next)
  }

  lemma {:induction false} WeightSnoc(s: seq<Resolver>, n: Resolver, spans: Spans, next: map<Resolver, nat>, k: nat)
    ensures Weight(s + [n], spans, next, k) == Weight(s, spans, next, k) + 3 * (spans(n) - At(next, n)) + k
  {
    assert (s + [n])[..|s|] == s;
  }

  lemma {:induction false} WeightConcat(a: seq<Resolver>, b: seq<Resolver>, spans: Spans, next: map<Resolver, nat>,
        k: nat)
    ensures Weight(a + b, spans, next, k) == Weight(a, spans, next, k) + Weight(b, spans, next, k)
    decreases |b|
  {
    if b == [] {
      assert a + b == a;
    } else {
      assert (a + b)[..|a + b| - 1] == a + b[..|b| - 1];
      WeightConcat(a, b[..|b| - 1], spans, next, k);
    }
  }

  lemma {:induction false} WeightWithout(s: seq<Resolver>, i: nat, spans: Spans, next: map<Resolver, nat>, k: nat)
    requires i < |s|
    ensures Weight(s, spans, next, k) == Weight(Without(s, i), spans, next, k) + 3 * (spans(s[i]) - At(next, s[i])) + k
  {
    WeightConcat(s[..i], s[i + 1..], spans, next, k);
    WeightSnoc(s[..i], s[i], spans, next, k);
    WeightConcat(s[..i] + [s[i]], s[i + 1..], spans, next, k);
    assert s == s[..i] + [s[i]] + s[i + 1..];
  }

  lemma {:induction false} WeightElsewhere(s: seq<Resolver>, spans: Spans, next: map<Resolver, nat>, k: nat,
        r: Resolver, n: nat)
    requires Times(s, r) == 0
    ensures Weight(s, spans, next[r := n], k) == Weight(s, spans, next, k)
  {
    if s != [] {
      assert s == s[..|s| - 1] + [s[|s| - 1]];
      WeightElsewhere(s[..|s| - 1], spans, next, k, r, n);
    }
  }

  lemma {:induction false} WeightIsPositive(s: seq<Resolver>, spans: Spans, next: map<Resolver, nat>, k: nat)
    requires forall r :: At(next, r) <= spans(r)
    ensures Weight(s, spans, next, k) >= 0
  {
    if s != [] { WeightIsPositive(s[..|s| - 1], spans, next, k); }
  }

  lemma {:induction false} WithinSpans(s: State)
    requires Inv(s)
    ensures forall r :: At(s.next, r) <= s.spans(r)
    ensures Work(s) >= 0
  {
    forall r ensures At(s.next, r) <= s.spans(r) { assert ResolverOk(s, r); }
    WeightIsPositive(s.at.queue, s.spans, s.next, 3);
    WeightIsPositive(s.at.fetching, s.spans, s.next, 2);
    WeightIsPositive(s.at.ready, s.spans, s.next, 4);
  }

  lemma {:induction false} AppendWeight(max: int, oldest: bool, at: Places, n: Resolver, spans: Spans,
        next: map<Resolver, nat>)
    requires At(next, n) <= spans(n) && forall r :: At(next, r) <= spans(r)
    ensures Weight(Append(max, oldest, at, n).queue, spans, next, 3)
         <= Weight(at.queue, spans, next, 3) + 3 * (spans(n) - At(next, n)) + 3
  {
    WeightSnoc(at.queue, n, spans, next, 3);
    if max > 0 && |at.queue| >= max && oldest {
      WeightWithout(at.queue, 0, spans, next, 3);
      assert Without(at.queue, 0) == at.queue[1..];
      WeightSnoc(at.queue[1..], n, spans, next, 3);
    }
  }

  lemma {:induction false} FetchedWork(at: Places, i: nat, spans: Spans, next: map<Resolver, nat>)
    requires i < |at.fetching|
    requires var r := at.fetching[i];
             Times(at.queue, r) == 0 && Times(at.ready, r) == 0 && Times(Without(at.fetching, i), r) == 0
    ensures var r := at.fetching[i];
            WorkAt(FetchPlaces(at, i, false, true), spans, next[r := At(next, r) + 1]) == WorkAt(at, spans, next) - 1
  {
    var r := at.fetching[i];
    var n := At(next, r) + 1;
    WeightWithout(at.fetching, i, spans, next, 2);
    WeightElsewhere(Without(at.fetching, i), spans, next, 2, r, n);
    WeightElsewhere(at.queue, spans, next, 3, r, n);
    WeightElsewhere(at.ready, spans, next, 4, r, n);
    WeightSnoc(at.ready, r, spans, next[r := n], 4);
  }

  lemma {:induction false} FetchingIsOnlyPlace(s: State, i: nat)
    requires Inv(s) && i < |s.at.fetching|
    ensures var r := s.at.fetching[i];
            Times(s.at.queue, r) == 0 && Times(s.at.ready, r) == 0 && Times(Without(s.at.fetching, i), r) == 0
    ensures At(s.next, s.at.fetching[i]) <= s.spans(s.at.fetching[i])
  {
    assert ResolverOk(s, s.at.fetching[i]);
    TimesWithout(s.at.fetching, i, s.at.fetching[i]);
  }

  lemma {:induction false} EndedWork(at: Places, i: nat, past: bool, spans: Spans, next: map<Resolver, nat>)
    requires i < |at.fetching| && At(next, at.fetching[i]) <= spans(at.fetching[i])
    ensures WorkAt(FetchPlaces(at, i, past, false), spans, next) < WorkAt(at, spans, next)
    ensures past ==> WorkAt(FetchPlaces(at, i, past, true), spans, next) < WorkAt(at, spans, next)
  {
    WeightWithout(at.fetching, i, spans, next, 2);
  }

  lemma {:induction false} FetchDecreases(s: State, i: nat, ok: bool)
    requires Inv(s) && i < |s.at.fetching|
    ensures Work(Step(s, Fetch(i, ok))) < Work(s)
  {
    var r := s.at.fetching[i];
    FetchingIsOnlyPlace(s, i);
    if At(s.next, r) < s.spans(r) && ok {
      FetchedWork(s.at, i, s.spans, s.next);
    } else {
      EndedWork(s.at, i, At(s.next, r) >= s.spans(r), s.spans, s.next);
    }
  }

  lemma {:induction false} PopWork(at: Places, closed: set<Resolver>, spans: Spans, next: map<Resolver, nat>)
    requires at.queue != [] && At(next, at.queue[0]) <= spans(at.queue[0])
    ensures WorkAt(PopPlaces(at, closed), spans, next) < WorkAt(at, spans, next)
  {
    WeightWithout(at.queue, 0, spans, next, 3);
    assert Without(at.queue, 0) == at.queue[1..];
    if at.queue[0] !in closed { WeightSnoc(at.fetching, at.queue[0], spans, next, 2); }
  }

  lemma {:induction false} PopDecreases(s: State)
    requires Inv(s) && s.at.queue != []
    ensures Work(Step(s, Pop)) < Work(s)
  {
    assert ResolverOk(s, s.at.queue[0]);
    PopWork(s.at, s.closed, s.spans, s.next);
  }

  lemma {:induction false} ReAddDecreases(s: State, i: nat)
    requires Inv(s) && i < |s.at.ready|
    ensures Work(Step(s, ReAdd(i))) < Work(s)
  {
    WithinSpans(s);
    WeightWithout(s.at.ready, i, s.spans, s.next, 4);
    AppendWeight(s.max, s.oldest, s.at.(ready := Without(s.at.ready, i)), s.at.ready[i], s.spans, s.next);
  }

  lemma {:induction false} OwnStepDecreases(s: State, e: Event)
    requires Inv(s) && Own(e) && Enabled(s, e)
    ensures 0 <= Work(Step(s, e)) < Work(s)
  {
    StepKeepsInv(s, e);
    WithinSpans(Step(s, e));
    match e
    case Pop => PopDecreases(s);
    case Fetch(i, ok) => FetchDecreases(s, i, ok);
    case ReAdd(i) => ReAddDecreases(s, i);
  }

  /** All of the events were possible when they came. */
  predicate AllEnabled(s: State, es: seq<Event>) {
    es == [] || (AllEnabled(s, es[..|es| - 1]) && Enabled(Run(s, es[..|es| - 1]), es[|es| - 1]))
  }

  /** Left alone, the fetcher takes no more steps than it has work. */
  lemma {:induction false} OwnStepsAreBounded(s: State, es: seq<Event>)
    requires Inv(s) && AllEnabled(s, es) && forall i :: 0 <= i < |es| ==> Own(es[i])
    ensures Inv(Run(s, es)) && |es| + Work(Run(s, es)) <= Work(s)
  {
    if es != [] {
      OwnStepsAreBounded(s, es[..|es| - 1]);
      StepKeepsInv(Run(s, es[..|es| - 1]), es[|es| - 1]);
      OwnStepDecreases(Run(s, es[..|es| - 1]), es[|es| - 1]);
    }
  }

  /** When no step of its own is possible, every resolver ever added is gone. */
  lemma {:induction false} StopsOnlyWhenDrained(max: int, oldest: bool, spans: Spans, es: seq<Event>, r: Resolver)
    requires var s := Run(Init(max, oldest, spans), es); (forall e | Own(e) :: !Enabled(s, e)) && r in s.added
    ensures var s := Run(Init(max, oldest, spans), es);
            Times(s.at.completed, r) + Times(s.at.failed, r) + Times(s.at.closedOut, r) + Times(s.at.evicted, r) == 1
  {
    var s := Run(Init(max, oldest, spans), es);
    assert !Enabled(s, Pop) && !Enabled(s, Fetch(0, true)) && !Enabled(s, ReAdd(0));
    OnePlaceEach(max, oldest, spans, es, r);
  }

  // ------------------------------------------------- why resolvers leave

  /** Some event added, or closed, the resolver. */
  predicate Happened(es: seq<Event>, e: Event) {
    exists n :: 0 <= n < |es| && es[n] == e
  }

  /** Some fetch of the resolver failed. */
  ghost predicate FetchFailed(s: State, es: seq<Event>, r: Resolver) {
    exists n: nat, i: nat :: FailedAt(s, es, r, n, i)
  }

  predicate FailedAt(s: State, es: seq<Event>, r: Resolver, n: nat, i: nat) {
    && n < |es| && es[n] == Fetch(i, false)
    && i < |Run(s, es[..n]).at.fetching| && Run(s, es[..n]).at.fetching[i] == r
  }

  lemma {:induction false} HappenedSnoc(es: seq<Event>, e: Event, x: Event)
    ensures Happened(es + [e], x) <==> Happened(es, x) || e == x
  {
    var all := es + [e];
    assert all[|es|] == e;
    if Happened(es, x) {
      var n :| 0 <= n < |es| && es[n] == x;
      assert all[n] == x;
    }
  }

  lemma {:induction false} FailedSnoc(s: State, es: seq<Event>, e: Event, r: Resolver)
    ensures FetchFailed(s, es, r) ==> FetchFailed(s, es + [e], r)
    ensures e.Fetch? && !e.ok && e.i < |Run(s, es).at.fetching| && Run(s, es).at.fetching[e.i] == r ==>
              FetchFailed(s, es + [e], r)
  {
    var all := es + [e];
    assert all[..|es|] == es;
    if n: nat, i: nat :| FailedAt(s, es, r, n, i) {
      assert all[..n] == es[..n];
      assert FailedAt(s, all, r, n, i);
    }
    if e.Fetch? && !e.ok && e.i < |Run(s, es).at.fetching| && Run(s, es).at.fetching[e.i] == r {
      assert FailedAt(s, all, r, |es|, e.i);
    }
  }

  lemma {:induction false} AppendEnds(max: int, oldest: bool, at: Places, n: Resolver)
    ensures var at' := Append(max, oldest, at, n);
            && at'.closedOut == at.closedOut && at'.failed == at.failed && at'.fetching == at.fetching
            && at'.ready == at.ready && (max <= 0 ==> at'.evicted == at.evicted)
  {
  }

  lemma {:induction false} PopEnds(at: Places, closed: set<Resolver>, r: Resolver)
    requires at.queue != []
    ensures var at' := PopPlaces(at, closed);
            && at'.failed == at.failed && at'.evicted == at.evicted && at'.ready == at.ready
            && (if r in closed then Times(at'.fetching, r) == Times(at.fetching, r)
                else Times(at'.closedOut, r) == Times(at.closedOut, r))
  {
    TimesSnoc(at.fetching, at.queue[0], r);
    TimesSnoc(at.closedOut, at.queue[0], r);
  }

  lemma {:induction false} FetchEnds(at: Places, i: nat, past: bool, ok: bool, r: Resolver)
    requires i < |at.fetching|
    ensures var at' := FetchPlaces(at, i, past, ok);
            && at'.closedOut == at.closedOut && at'.evicted == at.evicted
            && (ok || at.fetching[i] != r ==> Times(at'.failed, r) == Times(at.failed, r))
            && Times(at'.fetching, r) <= Times(at.fetching, r)
            && (at.fetching[i] != r ==> Times(at'.ready, r) == Times(at.ready, r))
  {
    TimesWithout(at.fetching, i, r);
    TimesSnoc(at.failed, at.fetching[i], r);
    TimesSnoc(at.ready, at.fetching[i], r);
  }

  /** How one step moves a resolver between the places it ends in. */
  lemma {:induction false} StepEnds(s: State, e: Event, r: Resolver)
    ensures var s' := Step(s, e);
            && s'.added == (if e.Add? then s.added + {e.r} else s.added)
            && s'.closed == (if e.Close? then s.closed + {e.r} else s.closed)
            && (Times(s'.at.closedOut, r) > Times(s.at.closedOut, r) ==> r in s.closed)
            && (Times(s'.at.failed, r) > Times(s.at.failed, r) ==>
                  e.Fetch? && !e.ok && e.i < |s.at.fetching| && s.at.fetching[e.i] == r)
            && (Times(s'.at.evicted, r) > Times(s.at.evicted, r) ==> s.max > 0)
  {
    if Enabled(s, e) {
      match e
      case Add(n) => AppendEnds(s.max, s.oldest, s.at, n);
      case Close(_) =>
      case Pop => PopEnds(s.at, s.closed, r);
      case Fetch(i, ok) =>
        FetchEnds(s.at, i, At(s.next, s.at.fetching[i]) >= s.spans(s.at.fetching[i]), ok, r);
      case ReAdd(i) => AppendEnds(s.max, s.oldest, s.at.(ready := Without(s.at.ready, i)), s.at.ready[i]);
    }
  }

  /** Resolvers are added and closed by those events, and leave for true reasons: closed ones were closed,
      failed ones had a failed fetch, and only a bounded queue evicts. */
  lemma {:induction false} ReasonsAreTrue(max: int, oldest: bool, spans: Spans, es: seq<Event>, r: Resolver)
    ensures var s := Run(Init(max, oldest, spans), es);
            && (r in s.added <==> Happened(es, Add(r))) && (r in s.closed <==> Happened(es, Close(r)))
            && (Times(s.at.closedOut, r) > 0 ==> Happened(es, Close(r)))
            && (Times(s.at.failed, r) > 0 ==> FetchFailed(Init(max, oldest, spans), es, r))
            && (Times(s.at.evicted, r) > 0 ==> max > 0)
  {
    if es != [] {
      var front, e := es[..|es| - 1], es[|es| - 1];
      var init := Init(max, oldest, spans);
      ReasonsAreTrue(max, oldest, spans, front, r);
      EveryRunKeepsInv(max, oldest, spans, front);
      StepEnds(Run(init, front), e, r);
      HappenedSnoc(front, e, Add(r));
      HappenedSnoc(front, e, Close(r));
      FailedSnoc(init, front, e, r);
      assert es == front + [e];
    }
  }

  /** With an unbounded queue, a resolver that was added, never closed and never failed has all its spans
      fetched when the fetcher comes to rest. */
  lemma {:induction false} UndisturbedResolverCompletes(max: int, oldest: bool, spans: Spans, es: seq<Event>,
        r: Resolver)
    requires max <= 0 && Happened(es, Add(r)) && !Happened(es, Close(r))
    requires !FetchFailed(Init(max, oldest, spans), es, r)
    requires var s := Run(Init(max, oldest, spans), es); forall e | Own(e) :: !Enabled(s, e)
    ensures var s := Run(Init(max, oldest, spans), es);
            Times(s.at.completed, r) == 1 && At(s.next, r) == At(s.readds, r) == spans(r)
  {
    ReasonsAreTrue(max, oldest, spans, es, r);
    StopsOnlyWhenDrained(max, oldest, spans, es, r);
    OneReAddPerSpan(max, oldest, spans, es, r);
  }

  /** A resolver that is closed and with no goroutine. */
  predicate Shut(s: State, r: Resolver) {
    r in s.closed && Times(s.at.fetching, r) == 0 && Times(s.at.ready, r) == 0
  }

  lemma {:induction false} ShutStaysShut(s: State, e: Event, r: Resolver)
    requires Shut(s, r)
    ensures Shut(Step(s, e), r) && At(Step(s, e).next, r) == At(s.next, r)
  {
    if Enabled(s, e) {
      match e
      case Add(n) => AppendEnds(s.max, s.oldest, s.at, n);
      case Close(_) =>
      case Pop => PopEnds(s.at, s.closed, r);
      case Fetch(i, ok) =>
        TimesWithout(s.at.fetching, i, r);
        FetchEnds(s.at, i, At(s.next, s.at.fetching[i]) >= s.spans(s.at.fetching[i]), ok, r);
      case ReAdd(i) =>
        TimesWithout(s.at.ready, i, r);
        AppendEnds(s.max, s.oldest, s.at.(ready := Without(s.at.ready, i)), s.at.ready[i]);
    }
  }

  /** Once a resolver is closed and no goroutine has it, none of its spans is fetched any more. */
  lemma {:induction false} ClosedResolverFetchesNoMore(s: State, es: seq<Event>, r: Resolver)
    requires Shut(s, r)
    ensures Shut(Run(s, es), r) && At(Run(s, es).next, r) == At(s.next, r)
  {
    if es != [] {
      ClosedResolverFetchesNoMore(s, es[..|es| - 1], r);
      ShutStaysShut(Run(s, es[..|es| - 1]), es[|es| - 1], r);
    }
  }

  // ------------------------------------------------------------ the class

  class WorkQueue {
    const maxQueueSize: int
    const dropOldest: bool
    var workQueue: seq<Resolver>
    /** The resolvers that were dropped, oldest first. */
    var evicted: seq<Resolver>

    constructor (max: int, oldest: bool)
      ensures maxQueueSize == max && dropOldest == oldest && workQueue == [] && evicted == []
    {
      maxQueueSize, dropOldest := max, oldest;
      workQueue, evicted := [], [];
    }

    method Add(r: Resolver)
      modifies this
      ensures var full := maxQueueSize > 0 && |old(workQueue)| >= maxQueueSize;
              if !full then workQueue == old(workQueue) + [r] && evicted == old(evicted)
              else if dropOldest then [old(workQueue)[0]] + workQueue == old(workQueue) + [r]
                && evicted == old(evicted) + [old(workQueue)[0]]
              else workQueue == old(workQueue) && evicted == old(evicted) + [r]
      ensures forall at: Places | at.queue == old(workQueue) && at.evicted == old(evicted) ::
        Append(maxQueueSize, dropOldest, at, r) == at.(queue := workQueue, evicted := evicted)
    {
      if maxQueueSize > 0 && |workQueue| >= maxQueueSize {
        if dropOldest {
          evicted := evicted + [workQueue[0]];
          workQueue := workQueue[1..];
        } else {
          evicted := evicted + [r];
          return;
        }
      }
      workQueue := workQueue + [r];
    }

    method Next() returns (r: Option<Resolver>)
      modifies this`workQueue
      ensures r.None? <==> old(workQueue) == []
      ensures old(workQueue) == (if r.Some? then [r.value] else []) + workQueue
    {
      if |workQueue| == 0 {
        return None;
      }
      r := Some(workQueue[0]);
      workQueue := workQueue[1..];
    }
  }
}
