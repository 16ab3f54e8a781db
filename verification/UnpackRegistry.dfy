/**
 The registry as an object that updates its maps in place, its searches, its snapshot and the collector's
 policies as loops. Each method is proved to be a step, or a run of steps, of the registry machine.
 */
module UnpackRegistry {
  import opened Base
  import opened UnpackJobs

  /** What is noted is right. */
  ghost predicate NotedRight(images: Images, mem: map<string, Seen>) {
    && (forall id | id in mem :: Registered(images, id))
    && (forall j {:trigger Filed(images, j)} ::
         Filed(images, j) && j.id in mem ==> mem[j.id] == Seen(j.image, j.created))
  }

  lemma {:induction false} LayerIsFiled(images: Images, image: string, layer: string)
    requires Places(images) && image in images && layer in images[image]
    ensures AllFiled(images, images[image][layer])
    ensures forall j :: Filed(images, j) && j.image == image && j.layer == layer ==> j in images[image][layer]
  {
    assert ListOk(images[image][layer], image, layer);
  }

  lemma {:induction false} NoteOne(images: Images, mem: map<string, Seen>, j: Job)
    requires DistinctIds(images) && NotedRight(images, mem) && Filed(images, j)
    ensures NotedRight(images, mem[j.id := Seen(j.image, j.created)])
  {
  }

  /** A snapshot with these jobs noted in it. */
  function Noted(was: map<string, Seen>, jobs: seq<Job>): map<string, Seen> {
    if jobs == [] then was
    else
      var j := jobs[|jobs| - 1];
      Noted(was, jobs[..|jobs| - 1])[j.id := Seen(j.image, j.created)]
  }

  ghost predicate AllFiled(images: Images, jobs: seq<Job>) {
    forall a :: 0 <= a < |jobs| ==> Filed(images, jobs[a])
  }

  lemma {:induction false} NotedKeys(was: map<string, Seen>, jobs: seq<Job>)
    ensures was.Keys <= Noted(was, jobs).Keys && forall a :: 0 <= a < |jobs| ==> jobs[a].id in Noted(was, jobs)
  {
    if jobs != [] { NotedKeys(was, jobs[..|jobs| - 1]); }
  }

  lemma {:induction false} NotedStaysRight(images: Images, was: map<string, Seen>, jobs: seq<Job>)
    requires DistinctIds(images) && NotedRight(images, was) && AllFiled(images, jobs)
    ensures NotedRight(images, Noted(was, jobs))
  {
    if jobs != [] {
      var front, j := jobs[..|jobs| - 1], jobs[|jobs| - 1];
      NotedStaysRight(images, was, front);
      NoteOne(images, Noted(was, front), j);
    }
  }

  /** What adding a job comes to; `Crashed` is the program stopped by an image that is no longer registered. */
  datatype Added = Refused | Crashed | Added(job: Job)

  /** The identifiers a sweep keeps, in their order. */
  function Kept(ids: seq<string>, spared: set<string>, failing: set<string>): seq<string> {
    if ids == [] then []
    else
      var front, id := ids[..|ids| - 1], ids[|ids| - 1];
      Kept(front, spared, failing) + (if id in spared || id == "" || id in failing then [id] else [])
  }

  /** The identifiers a sweep deletes. */
  function Deleted(ids: seq<string>, spared: set<string>, failing: set<string>): set<string> {
    set id | id in ids && id !in spared && id != "" && id !in failing
  }

  lemma {:induction false} OneMoreSwept(ids: seq<string>, i: nat, spared: set<string>, failing: set<string>)
    requires i < |ids|
    ensures var keep := ids[i] in spared || ids[i] == "" || ids[i] in failing;
            && Deleted(ids[..i + 1], spared, failing) ==
                 Deleted(ids[..i], spared, failing) + (if keep then {} else {ids[i]})
            && Kept(ids[..i + 1], spared, failing) == Kept(ids[..i], spared, failing) + (if keep then [ids[i]] else [])
    ensures ids[i..] == [ids[i]] + ids[i + 1..]
  {
    assert ids[..i + 1] == ids[..i] + [ids[i]] && ids[..i + 1][..i] == ids[..i];
  }

  lemma {:induction false} RunSnoc(s: State, es: seq<Event>, e: Event)
    ensures Run(s, es + [e]) == Step(Run(s, es), e)
  {
    assert (es + [e])[..|es|] == es;
  }

  lemma {:induction false} RunConcat(s: State, a: seq<Event>, b: seq<Event>)
    ensures Run(s, a + b) == Run(Run(s, a), b)
  {
    if b == [] {
      assert a + b == a;
    } else {
      assert (a + b)[..|a + b| - 1] == a + b[..|b| - 1];
      RunConcat(s, a, b[..|b| - 1]);
    }
  }

  class Registry {
    var images: Images
    var status: map<string, Status>
    var storage: set<string>

    function Contents(gc: Collector): State
      reads this
    {
      State(images, status, storage, gc)
    }

    constructor ()
      ensures Contents(Idle) == INIT
    {
      images, status, storage := map[], map[], {};
    }

    /** Draws keys until one is new, ten times at most. */
    method GenerateUniqueKey(drawn: seq<string>) returns (key: Option<string>)
      requires |drawn| == MAX_KEY_TRIES
      ensures key == PickKey(storage, drawn, MAX_KEY_TRIES)
      ensures key.Some? ==> key.value !in storage && key.value != ""
    {
      PickedKeyIsNew(storage, drawn, MAX_KEY_TRIES);
      for attempt := 0 to MAX_KEY_TRIES
        invariant PickKey(storage, drawn, MAX_KEY_TRIES) == PickKey(storage, drawn[attempt..], MAX_KEY_TRIES - attempt)
      {
        if |drawn[attempt]| > 0 && drawn[attempt] !in storage {
          return Some(drawn[attempt]);
        }
        assert drawn[attempt..][1..] == drawn[attempt + 1..];
      }
      return None;
    }

    method GetOrAddImageJob(image: string)
      modifies this`images
      ensures images.Keys == old(images).Keys + {image} && (image !in old(images) ==> images[image] == map[])
      ensures forall i | i in old(images) :: images[i] == old(images)[i]
      ensures forall gc :: Contents(gc) == Step(old(Contents(gc)), AddImage(image))
    {
      if image !in images {
        images := images[image := map[]];
      }
    }

    /** Makes the directory and files the job under its image, which has to be registered still. */
    method AddLayerJob(image: string, layer: string, created: int, drawn: seq<string>, mkdirOk: bool)
      returns (r: Added)
      requires |drawn| == MAX_KEY_TRIES
      modifies this
      ensures forall gc ::
                Contents(gc) == AddLayerStep(old(Contents(gc)), AddLayer(image, layer, created, drawn, mkdirOk))
      ensures r.Added? ==> Filed(images, r.job) && r.job.id !in old(storage) && r.job.id in storage
      ensures r.Added? ==> r.job.image == image && r.job.layer == layer && image in old(images)
      ensures r.Crashed? ==> image !in old(images) && images == old(images)
      ensures r.Refused? ==> images == old(images) && storage == old(storage)
    {
      var key := GenerateUniqueKey(drawn);
      if key.None? || !mkdirOk {
        return Refused;
      }
      storage := storage + {key.value};
      status := status[key.value := InProgress];
      if image !in images {
        return Crashed;
      }
      var j := Job(key.value, image, layer, created);
      AddJobFiled(images, j);
      var jobs := if layer in images[image] then images[image][layer] else [];
      images := images[image := images[image][layer := jobs + [j]]];
      return Added.Added(j);
    }

    /** Takes the first job of the layer that is still in progress. */
    method Claim(image: string, layer: string) returns (r: Result<Job>)
      modifies this`status
      ensures r == ClaimJob(old(images), old(status), image, layer)
      ensures forall gc :: Contents(gc) == Step(old(Contents(gc)), Event.Claim(image, layer))
    {
      var checked := CheckLayer(images, image, layer);
      if checked.Err? {
        return Err(checked.error);
      }
      var jobs := checked.value;
      for k := 0 to |jobs|
        invariant FirstOpen(jobs, status) == k + FirstOpen(jobs[k..], status)
      {
        if StatusOf(status, jobs[k].id) == InProgress {
          status := status[jobs[k].id := Claimed];
          return Ok(jobs[k]);
        }
        assert jobs[k..][1..] == jobs[k + 1..];
      }
      return Err(NoClaimableJob);
    }

    /** Deletes the `k`-th job of a layer, and drops what becomes empty. */
    method DeleteJob(image: string, layer: string, k: nat)
      requires image in images && layer in images[image] && k < |images[image][layer]|
      modifies this`images
      ensures images == Unfile(old(images), image, layer, k)
    {
      var layers := images[image];
      var left := layers[layer][..k] + layers[layer][k + 1..];
      layers := if |left| == 0 then layers - {layer} else layers[layer := left];
      images := if |layers| == 0 then images - {image} else images[image := layers];
    }

    /** Takes a claimed or cancelled job off its list. */
    method Remove(image: string, layer: string, id: string) returns (failure: Option<Error>)
      modifies this`images
      ensures var removed := RemoveJob(old(images), status, image, layer, id);
              if removed.Ok? then failure.None? && images == removed.value
              else failure == Some(removed.error) && images == old(images)
      ensures forall gc :: Contents(gc) == Step(old(Contents(gc)), Event.Remove(image, layer, id))
    {
      var checked := CheckLayer(images, image, layer);
      if checked.Err? {
        return Some(checked.error);
      }
      var jobs := checked.value;
      for k := 0 to |jobs|
        invariant images == old(images)
        invariant IndexOf(jobs, id) == k + IndexOf(jobs[k..], id)
      {
        if jobs[k].id == id {
          if StatusOf(status, id) != Claimed && StatusOf(status, id) != Cancelled {
            return Some(CannotBeCleaned);
          }
          DeleteJob(image, layer, k);
          return None;
        }
        assert jobs[k..][1..] == jobs[k + 1..];
      }
      return Some(JobNotFound);
    }

    method RemoveImageWithError(image: string) returns (failure: Option<Error>)
      modifies this`images
      ensures failure == if image in old(images) then None else Some(ImageNotFound)
      ensures images == old(images) - {image}
      ensures forall gc :: Contents(gc) == Step(old(Contents(gc)), RemoveImage(image))
    {
      failure := if image in images then None else Some(ImageNotFound);
      images := images - {image};
    }

    /** Notes the jobs of one layer. */
    method NoteJobs(image: string, layer: string, was: map<string, Seen>) returns (mem: map<string, Seen>)
      requires Places(images) && DistinctIds(images) && NotedRight(images, was)
      requires image in images && layer in images[image]
      ensures NotedRight(images, mem) && was.Keys <= mem.Keys
      ensures forall j :: Filed(images, j) && j.image == image && j.layer == layer ==> j.id in mem
    {
      mem := was;
      var jobs := images[image][layer];
      for k := 0 to |jobs|
        invariant mem == Noted(was, jobs[..k])
      {
        assert jobs[..k + 1][..k] == jobs[..k];
        mem := mem[jobs[k].id := Seen(jobs[k].image, jobs[k].created)];
      }
      assert jobs[..|jobs|] == jobs;
      NotedKeys(was, jobs);
      LayerIsFiled(images, image, layer);
      NotedStaysRight(images, was, jobs);
    }

    /** Notes the jobs of one image. */
    method NoteImage(image: string, was: map<string, Seen>) returns (mem: map<string, Seen>)
      requires Places(images) && DistinctIds(images) && NotedRight(images, was) && image in images
      ensures NotedRight(images, mem) && was.Keys <= mem.Keys
      ensures forall j :: Filed(images, j) && j.image == image ==> j.id in mem
    {
      mem := was;
      var todo := images[image].Keys;
      while todo != {}
        invariant todo <= images[image].Keys && NotedRight(images, mem) && was.Keys <= mem.Keys
        invariant forall j :: Filed(images, j) && j.image == image && j.layer !in todo ==> j.id in mem
        decreases todo
      {
        var layer :| layer in todo;
        todo := todo - {layer};
        mem := NoteJobs(image, layer, mem);
      }
    }

    /** What is registered and what is in storage, at one moment. */
    method Snapshot(keys: seq<string>) returns (mem: map<string, Seen>, inStorage: seq<string>)
      requires Places(images) && DistinctIds(images) && Listing(storage, keys)
      ensures SnapshotOf(images, mem) && inStorage == keys
      ensures Step(Contents(Idle), Event.Snapshot(mem, keys)) == Contents(Expiring(mem, inStorage, {}, mem.Keys))
    {
      mem, inStorage := map[], keys;
      var todo := images.Keys;
      while todo != {}
        invariant todo <= images.Keys && NotedRight(images, mem)
        invariant forall j :: Filed(images, j) && j.image !in todo ==> j.id in mem
        decreases todo
      {
        var image :| image in todo;
        todo := todo - {image};
        mem := NoteImage(image, mem);
      }
    }

    /** Deletes what the snapshot holds in storage but not in memory; keeps a list of what is left. */
    method MarkAndSweepStorage(spared: set<string>, inStorage: seq<string>, failing: set<string>)
      returns (kept: seq<string>, ghost es: seq<Event>)
      modifies this`storage
      ensures storage == old(storage) - Deleted(inStorage, spared, failing)
      ensures kept == Kept(inStorage, spared, failing)
      ensures Run(old(Contents(Sweeping(spared, inStorage))), es) == Contents(Sweeping(spared, []))
    {
      kept, es := [], [];
      ghost var start := Contents(Sweeping(spared, inStorage));
      for i := 0 to |inStorage|
        invariant storage == old(storage) - Deleted(inStorage[..i], spared, failing)
        invariant kept == Kept(inStorage[..i], spared, failing)
        invariant Run(start, es) == Contents(Sweeping(spared, inStorage[i..]))
      {
        var id := inStorage[i];
        OneMoreSwept(inStorage, i, spared, failing);
        RunSnoc(start, es, Sweep(id !in failing));
        es := es + [Sweep(id !in failing)];
        if id in spared || id == "" || id in failing {
          kept := kept + [id];
        } else {
          storage := storage - {id};
        }
      }
      assert inStorage[..|inStorage|] == inStorage;
    }

    /** Cancels the images of jobs found expired, and forgets their jobs in the snapshot. A job whose image
        is gone already stays in the snapshot. */
    method CancelExpired(was: map<string, Seen>, expired: set<string>, ghost inStorage: seq<string>)
      returns (mem: map<string, Seen>, ghost cancelled: set<string>, ghost es: seq<Event>)
      modifies this`images
      ensures images == old(images) - ImagesOf(was, expired)
      ensures cancelled == ImagesOf(was, expired) * old(images).Keys && mem.Keys <= was.Keys
      ensures forall id | id in was && id !in mem :: was[id].image in cancelled
      ensures forall id | id in was && id in expired && was[id].image in old(images) :: id !in mem
      ensures Run(old(Contents(Expiring(was, inStorage, {}, was.Keys))), es)
           == Contents(Expiring(mem, inStorage, cancelled, {}))
    {
      mem, es := was, [];
      var todo, done: set<string> := was.Keys, {};
      ghost var start := Contents(Expiring(was, inStorage, {}, was.Keys));
      while todo != {}
        invariant ExpiryOk(old(images), images, was, expired, mem, done, todo)
        invariant Run(start, es) == Contents(Expiring(mem, inStorage, done, todo))
        decreases todo
      {
        var id :| id in todo;
        ExpireKeepsOk(old(images), Contents(Expiring(mem, inStorage, done, todo)), was, expired, id);
        RunSnoc(start, es, Expire(id, id in expired));
        es := es + [Expire(id, id in expired)];
        mem, done := ExpireOne(id, id in expired, mem, done, inStorage, todo);
        todo := todo - {id};
      }
      AllExpired(old(images), images, was, expired, mem, done);
      cancelled := done;
    }

    /** Looks at one job of the snapshot. */
    method ExpireOne(id: string, expired: bool, mem: map<string, Seen>, done: set<string>,
                     ghost inStorage: seq<string>, ghost todo: set<string>)
      returns (mem': map<string, Seen>, done': set<string>)
      requires id in todo && id in mem
      modifies this`images
      ensures Contents(Expiring(mem', inStorage, done', todo - {id}))
           == ExpireStep(old(Contents(Expiring(mem, inStorage, done, todo))), id, expired)
    {
      mem', done' := mem, done;
      var image := mem[id].image;
      if image in done {
        mem' := mem - {id};
      } else if expired {
        var failure := RemoveImageWithError(image);
        if failure.None? {
          done' := done + {image};
          mem' := mem - {id};
        }
      }
    }

    /** The expiry policy, from any snapshot. When the snapshot is up to date, jobs that stay registered stay
        in it and jobs found expired are gone. */
    method MarkAndSweepExpired(was: map<string, Seen>, expired: set<string>, ghost inStorage: seq<string>)
      returns (mem: map<string, Seen>, ghost cancelled: set<string>, ghost es: seq<Event>)
      modifies this`images
      ensures images == old(images) - ImagesOf(was, expired)
      ensures cancelled == ImagesOf(was, expired) * old(images).Keys && mem.Keys <= was.Keys
      ensures Run(old(Contents(Expiring(was, inStorage, {}, was.Keys))), es)
           == Contents(Expiring(mem, inStorage, cancelled, {}))
      ensures Places(old(images)) && SnapshotOf(old(images), was) ==>
                && StillNoted(old(images), images, mem.Keys)
                && forall id | id in was && id in expired :: !Registered(images, id) && id !in mem
    {
      mem, cancelled, es := CancelExpired(was, expired, inStorage);
      if Places(old(images)) && SnapshotOf(old(images), was) {
        forall id | id in was ensures was[id].image in old(images) { assert Registered(old(images), id); }
        ExpiredAreGone(old(images), was, expired, images, mem.Keys);
      }
    }

    /** The policies of one pass, from an up-to-date snapshot: expiry, then storage. */
    method Enforce(was: map<string, Seen>, inStorage: seq<string>, expired: set<string>, failing: set<string>)
      returns (ghost noted: set<string>, ghost es: seq<Event>)
      requires Places(images) && SnapshotOf(images, was) && Listing(storage, inStorage)
      modifies this`images, this`storage
      ensures images == old(images) - ImagesOf(was, expired)
      ensures StillNoted(old(images), images, noted) && noted <= was.Keys && noted !! (was.Keys * expired)
      ensures storage == Swept(old(storage), noted, failing)
      ensures Run(old(Contents(Expiring(was, inStorage, {}, was.Keys))), es) == Contents(Idle)
    {
      ghost var s1 := Contents(Expiring(was, inStorage, {}, was.Keys));
      var mem;
      ghost var cancelled, expiring;
      mem, cancelled, expiring := MarkAndSweepExpired(was, expired, inStorage);
      noted := mem.Keys;
      ghost var s2 := Contents(Sweeping(noted, inStorage));
      var kept;
      ghost var sweeping;
      kept, sweeping := MarkAndSweepStorage(mem.Keys, inStorage, failing);
      es := expiring + [EndExpire] + sweeping + [EndSweep];
      PoliciesAreRun(s1, expiring, s2, sweeping);
    }

    /** One pass of the collector: a snapshot, the expiry policy, then the storage policy. */
    method CollectGarbage(keys: seq<string>, expired: set<string>, failing: set<string>) returns (ghost es: seq<Event>)
      requires Places(images) && DistinctIds(images) && Listing(storage, keys)
      modifies this
      ensures images == old(images) - ExpiredImages(old(images), expired) && status == old(status)
      ensures Collected(old(images), images, old(storage), storage, expired, failing)
      ensures SameVerdict(old(images), expired) ==> GarbageGone(images, old(storage), storage, failing)
      ensures SameVerdict(old(images), expired) && failing == {} && NothingUnbacked(old(images), old(storage)) ==>
                OnlyRegistered(images, storage)
      ensures Contents(Idle) == Run(old(Contents(Idle)), es)
    {
      ghost var s0 := Contents(Idle);
      var was, inStorage := Snapshot(keys);
      ghost var noted, policies := Enforce(was, inStorage, expired, failing);
      es := [Event.Snapshot(was, keys)] + policies;
      RunConcat(s0, [Event.Snapshot(was, keys)], policies);
      RunOne(s0, Event.Snapshot(was, keys));
      ExpiredImagesNoted(s0.images, was, expired);
      PassCollects(s0.images, was, expired, images, noted, s0.storage, storage, failing);
    }
  }

  /** The events of the two policies one after another. */
  lemma {:induction false} PoliciesAreRun(s1: State, a: seq<Event>, s2: State, b: seq<Event>)
    requires Step(Run(s1, a), EndExpire) == s2
    ensures Run(s1, a + [EndExpire] + b + [EndSweep]) == Step(Run(s2, b), EndSweep)
  {
    RunSnoc(s1, a, EndExpire);
    RunConcat(s1, a + [EndExpire], b);
    RunSnoc(s1, a + [EndExpire] + b, EndSweep);
  }

  lemma {:induction false} RunOne(s: State, e: Event)
    ensures Run(s, [e]) == Step(s, e)
  {
    assert [e][..0] == [];
  }

  /** The storage without what is not noted, as far as it can be deleted. */
  function Swept(storage: set<string>, noted: set<string>, failing: set<string>): set<string> {
    set id | id in storage && (id in noted || id == "" || id in failing)
  }

  /** Where the expiry policy stands: the images in `done` were cancelled, the jobs in `todo` are left to do. */
  ghost predicate ExpiryOk(before: Images, images: Images, was: map<string, Seen>, expired: set<string>,
        mem: map<string, Seen>, done: set<string>, todo: set<string>)
  {
    && todo <= mem.Keys <= was.Keys && done <= ImagesOf(was, expired) * before.Keys && images == before - done
    && (forall id | id in mem :: mem[id] == was[id])
    && (forall id | id in was && id !in mem :: was[id].image in done)
    && (forall id | id in was && id in expired && id !in todo :: was[id].image !in images)
    && (forall id | id in was && id in expired && id !in todo && was[id].image in before :: id !in mem)
  }

  lemma {:induction false} ExpireKeepsOk(before: Images, s: State, was: map<string, Seen>, expired: set<string>,
        id: string)
    requires s.gc.Expiring? && ExpiryOk(before, s.images, was, expired, s.gc.mem, s.gc.cancelled, s.gc.todo)
    requires id in s.gc.todo
    ensures var s' := ExpireStep(s, id, id in expired);
            && s'.gc.Expiring? && s'.gc.todo == s.gc.todo - {id}
            && ExpiryOk(before, s'.images, was, expired, s'.gc.mem, s'.gc.cancelled, s'.gc.todo)
  {
  }

  lemma {:induction false} AllExpired(before: Images, images: Images, was: map<string, Seen>, expired: set<string>,
        mem: map<string, Seen>, done: set<string>)
    requires ExpiryOk(before, images, was, expired, mem, done, {})
    ensures images == before - ImagesOf(was, expired) && done == ImagesOf(was, expired) * before.Keys
  {
    assert ImagesOf(was, expired) !! images.Keys;
  }

  /** After the images of expired jobs were dropped, what is registered is noted and what expired is gone. */
  lemma {:induction false} ExpiredAreGone(before: Images, was: map<string, Seen>, expired: set<string>,
        images: Images, noted: set<string>)
    requires Places(before) && SnapshotOf(before, was) && images == before - ImagesOf(was, expired)
    requires forall id | id in was && id !in noted :: was[id].image in ImagesOf(was, expired)
    ensures StillNoted(before, images, noted)
    ensures forall id | id in was && id in expired :: !Registered(images, id)
  {
    forall j | Filed(images, j) ensures Filed(before, j) && j.id in noted && j.id !in expired {
      assert JobsOf(images, j.image, j.layer) == JobsOf(before, j.image, j.layer);
      assert Filed(before, j);
      assert j.id in expired ==> j.image in ImagesOf(was, expired);
    }
  }

  /** The images that have a registered job among these. */
  ghost function ExpiredImages(images: Images, expired: set<string>): set<string> {
    set i | i in images && exists j :: Filed(images, j) && j.image == i && j.id in expired
  }

  /** All jobs of an image are found expired, or none. */
  ghost predicate SameVerdict(images: Images, expired: set<string>) {
    forall j, j' {:trigger Filed(images, j), Filed(images, j')} ::
      Filed(images, j) && Filed(images, j') && j.image == j'.image ==> (j.id in expired <==> j'.id in expired)
  }

  /** What a pass does to the storage: directories of jobs that stay registered stay, those of jobs found
      expired and those of no job go, unless deleting them fails. */
  ghost predicate Collected(before: Images, images: Images, storage: set<string>, storage': set<string>,
        expired: set<string>, failing: set<string>)
  {
    && storage' <= storage
    && (forall id | id in storage && (Registered(images, id) || id == "" || id in failing) :: id in storage')
    && (forall id | id in storage && id != "" && id !in failing ::
          !Registered(before, id) || id in expired ==> id !in storage')
  }

  /** Exactly the directories of registered jobs, and those that cannot be deleted, are left. */
  ghost predicate GarbageGone(images: Images, storage: set<string>, storage': set<string>, failing: set<string>) {
    forall id :: id in storage' <==> id in storage && (Registered(images, id) || id == "" || id in failing)
  }

  /** Every registered job has its directory, and no directory is without a name. */
  ghost predicate NothingUnbacked(images: Images, storage: set<string>) {
    "" !in storage && Backed(images, storage)
  }

  /** The directories are those of the registered jobs. */
  ghost predicate OnlyRegistered(images: Images, storage: set<string>) {
    forall id :: id in storage <==> Registered(images, id)
  }

  lemma {:induction false} ExpiredImagesNoted(images: Images, was: map<string, Seen>, expired: set<string>)
    requires SnapshotOf(images, was)
    ensures images - ImagesOf(was, expired) == images - ExpiredImages(images, expired)
  {
    forall id | id in was ensures exists j :: Filed(images, j) && j.id == id && j.image == was[id].image {
      assert Registered(images, id);
    }
  }

  /** What is noted after the expiry policy and was found expired by the same verdict is still registered. */
  lemma {:induction false} NotedStillRegistered(before: Images, was: map<string, Seen>, expired: set<string>,
        images: Images, id: string)
    requires SnapshotOf(before, was) && images == before - ImagesOf(was, expired) && SameVerdict(before, expired)
    requires id in was && id !in expired
    ensures Registered(images, id)
  {
    assert Registered(before, id);
    var j :| Filed(before, j) && j.id == id;
    forall x | x in was && x in expired ensures was[x].image != j.image {
      assert Registered(before, x);
    }
    assert j.image !in ImagesOf(was, expired);
    assert Filed(images, j);
  }

  lemma {:induction false} PassCollects(before: Images, was: map<string, Seen>, expired: set<string>, images: Images,
        noted: set<string>, storage: set<string>, storage': set<string>, failing: set<string>)
    requires SnapshotOf(before, was) && images == before - ImagesOf(was, expired)
    requires StillNoted(before, images, noted) && noted <= was.Keys && noted !! (was.Keys * expired)
    requires storage' == Swept(storage, noted, failing)
    ensures Collected(before, images, storage, storage', expired, failing)
    ensures SameVerdict(before, expired) ==> GarbageGone(images, storage, storage', failing)
    ensures SameVerdict(before, expired) && failing == {} && NothingUnbacked(before, storage) ==>
              OnlyRegistered(images, storage')
  {
    if SameVerdict(before, expired) {
      forall id | id in noted ensures Registered(images, id) {
        NotedStillRegistered(before, was, expired, images, id);
      }
    }
  }

  /** The images of those jobs of a snapshot. */
  function ImagesOf(mem: map<string, Seen>, ids: set<string>): set<string> {
    set id | id in mem && id in ids :: mem[id].image
  }

  /** What is registered was registered before and is noted. */
  ghost predicate StillNoted(before: Images, images: Images, noted: set<string>) {
    Places(images) && forall j {:trigger Filed(images, j)} :: Filed(images, j) ==> Filed(before, j) && j.id in noted
  }
}
