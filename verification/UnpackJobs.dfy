/**
 The registry of layer unpack jobs and its garbage collector, as a machine whose steps are the critical
 sections under the registry's mutex and the single steps of the collector's two policies. The collector
 works from a snapshot that may be stale by the time it is used.
 */
module UnpackJobs {
  import opened Base

  const MAX_KEY_TRIES := 10

  datatype Status = InProgress | Claimed | Done | Failed | Cancelled

  datatype Job = Job(id: string, image: string, layer: string, created: int)

  type Images = map<string, map<string, seq<Job>>>

  datatype Error = ImageNotFound | ImageHasNoLayers | LayerHasNoJobs | NoClaimableJob | JobNotFound | CannotBeCleaned

  datatype Result<T> = Ok(value: T) | Err(error: Error)

  // ---------------------------------------------------------- the registry

  /** The first usable key of those drawn. */
  function PickKey(storage: set<string>, drawn: seq<string>, tries: nat): Option<string> {
    if tries == 0 || drawn == [] then None
    else if drawn[0] != "" && drawn[0] !in storage then Some(drawn[0])
    else PickKey(storage, drawn[1..], tries - 1)
  }

  function JobsOf(images: Images, image: string, layer: string): seq<Job> {
    if image in images && layer in images[image] then images[image][layer] else []
  }

  function CheckLayer(images: Images, image: string, layer: string): Result<seq<Job>> {
    if image !in images then Err(ImageNotFound)
    else if images[image] == map[] then Err(ImageHasNoLayers)
    else if JobsOf(images, image, layer) == [] then Err(LayerHasNoJobs)
    else Ok(JobsOf(images, image, layer))
  }

  /** Appends a job to the list of its layer. */
  function AddJob(images: Images, j: Job): Images
    requires j.image in images
  {
    images[j.image := images[j.image][j.layer := JobsOf(images, j.image, j.layer) + [j]]]
  }

  /** Index of the first job with this identifier, or the length of the list. */
  function IndexOf(jobs: seq<Job>, id: string): nat {
    if jobs == [] || jobs[0].id == id then 0 else 1 + IndexOf(jobs[1..], id)
  }

  /** Index of the first job that can be claimed, or the length of the list. */
  function FirstOpen(jobs: seq<Job>, status: map<string, Status>): nat {
    if jobs == [] || StatusOf(status, jobs[0].id) == InProgress then 0 else 1 + FirstOpen(jobs[1..], status)
  }

  function StatusOf(status: map<string, Status>, id: string): Status {
    if id in status then status[id] else Done
  }

  function ClaimJob(images: Images, status: map<string, Status>, image: string, layer: string): Result<Job> {
    var checked := CheckLayer(images, image, layer);
    if checked.Err? then Err(checked.error)
    else
      var k := FirstOpen(checked.value, status);
      if k < |checked.value| then Ok(checked.value[k]) else Err(NoClaimableJob)
  }

  /** Takes the `k`-th job off its list; empty lists and images without lists disappear. */
  function Unfile(images: Images, image: string, layer: string, k: nat): Images
    requires k < |JobsOf(images, image, layer)|
  {
    var jobs := JobsOf(images, image, layer);
    var left := jobs[..k] + jobs[k + 1..];
    var layers := if left == [] then images[image] - {layer} else images[image][layer := left];
    if layers == map[] then images - {image} else images[image := layers]
  }

  function RemoveJob(images: Images, status: map<string, Status>, image: string, layer: string,
        id: string): Result<Images> {
    var checked := CheckLayer(images, image, layer);
    if checked.Err? then Err(checked.error)
    else
      var k := IndexOf(checked.value, id);
      if k >= |checked.value| then Err(JobNotFound)
      else if StatusOf(status, id) != Claimed && StatusOf(status, id) != Cancelled then Err(CannotBeCleaned)
      else Ok(Unfile(images, image, layer, k))
  }

  // ------------------------------------------------ what is filed where

  predicate Filed(images: Images, j: Job) {
    j in JobsOf(images, j.image, j.layer)
  }

  ghost predicate Registered(images: Images, id: string) {
    exists j :: Filed(images, j) && j.id == id
  }

  /** The jobs of one layer: at least one, filed under its own image and layer, none twice. */
  predicate ListOk(jobs: seq<Job>, image: string, layer: string) {
    && jobs != []
    && (forall k :: 0 <= k < |jobs| ==> jobs[k].image == image && jobs[k].layer == layer)
    && (forall a, b :: 0 <= a < b < |jobs| ==> jobs[a].id != jobs[b].id)
  }

  ghost predicate Places(images: Images) {
    forall i, l {:trigger images[i][l]} :: i in images && l in images[i] ==> ListOk(images[i][l], i, l)
  }

  ghost predicate DistinctIds(images: Images) {
    forall j, j' {:trigger Filed(images, j), Filed(images, j')} ::
      Filed(images, j) && Filed(images, j') && j.id == j'.id ==> j == j'
  }

  ghost predicate Backed(images: Images, storage: set<string>) {
    forall j {:trigger Filed(images, j)} :: Filed(images, j) ==> j.id in storage
  }

  lemma {:induction false} AddJobFiled(images: Images, n: Job)
    requires n.image in images
    ensures forall j :: Filed(AddJob(images, n), j) <==> Filed(images, j) || j == n
  {
    forall j ensures Filed(AddJob(images, n), j) <==> Filed(images, j) || j == n {
      if j.image == n.image && j.layer == n.layer {
        assert JobsOf(AddJob(images, n), j.image, j.layer) == JobsOf(images, j.image, j.layer) + [n];
      } else {
        assert JobsOf(AddJob(images, n), j.image, j.layer) == JobsOf(images, j.image, j.layer);
      }
    }
  }

  lemma {:induction false} AddJobPlaces(images: Images, n: Job)
    requires Places(images) && n.image in images && forall j :: Filed(images, j) ==> j.id != n.id
    ensures Places(AddJob(images, n))
  {
    var jobs := JobsOf(images, n.image, n.layer);
    forall k | 0 <= k < |jobs| ensures jobs[k].id != n.id {
      assert images[n.image][n.layer][k] == jobs[k];
      assert Filed(images, jobs[k]);
    }
  }

  /** The list of a layer without its `k`-th job. */
  lemma {:induction false} UnfileJobs(images: Images, image: string, layer: string, k: nat, i: string, l: string)
    requires Places(images) && k < |JobsOf(images, image, layer)|
    ensures JobsOf(Unfile(images, image, layer, k), i, l) ==
      if i == image && l == layer then JobsOf(images, i, l)[..k] + JobsOf(images, i, l)[k + 1..]
      else JobsOf(images, i, l)
  {
    var jobs := JobsOf(images, image, layer);
    var left := jobs[..k] + jobs[k + 1..];
    var layers := if left == [] then images[image] - {layer} else images[image][layer := left];
    if left != [] {
      assert layer in layers;
    } else if i == image && l != layer && l in images[image] {
      assert l in layers;
    }
  }

  lemma {:induction false} UnfileFiled(images: Images, image: string, layer: string, k: nat)
    requires Places(images) && k < |JobsOf(images, image, layer)|
    ensures forall j :: Filed(Unfile(images, image, layer, k), j) <==>
        Filed(images, j) && j != JobsOf(images, image, layer)[k]
  {
    var gone := JobsOf(images, image, layer)[k];
    assert gone == images[image][layer][k];
    forall j ensures Filed(Unfile(images, image, layer, k), j) <==> Filed(images, j) && j != gone {
      UnfileJobs(images, image, layer, k, j.image, j.layer);
      if j.image == image && j.layer == layer {
        WithoutKth(images[image][layer], k, j);
      }
    }
  }

  lemma {:induction false} WithoutKth(jobs: seq<Job>, k: nat, j: Job)
    requires k < |jobs| && forall a, b :: 0 <= a < b < |jobs| ==> jobs[a].id != jobs[b].id
    ensures j in jobs[..k] + jobs[k + 1..] <==> j in jobs && j != jobs[k]
  {
    var left := jobs[..k] + jobs[k + 1..];
    if j in jobs && j != jobs[k] {
      var a :| 0 <= a < |jobs| && jobs[a] == j;
      assert j == left[if a < k then a else a - 1];
    }
  }

  lemma {:induction false} ShorterListOk(jobs: seq<Job>, image: string, layer: string, k: nat)
    requires ListOk(jobs, image, layer) && k < |jobs| && |jobs| > 1
    ensures ListOk(jobs[..k] + jobs[k + 1..], image, layer)
  {
    var left := jobs[..k] + jobs[k + 1..];
    forall a | 0 <= a < |left| ensures left[a] == jobs[if a < k then a else a + 1] {
    }
  }

  lemma {:induction false} UnfilePlaces(images: Images, image: string, layer: string, k: nat)
    requires Places(images) && k < |JobsOf(images, image, layer)|
    ensures Places(Unfile(images, image, layer, k))
  {
    var images' := Unfile(images, image, layer, k);
    forall i, l | i in images' && l in images'[i] ensures ListOk(images'[i][l], i, l) {
      UnfileJobs(images, image, layer, k, i, l);
      assert ListOk(images[i][l], i, l);
      if i == image && l == layer {
        ShorterListOk(images[i][l], i, l, k);
      }
    }
  }

  lemma {:induction false} DropImage(images: Images, image: string)
    requires Places(images)
    ensures Places(images - {image})
    ensures forall j :: Filed(images - {image}, j) <==> Filed(images, j) && j.image != image
  {
  }

  // ------------------------------------------------------- the collector

  datatype Seen = Seen(image: string, created: int)

  datatype Collector =
    | Idle
    | Expiring(mem: map<string, Seen>, inStorage: seq<string>, cancelled: set<string>, todo: set<string>)
    | Sweeping(spared: set<string>, left: seq<string>)

  datatype State = State(images: Images, status: map<string, Status>, storage: set<string>, gc: Collector)

  const INIT := State(map[], map[], {}, Idle)

  /** The jobs a snapshot holds. */
  ghost predicate SnapshotOf(images: Images, mem: map<string, Seen>) {
    && (forall id | id in mem :: Registered(images, id))
    && (forall j {:trigger Filed(images, j)} ::
         Filed(images, j) ==> j.id in mem && mem[j.id] == Seen(j.image, j.created))
  }

  predicate NoDups(ids: seq<string>) {
    forall a, b :: 0 <= a < b < |ids| ==> ids[a] != ids[b]
  }

  /** The directory listing of the storage, in some order. */
  ghost predicate Listing(storage: set<string>, keys: seq<string>) {
    NoDups(keys) && forall id :: id in keys <==> id in storage
  }

  datatype Event =
    | AddImage(image: string)
    | AddLayer(image: string, layer: string, created: int, drawn: seq<string>, mkdirOk: bool)
    | Claim(image: string, layer: string)
    | SetStatus(id: string, status: Status)
    | Remove(image: string, layer: string, id: string)
    | RemoveImage(image: string)
    | Snapshot(mem: map<string, Seen>, keys: seq<string>)
    | Expire(id: string, expired: bool)
    | EndExpire
    | Sweep(deleteOk: bool)
    | EndSweep

  /** A new job gets an unused directory; a job whose image is gone is created but filed nowhere. */
  function AddLayerStep(s: State, e: Event): State
    requires e.AddLayer?
  {
    var key := PickKey(s.storage, e.drawn, MAX_KEY_TRIES);
    if key.None? || !e.mkdirOk then s
    else
      var s1 := s.(storage := s.storage + {key.value}, status := s.status[key.value := InProgress]);
      if e.image !in s.images then s1
      else s1.(images := AddJob(s.images, Job(key.value, e.image, e.layer, e.created)))
  }

  function ExpireStep(s: State, id: string, expired: bool): State {
    if !s.gc.Expiring? || id !in s.gc.todo || id !in s.gc.mem then s
    else
      var gc := s.gc.(todo := s.gc.todo - {id});
      var image := gc.mem[id].image;
      if image in gc.cancelled then s.(gc := gc.(mem := gc.mem - {id}))
      else if expired && image in s.images then
        s.(images := s.images - {image}, gc := gc.(mem := gc.mem - {id}, cancelled := gc.cancelled + {image}))
      else s.(gc := gc)
  }

  function SweepStep(s: State, deleteOk: bool): State {
    if !s.gc.Sweeping? || s.gc.left == [] then s
    else
      var id := s.gc.left[0];
      var s1 := s.(gc := s.gc.(left := s.gc.left[1..]));
      if id in s.gc.spared || id == "" || !deleteOk then s1 else s1.(storage := s.storage - {id})
  }

  ghost function Step(s: State, e: Event): State {
    match e
    case AddImage(image) => if image in s.images then s else s.(images := s.images[image := map[]])
    case AddLayer(_, _, _, _, _) => AddLayerStep(s, e)
    case Claim(image, layer) =>
      var claimed := ClaimJob(s.images, s.status, image, layer);
      if claimed.Ok? then s.(status := s.status[claimed.value.id := Claimed]) else s
    case SetStatus(id, status) => if status != InProgress then s.(status := s.status[id := status]) else s
    case Remove(image, layer, id) =>
      var removed := RemoveJob(s.images, s.status, image, layer, id);
      if removed.Ok? then s.(images := removed.value) else s
    case RemoveImage(image) => s.(images := s.images - {image})
    case Snapshot(mem, keys) =>
      if s.gc.Idle? && SnapshotOf(s.images, mem) && Listing(s.storage, keys)
      then s.(gc := Expiring(mem, keys, {}, mem.Keys)) else s
    case Expire(id, expired) => ExpireStep(s, id, expired)
    case EndExpire =>
      if s.gc.Expiring? && s.gc.todo == {} then s.(gc := Sweeping(s.gc.mem.Keys, s.gc.inStorage)) else s
    case Sweep(deleteOk) => SweepStep(s, deleteOk)
    case EndSweep => if s.gc.Sweeping? && s.gc.left == [] then s.(gc := Idle) else s
  }

  ghost function Run(s: State, es: seq<Event>): State {
    if es == [] then s else Step(Run(s, es[..|es| - 1]), es[|es| - 1])
  }

  // -------------------------------------------------------- the invariant

  /** Identifiers still to be looked at that are registered are spared, and jobs of cancelled images are gone. */
  ghost predicate CollectorOk(images: Images, storage: set<string>, gc: Collector) {
    match gc
    case Idle => true
    case Expiring(mem, inStorage, cancelled, _) =>
      && NoDups(inStorage) && (forall id :: id in inStorage ==> id in storage)
      && (forall id | id in mem :: id in storage && id in inStorage)
      && (forall j {:trigger Filed(images, j)} :: Filed(images, j) && j.id in inStorage ==> j.id in mem)
      && (forall j {:trigger Filed(images, j)} :: Filed(images, j) && j.id in mem ==>
            mem[j.id].image == j.image && j.image !in cancelled)
    case Sweeping(spared, left) =>
      && NoDups(left) && (forall id :: id in left ==> id in storage) && spared <= storage
      && (forall j {:trigger Filed(images, j)} :: Filed(images, j) && j.id in left ==> j.id in spared)
  }

  ghost predicate Inv(s: State) {
    && Places(s.images) && DistinctIds(s.images) && Backed(s.images, s.storage) && "" !in s.storage
    && CollectorOk(s.images, s.storage, s.gc)
  }

  lemma {:induction false} PickedKeyIsNew(storage: set<string>, drawn: seq<string>, tries: nat)
    ensures PickKey(storage, drawn, tries).Some? ==>
      PickKey(storage, drawn, tries).value !in storage && PickKey(storage, drawn, tries).value != ""
  {
    if tries != 0 && drawn != [] { PickedKeyIsNew(storage, drawn[1..], tries - 1); }
  }

  lemma {:induction false} NewDirectoryKeepsInv(s: State, id: string)
    requires Inv(s) && id != ""
    ensures Inv(s.(storage := s.storage + {id}, status := s.status[id := InProgress]))
  {
  }

  lemma {:induction false} NewJobKeepsInv(s: State, n: Job)
    requires Inv(s) && n.id !in s.storage && n.id != "" && n.image in s.images
    ensures Inv(s.(storage := s.storage + {n.id}, status := s.status[n.id := InProgress],
                   images := AddJob(s.images, n)))
  {
    AddJobFiled(s.images, n);
    AddJobPlaces(s.images, n);
  }

  lemma {:induction false} AddLayerKeepsInv(s: State, e: Event)
    requires Inv(s) && e.AddLayer?
    ensures Inv(AddLayerStep(s, e))
  {
    PickedKeyIsNew(s.storage, e.drawn, MAX_KEY_TRIES);
    var key := PickKey(s.storage, e.drawn, MAX_KEY_TRIES);
    if key.Some? && e.mkdirOk {
      if e.image in s.images {
        NewJobKeepsInv(s, Job(key.value, e.image, e.layer, e.created));
      } else {
        NewDirectoryKeepsInv(s, key.value);
      }
    }
  }

  /** Fewer jobs are registered, nothing else changes. */
  lemma {:induction false} FewerJobsKeepInv(s: State, images: Images)
    requires Inv(s) && Places(images) && forall j :: Filed(images, j) ==> Filed(s.images, j)
    ensures Inv(s.(images := images))
  {
  }

  lemma {:induction false} IndexOfFinds(jobs: seq<Job>, id: string)
    ensures IndexOf(jobs, id) <= |jobs|
    ensures IndexOf(jobs, id) < |jobs| ==> jobs[IndexOf(jobs, id)].id == id
    ensures IndexOf(jobs, id) == |jobs| ==> forall k :: 0 <= k < |jobs| ==> jobs[k].id != id
  {
    if jobs != [] { IndexOfFinds(jobs[1..], id); }
  }

  lemma {:induction false} RemoveKeepsInv(s: State, image: string, layer: string, id: string)
    requires Inv(s)
    ensures Inv(Step(s, Remove(image, layer, id)))
  {
    var removed := RemoveJob(s.images, s.status, image, layer, id);
    if removed.Ok? {
      var k := IndexOf(JobsOf(s.images, image, layer), id);
      UnfileFiled(s.images, image, layer, k);
      UnfilePlaces(s.images, image, layer, k);
      FewerJobsKeepInv(s, removed.value);
    }
  }

  /** Forgetting an identifier that is not registered keeps the collector's part. */
  lemma {:induction false} ForgetKeepsCollector(images: Images, storage: set<string>, gc: Collector, id: string,
        cancelled: set<string>)
    requires gc.Expiring? && CollectorOk(images, storage, gc)
    requires forall j {:trigger Filed(images, j)} ::
        Filed(images, j) && j.id in gc.mem ==> j.id != id && j.image !in cancelled
    ensures CollectorOk(images, storage,
                        Expiring(gc.mem - {id}, gc.inStorage, gc.cancelled + cancelled, gc.todo - {id}))
  {
  }

  lemma {:induction false} ExpireKeepsInv(s: State, id: string, expired: bool)
    requires Inv(s)
    ensures Inv(ExpireStep(s, id, expired))
  {
    if s.gc.Expiring? && id in s.gc.todo && id in s.gc.mem {
      var image := s.gc.mem[id].image;
      if image in s.gc.cancelled {
        ForgetKeepsCollector(s.images, s.storage, s.gc, id, {});
        assert s.gc.cancelled + {} == s.gc.cancelled;
      } else if expired && image in s.images {
        DropImage(s.images, image);
        FewerJobsKeepInv(s, s.images - {image});
        ForgetKeepsCollector(s.images - {image}, s.storage, s.gc, id, {image});
      }
    }
  }

  lemma {:induction false} SweepKeepsInv(s: State, deleteOk: bool)
    requires Inv(s)
    ensures Inv(SweepStep(s, deleteOk))
  {
    if s.gc.Sweeping? && s.gc.left != [] {
      var left := s.gc.left;
      assert forall id :: id in left[1..] ==> id in left && id != left[0];
    }
  }

  lemma {:induction false} AddImageKeepsInv(s: State, image: string)
    requires Inv(s)
    ensures Inv(Step(s, AddImage(image)))
  {
    if image !in s.images {
      var images := s.images[image := map[]];
      assert forall i, l :: JobsOf(images, i, l) == JobsOf(s.images, i, l);
      FewerJobsKeepInv(s, images);
    }
  }

  lemma {:induction false} StepKeepsInv(s: State, e: Event)
    requires Inv(s)
    ensures Inv(Step(s, e))
  {
    match e
    case AddImage(image) => AddImageKeepsInv(s, image);
    case AddLayer(_, _, _, _, _) => AddLayerKeepsInv(s, e);
    case Remove(image, layer, id) => RemoveKeepsInv(s, image, layer, id);
    case RemoveImage(image) => DropImage(s.images, image);
    case Expire(id, expired) => ExpireKeepsInv(s, id, expired);
    case Sweep(deleteOk) => SweepKeepsInv(s, deleteOk);
    case Snapshot(mem, keys) => SnapshotKeepsInv(s, mem, keys);
    case Claim(image, layer) =>
    case SetStatus(id, status) =>
    case EndExpire =>
    case EndSweep =>
  }

  lemma {:induction false} SnapshotKeepsInv(s: State, mem: map<string, Seen>, keys: seq<string>)
    requires Inv(s)
    ensures Inv(Step(s, Snapshot(mem, keys)))
  {
    if s.gc.Idle? && SnapshotOf(s.images, mem) && Listing(s.storage, keys) {
      forall id | id in mem ensures id in s.storage {
        assert Registered(s.images, id);
      }
    }
  }

  lemma {:induction false} EveryRunKeepsInv(es: seq<Event>)
    ensures Inv(Run(INIT, es))
  {
    if es != [] {
      EveryRunKeepsInv(es[..|es| - 1]);
      StepKeepsInv(Run(INIT, es[..|es| - 1]), es[|es| - 1]);
    }
  }

  // ------------------------------------------------------- main theorems

  /** Whatever happens next, the directory of a job that is registered now stays. */
  lemma {:induction false} StorageOfRegisteredJobStays(es: seq<Event>, e: Event, j: Job)
    requires Filed(Run(INIT, es).images, j)
    ensures j.id in Run(INIT, es).storage && j.id in Step(Run(INIT, es), e).storage
  {
    EveryRunKeepsInv(es);
    SparesRegistered(Run(INIT, es), e, j);
  }

  lemma {:induction false} SparesRegistered(s: State, e: Event, j: Job)
    requires Inv(s) && Filed(s.images, j)
    ensures j.id in s.storage && j.id in Step(s, e).storage
  {
    if e.Sweep? && s.gc.Sweeping? && s.gc.left != [] {
      assert s.gc.left[0] in s.gc.left;
    }
  }

  /** An identifier stands in one place of the registry, under the image and layer of its job. */
  lemma {:induction false} OnePlacePerId(es: seq<Event>, i: string, l: string, a: nat, i': string, l': string, b: nat)
    requires var images := Run(INIT, es).images;
             && a < |JobsOf(images, i, l)| && b < |JobsOf(images, i', l')|
             && JobsOf(images, i, l)[a].id == JobsOf(images, i', l')[b].id
    ensures i == i' && l == l' && a == b
    ensures JobsOf(Run(INIT, es).images, i, l)[a].image == i && JobsOf(Run(INIT, es).images, i, l)[a].layer == l
  {
    EveryRunKeepsInv(es);
    var images := Run(INIT, es).images;
    assert ListOk(images[i][l], i, l) && ListOk(images[i'][l'], i', l');
    assert Filed(images, images[i][l][a]) && Filed(images, images[i'][l'][b]);
  }

  /** The job is registered before, during and after the events. */
  ghost predicate FiledThroughout(s: State, es: seq<Event>, j: Job) {
    Filed(Run(s, es).images, j) && (es == [] || FiledThroughout(s, es[..|es| - 1], j))
  }

  lemma {:induction false} StepKeepsTaken(s: State, e: Event, j: Job)
    requires Inv(s) && Filed(s.images, j) && StatusOf(s.status, j.id) != InProgress
    ensures StatusOf(Step(s, e).status, j.id) != InProgress
  {
    if e.AddLayer? { PickedKeyIsNew(s.storage, e.drawn, MAX_KEY_TRIES); }
  }

  lemma {:induction false} StaysTaken(s: State, es: seq<Event>, j: Job)
    requires Inv(s) && FiledThroughout(s, es, j) && StatusOf(s.status, j.id) != InProgress
    ensures Inv(Run(s, es)) && StatusOf(Run(s, es).status, j.id) != InProgress
  {
    if es != [] {
      StaysTaken(s, es[..|es| - 1], j);
      StepKeepsInv(Run(s, es[..|es| - 1]), es[|es| - 1]);
      StepKeepsTaken(Run(s, es[..|es| - 1]), es[|es| - 1], j);
    }
  }

  lemma {:induction false} FirstOpenIsOpen(jobs: seq<Job>, status: map<string, Status>)
    ensures FirstOpen(jobs, status) <= |jobs|
    ensures FirstOpen(jobs, status) < |jobs| ==> StatusOf(status, jobs[FirstOpen(jobs, status)].id) == InProgress
    ensures forall k :: 0 <= k < FirstOpen(jobs, status) ==> StatusOf(status, jobs[k].id) != InProgress
  {
    if jobs != [] { FirstOpenIsOpen(jobs[1..], status); }
  }

  lemma {:induction false} ClaimedJobIsFiled(s: State, image: string, layer: string)
    requires Inv(s) && ClaimJob(s.images, s.status, image, layer).Ok?
    ensures var j := ClaimJob(s.images, s.status, image, layer).value;
            Filed(s.images, j) && j.image == image && j.layer == layer && StatusOf(s.status, j.id) == InProgress
  {
    var jobs := JobsOf(s.images, image, layer);
    FirstOpenIsOpen(jobs, s.status);
    assert ListOk(s.images[image][layer], image, layer);
  }

  /** A job handed out by a claim is not handed out again as long as it is registered. */
  lemma {:induction false} ClaimIsExclusive(before: seq<Event>, image: string, layer: string, after: seq<Event>,
        image': string, layer': string)
    requires ClaimJob(Run(INIT, before).images, Run(INIT, before).status, image, layer).Ok?
    requires var s := Run(INIT, before);
             FiledThroughout(Step(s, Claim(image, layer)), after, ClaimJob(s.images, s.status, image, layer).value)
    ensures var s := Run(INIT, before);
            var s' := Run(Step(s, Claim(image, layer)), after);
            var again := ClaimJob(s'.images, s'.status, image', layer');
            again.Ok? ==> again.value.id != ClaimJob(s.images, s.status, image, layer).value.id
  {
    var s := Run(INIT, before);
    EveryRunKeepsInv(before);
    var j := ClaimJob(s.images, s.status, image, layer).value;
    var s1 := Step(s, Claim(image, layer));
    StepKeepsInv(s, Claim(image, layer));
    StaysTaken(s1, after, j);
    var s' := Run(s1, after);
    if ClaimJob(s'.images, s'.status, image', layer').Ok? {
      ClaimedJobIsFiled(s', image', layer');
    }
  }

  /** A claim fails exactly when no job of the layer is in progress. */
  lemma {:induction false} ClaimFindsOpenJob(s: State, image: string, layer: string)
    requires Inv(s)
    ensures ClaimJob(s.images, s.status, image, layer).Ok? <==>
      exists j :: Filed(s.images, j) && j.image == image && j.layer == layer && StatusOf(s.status, j.id) == InProgress
  {
    var jobs := JobsOf(s.images, image, layer);
    FirstOpenIsOpen(jobs, s.status);
    if ClaimJob(s.images, s.status, image, layer).Ok? {
      ClaimedJobIsFiled(s, image, layer);
    } else if j :|
        Filed(s.images, j) && j.image == image && j.layer == layer && StatusOf(s.status, j.id) == InProgress {
      assert j in jobs;
    }
  }

  /** A job is removed exactly when it is registered and was claimed or cancelled. */
  lemma {:induction false} RemoveSucceedsIffTaken(s: State, j: Job)
    requires Inv(s)
    ensures RemoveJob(s.images, s.status, j.image, j.layer, j.id).Ok? <==>
      && (exists x :: Filed(s.images, x) && x.image == j.image && x.layer == j.layer && x.id == j.id)
      && (StatusOf(s.status, j.id) == Claimed || StatusOf(s.status, j.id) == Cancelled)
  {
    var jobs := JobsOf(s.images, j.image, j.layer);
    IndexOfFinds(jobs, j.id);
    var k := IndexOf(jobs, j.id);
    if k < |jobs| {
      assert ListOk(s.images[j.image][j.layer], j.image, j.layer);
      assert Filed(s.images, jobs[k]) && jobs[k].image == j.image && jobs[k].layer == j.layer && jobs[k].id == j.id;
    }
  }

  /** Drawing gives the first key, of those drawn in the allowed tries, that is not empty and not in use. */
  lemma {:induction false} PicksFirstNewKey(storage: set<string>, drawn: seq<string>, tries: nat, key: string)
    ensures PickKey(storage, drawn, tries) == Some(key) <==>
      exists k: nat :: k < tries && FirstNewAt(storage, drawn, k, key)
  {
    if tries != 0 && drawn != [] {
      PicksFirstNewKey(storage, drawn[1..], tries - 1, key);
      if drawn[0] != "" && drawn[0] !in storage {
        assert FirstNewAt(storage, drawn, 0, drawn[0]);
      } else {
        NewLater(storage, drawn, tries, key);
      }
    }
  }

  /** Key `k` is usable and no key drawn before it is. */
  predicate FirstNewAt(storage: set<string>, drawn: seq<string>, k: nat, key: string) {
    && k < |drawn| && drawn[k] == key && key != "" && key !in storage
    && (forall i :: 0 <= i < k ==> drawn[i] == "" || drawn[i] in storage)
  }

  lemma {:induction false} NewLater(storage: set<string>, drawn: seq<string>, tries: nat, key: string)
    requires tries > 0 && drawn != [] && (drawn[0] == "" || drawn[0] in storage)
    ensures (exists k: nat :: k < tries - 1 && FirstNewAt(storage, drawn[1..], k, key)) <==>
      exists k: nat :: k < tries && FirstNewAt(storage, drawn, k, key)
  {
    var rest := drawn[1..];
    forall k: nat ensures FirstNewAt(storage, rest, k, key) <==> FirstNewAt(storage, drawn, k + 1, key) {
      assert forall i :: 0 <= i < |rest| ==> rest[i] == drawn[i + 1];
      assert forall i :: 1 <= i < |drawn| ==> drawn[i] == rest[i - 1];
    }
    if k: nat :| k < tries && FirstNewAt(storage, drawn, k, key) {
      assert FirstNewAt(storage, rest, k - 1, key);
    }
  }

  /** A layer gets a job exactly when one of ten keys drawn is usable and its directory can be made. The job
      stands last on its layer's list, where its image is registered, and can be claimed. */
  lemma {:induction false} AddedJobCanBeClaimed(es: seq<Event>, e: Event, k: nat, id: string)
    requires e.AddLayer? && k < 10 && FirstNewAt(Run(INIT, es).storage, e.drawn, k, id) && e.mkdirOk
    ensures var s, s' := Run(INIT, es), Step(Run(INIT, es), e);
            && s'.storage == s.storage + {id} && StatusOf(s'.status, id) == InProgress
            && (e.image in s.images ==>
                  && JobsOf(s'.images, e.image, e.layer) ==
                       JobsOf(s.images, e.image, e.layer) + [Job(id, e.image, e.layer, e.created)]
                  && ClaimJob(s'.images, s'.status, e.image, e.layer).Ok?)
            && (e.image !in s.images ==> s'.images == s.images)
  {
    var s := Run(INIT, es);
    EveryRunKeepsInv(es);
    StepKeepsInv(s, e);
    PicksFirstNewKey(s.storage, e.drawn, MAX_KEY_TRIES, id);
    if e.image in s.images {
      var j := Job(id, e.image, e.layer, e.created);
      AddJobFiled(s.images, j);
      ClaimFindsOpenJob(Step(s, e), e.image, e.layer);
    }
  }

  /** Without a usable key among ten, or a directory, nothing changes. */
  lemma {:induction false} NoKeyNoJob(s: State, e: Event)
    requires e.AddLayer?
    requires e.mkdirOk ==> forall k :: 0 <= k < 10 && k < |e.drawn| ==> e.drawn[k] == "" || e.drawn[k] in s.storage
    ensures Step(s, e) == s
  {
    var key := PickKey(s.storage, e.drawn, MAX_KEY_TRIES);
    if key.Some? { PicksFirstNewKey(s.storage, e.drawn, MAX_KEY_TRIES, key.value); }
  }

  /** A claimed job can be removed right away, and so can a cancelled one; no other job leaves with it. */
  lemma {:induction false} TakenJobCanBeRemoved(es: seq<Event>, e: Event, j: Job)
    requires var s := Run(INIT, es);
             || (e.Claim? && ClaimJob(s.images, s.status, e.image, e.layer) == Ok(j))
             || (e == SetStatus(j.id, Cancelled) && Filed(s.images, j))
    ensures var s := Run(INIT, es);
            var s' := Step(Step(s, e), Remove(j.image, j.layer, j.id));
            forall x :: Filed(s'.images, x) <==> Filed(s.images, x) && x != j
  {
    var s := Run(INIT, es);
    EveryRunKeepsInv(es);
    if e.Claim? { ClaimedJobIsFiled(s, e.image, e.layer); }
    StepKeepsInv(s, e);
    RemoveTakesTheJob(Step(s, e), j);
  }

  lemma {:induction false} RemoveTakesTheJob(s: State, j: Job)
    requires Inv(s) && Filed(s.images, j) && StatusOf(s.status, j.id) in {Claimed, Cancelled}
    ensures var s' := Step(s, Remove(j.image, j.layer, j.id));
            forall x :: Filed(s'.images, x) <==> Filed(s.images, x) && x != j
  {
    RemoveSucceedsIffTaken(s, j);
    var jobs := JobsOf(s.images, j.image, j.layer);
    IndexOfFinds(jobs, j.id);
    var k := IndexOf(jobs, j.id);
    assert ListOk(s.images[j.image][j.layer], j.image, j.layer);
    assert Filed(s.images, jobs[k]);
    UnfileFiled(s.images, j.image, j.layer, k);
  }

  lemma {:induction false} ClaimedIsOpen(s: State, image: string, layer: string)
    requires Inv(s)
    ensures var r := ClaimJob(s.images, s.status, image, layer); r.Ok? ==> StatusOf(s.status, r.value.id) == InProgress
  {
    if ClaimJob(s.images, s.status, image, layer).Ok? { ClaimedJobIsFiled(s, image, layer); }
  }

  /** A job that is done or has failed can be neither claimed nor removed. */
  lemma {:induction false} FinishedJobCannotBeRemoved(es: seq<Event>, j: Job, status: Status)
    requires Filed(Run(INIT, es).images, j) && status in {Done, Failed}
    ensures var s' := Step(Run(INIT, es), SetStatus(j.id, status));
            && RemoveJob(s'.images, s'.status, j.image, j.layer, j.id) == Err(CannotBeCleaned)
            && ClaimJob(s'.images, s'.status, j.image, j.layer) != Ok(j)
  {
    EveryRunKeepsInv(es);
    StepKeepsInv(Run(INIT, es), SetStatus(j.id, status));
    FinishedStays(Step(Run(INIT, es), SetStatus(j.id, status)), j);
  }

  lemma {:induction false} FinishedStays(s: State, j: Job)
    requires Inv(s) && Filed(s.images, j) && StatusOf(s.status, j.id) in {Done, Failed}
    ensures RemoveJob(s.images, s.status, j.image, j.layer, j.id) == Err(CannotBeCleaned)
    ensures ClaimJob(s.images, s.status, j.image, j.layer) != Ok(j)
  {
    RemoveSucceedsIffTaken(s, j);
    RemoveErrors(s, j.image, j.layer, j.id);
    ClaimedIsOpen(s, j.image, j.layer);
    assert ListOk(s.images[j.image][j.layer], j.image, j.layer);
  }

  /** Why a claim fails: no such image, an image without layers, a layer without jobs, or none in progress. */
  lemma {:induction false} ClaimErrors(s: State, image: string, layer: string)
    requires Inv(s)
    ensures var r := ClaimJob(s.images, s.status, image, layer);
            && (r == Err(ImageNotFound) <==> image !in s.images)
            && (r == Err(ImageHasNoLayers) <==> image in s.images && |s.images[image]| == 0)
            && (r == Err(LayerHasNoJobs) <==> image in s.images && |s.images[image]| > 0 && layer !in s.images[image])
            && r != Err(JobNotFound) && r != Err(CannotBeCleaned)
  {
    if image in s.images && layer in s.images[image] {
      assert ListOk(s.images[image][layer], image, layer);
    }
  }

  /** Why a removal fails: as for a claim, or no such job, or a job that is neither claimed nor cancelled. */
  lemma {:induction false} RemoveErrors(s: State, image: string, layer: string, id: string)
    requires Inv(s)
    ensures var r := RemoveJob(s.images, s.status, image, layer, id);
            && (r == Err(ImageNotFound) <==> image !in s.images)
            && (r == Err(ImageHasNoLayers) <==> image in s.images && |s.images[image]| == 0)
            && (r == Err(LayerHasNoJobs) <==> image in s.images && |s.images[image]| > 0 && layer !in s.images[image])
            && (r == Err(JobNotFound) <==>
                  && image in s.images && layer in s.images[image]
                  && forall j :: Filed(s.images, j) && j.image == image && j.layer == layer ==> j.id != id)
            && r != Err(NoClaimableJob)
  {
    RemoveSucceedsIffTaken(s, Job(id, image, layer, 0));
    IndexOfFinds(JobsOf(s.images, image, layer), id);
    if image in s.images && layer in s.images[image] {
      var jobs := s.images[image][layer];
      assert ListOk(jobs, image, layer);
      assert forall k :: 0 <= k < |jobs| ==> Filed(s.images, jobs[k]);
    }
  }

  // ---------------------------------------------- a pass nobody disturbs

  /** Collector steps that find nothing expired and whose deletions succeed. */
  predicate Quiet(e: Event) {
    (e.Expire? && !e.expired) || e.EndExpire? || (e.Sweep? && e.deleteOk) || e.EndSweep?
  }

  /** How far an undisturbed pass has come. */
  ghost predicate InPass(s: State, images: Images) {
    && s.images == images
    && match s.gc
       case Idle => forall id | id in s.storage :: Registered(images, id)
       case Expiring(mem, inStorage, cancelled, _) =>
         && cancelled == {} && (forall id | id in s.storage :: id in inStorage)
         && (forall id | id in mem :: Registered(images, id))
       case Sweeping(spared, left) =>
         && (forall id | id in spared :: Registered(images, id))
         && (forall id | id in s.storage :: id in left || id in spared)
  }

  lemma {:induction false} QuietStep(s: State, images: Images, e: Event)
    requires Inv(s) && InPass(s, images) && Quiet(e)
    ensures InPass(Step(s, e), images)
  {
    if e.Sweep? && s.gc.Sweeping? && s.gc.left != [] {
      var left := s.gc.left;
      assert forall id :: id in left <==> id == left[0] || id in left[1..];
    }
  }

  lemma {:induction false} QuietRun(s: State, images: Images, es: seq<Event>)
    requires Inv(s) && InPass(s, images) && forall i :: 0 <= i < |es| ==> Quiet(es[i])
    ensures Inv(Run(s, es)) && InPass(Run(s, es), images)
  {
    if es != [] {
      QuietRun(s, images, es[..|es| - 1]);
      StepKeepsInv(Run(s, es[..|es| - 1]), es[|es| - 1]);
      QuietStep(Run(s, es[..|es| - 1]), images, es[|es| - 1]);
    }
  }

  /** A collector pass that nobody disturbs and in which nothing expires or fails leaves exactly the
      directories of the registered jobs. */
  lemma {:induction false} QuietPassCollectsAllGarbage(before: seq<Event>, mem: map<string, Seen>,
        keys: seq<string>, pass: seq<Event>)
    requires var s := Run(INIT, before);
             s.gc.Idle? && SnapshotOf(s.images, mem) && Listing(s.storage, keys)
    requires forall i :: 0 <= i < |pass| ==> Quiet(pass[i])
    requires Run(Step(Run(INIT, before), Snapshot(mem, keys)), pass).gc.Idle?
    ensures var s := Run(INIT, before);
            var s' := Run(Step(s, Snapshot(mem, keys)), pass);
            s'.images == s.images && forall id :: id in s'.storage <==> Registered(s.images, id)
  {
    var s := Run(INIT, before);
    EveryRunKeepsInv(before);
    StepKeepsInv(s, Snapshot(mem, keys));
    QuietRun(Step(s, Snapshot(mem, keys)), s.images, pass);
  }

  // ------------------------------------------------- expired jobs are swept

  /** Collector steps whose deletions succeed. */
  predicate Collecting(e: Event) {
    e.Expire? || e.EndExpire? || (e.Sweep? && e.deleteOk) || e.EndSweep?
  }

  /** The pass is going to delete this directory, or has done so. */
  ghost predicate Doomed(s: State, id: string) {
    match s.gc
    case Idle => id !in s.storage
    case Expiring(mem, inStorage, _, _) => id !in mem && (id in s.storage ==> id in inStorage)
    case Sweeping(spared, left) => id !in spared && (id in s.storage ==> id in left)
  }

  lemma {:induction false} DoomedStep(s: State, e: Event, id: string)
    requires Inv(s) && Doomed(s, id) && Collecting(e)
    ensures Doomed(Step(s, e), id)
  {
    if e.Sweep? && s.gc.Sweeping? && s.gc.left != [] {
      var left := s.gc.left;
      assert forall x :: x in left <==> x == left[0] || x in left[1..];
    }
  }

  lemma {:induction false} DoomedRun(s: State, es: seq<Event>, id: string)
    requires Inv(s) && Doomed(s, id) && forall i :: 0 <= i < |es| ==> Collecting(es[i])
    ensures Inv(Run(s, es)) && Doomed(Run(s, es), id)
  {
    if es != [] {
      DoomedRun(s, es[..|es| - 1], id);
      StepKeepsInv(Run(s, es[..|es| - 1]), es[|es| - 1]);
      DoomedStep(Run(s, es[..|es| - 1]), es[|es| - 1], id);
    }
  }

  /** A job found expired is out of the registry, and marked for deletion. */
  lemma {:induction false} ExpiredIsDoomed(s: State, id: string)
    requires Inv(s) && s.gc.Expiring? && id in s.gc.todo && id in s.gc.mem && s.gc.mem[id].image in s.images
    ensures Doomed(ExpireStep(s, id, true), id) && !Registered(ExpireStep(s, id, true).images, id)
  {
    DropImage(s.images, s.gc.mem[id].image);
  }

  lemma {:induction false} GoneWithImage(s: State, id: string)
    requires Inv(s) && s.gc.Expiring? && id in s.gc.mem
    ensures !Registered(s.images - {s.gc.mem[id].image}, id)
  {
    DropImage(s.images, s.gc.mem[id].image);
  }

  /** A job of the same image that was looked at before, and not found expired then, is gone too but spared:
      its directory stays until a later pass. */
  lemma {:induction false} EarlyVerdictSparesDirectory(s: State, a: string, b: string)
    requires Inv(s) && s.gc.Expiring? && a != b && a in s.gc.todo && a in s.gc.mem && b in s.gc.todo && b in s.gc.mem
    requires s.gc.mem[a].image == s.gc.mem[b].image && s.gc.mem[a].image in s.images
    requires s.gc.mem[a].image !in s.gc.cancelled
    ensures var s' := Step(Step(s, Expire(a, false)), Expire(b, true));
            && !Registered(s'.images, a) && !Registered(s'.images, b)
            && s'.gc.Expiring? && a in s'.gc.mem && b !in s'.gc.mem
  {
    GoneWithImage(s, a);
    GoneWithImage(s, b);
    var s1 := Step(s, Expire(a, false));
    assert s1 == s.(gc := s.gc.(todo := s.gc.todo - {a}));
    assert Step(s1, Expire(b, true)).images == s.images - {s.gc.mem[a].image};
  }

  /** A job found expired leaves the registry at once, and a pass that is left to finish, whatever else
      it finds expired, deletes its directory. */
  lemma {:induction false} ExpiredJobIsCollected(before: seq<Event>, id: string, pass: seq<Event>)
    requires var s := Run(INIT, before);
             s.gc.Expiring? && id in s.gc.todo && id in s.gc.mem && s.gc.mem[id].image in s.images
    requires forall i :: 0 <= i < |pass| ==> Collecting(pass[i])
    ensures var s1 := Step(Run(INIT, before), Expire(id, true));
            !Registered(s1.images, id) && (Run(s1, pass).gc.Idle? ==> id !in Run(s1, pass).storage)
  {
    var s := Run(INIT, before);
    EveryRunKeepsInv(before);
    StepKeepsInv(s, Expire(id, true));
    ExpiredIsDoomed(s, id);
    DoomedRun(Step(s, Expire(id, true)), pass, id);
  }
}
