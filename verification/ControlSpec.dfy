/** `reconciler.py` and `updater.py` on values: operations over the store and Docker, with
    their ordered side effects and the points at which they can fail. */
module ControlSpec {
  import opened Text
  import opened Records
  import opened StoreSpec
  import opened DockerSpec
  import opened Polling
  import opened Names

  datatype World = World(store: StoreState, docker: DockerState)

  datatype ApplyEnv = ApplyEnv(git: Git, run: RunEnv)

  // ------------------------------------------------------------------ reconciler

  /** Store first, container second. */
  ghost function Apply(w: World, inst: Instance, e: ApplyEnv): (World, Try<()>) {
    var (s, r) := Put(w.store, inst, e.git);
    if r.Raised? then (w.(store := s), r)
    else
      var (d, r) := EnsureRunning(w.docker, inst, e.run);
      (World(s, d), r)
  }

  function Remove(w: World, name: string, g: Git, e: RemoveEnv): (World, Try<Leave>) {
    match Get(w.store, name)
    case Raised(error) => (w, Raised(error))
    case Ok(None) =>
      var (s, r) := Delete(w.store, name, g);
      (w.(store := s), if r.Raised? then Raised(r.error) else Ok(Leave(true, false)))
    case Ok(Some(inst)) =>
      var (d, leave) := RemoveInstance(w.docker, inst, e);
      if leave.Raised? then (w.(docker := d), leave)
      else
        var (s, r) := Delete(w.store, name, g);
        (World(s, d), if r.Raised? then Raised(r.error) else leave)
  }

  /** The first failure ends the loop. */
  ghost function ReconcileEach(w: World, insts: seq<Instance>, envs: seq<RunEnv>): (World, Try<()>)
    requires |insts| == |envs|
  {
    if insts == [] then (w, Ok(()))
    else
      var n := |insts| - 1;
      var (w1, r) := ReconcileEach(w, insts[..n], envs[..n]);
      if r.Raised? then (w1, r)
      else
        var (d, r) := EnsureRunning(w1.docker, insts[n], envs[n]);
        (w1.(docker := d), r)
  }

  // ------------------------------------------------------------------ updater

  datatype UpdateEnv = UpdateEnv(first: ApplyEnv, watch: Watch, second: ApplyEnv)

  datatype Result =
    | Updated(name: string, image: string, previous: string)
    | RolledBack(name: string, to: string, failed: string)
    | Skipped(name: string)
    | Failed(name: string, error: Failure)

  function WithPrev(w: World, name: string, image: string): World {
    w.(store := w.store.(prev := w.store.prev[name := image]))
  }

  /** Back to the previous image, after a failed apply or an unhealthy container. */
  ghost function Restore(w: World, name: string, inst: Instance, image: string, e: ApplyEnv): (World, Try<Result>) {
    var (w', r) := Apply(w, inst, e);
    (w', if r.Raised? then Raised(r.error) else Ok(RolledBack(name, inst.image, image)))
  }

  ghost function Update(w: World, name: string, image: string, e: UpdateEnv): (World, Try<Result>) {
    match Get(w.store, name)
    case Raised(error) => (w, Raised(error))
    case Ok(None) => (w, Raised(NoSuchInstance))
    case Ok(Some(inst)) =>
      var w1 := WithPrev(w, name, inst.image);
      var (w2, r) := Apply(w1, inst.(image := image), e.first);
      if r.Raised? then Restore(w2, name, inst, image, e.second)
      else
        match e.watch
        case WatchBroken => (w2, Raised(DockerError))
        case TurnedHealthy => (w2, Ok(Updated(name, image, inst.image)))
        case NotHealthy => Restore(w2, name, inst, image, e.second)
  }

  /** One instance of `update_all`: a failure is recorded, not raised. */
  ghost function UpdateOne(w: World, inst: Instance, target: string, e: UpdateEnv): (World, Result) {
    if inst.image == target then (w, Skipped(inst.name))
    else
      var (w', r) := Update(w, inst.name, target, e);
      (w', if r.Raised? then Failed(inst.name, r.error) else r.value)
  }

  ghost function UpdateEach(w: World, insts: seq<Instance>, target: string, envs: seq<UpdateEnv>)
    : (r: (World, seq<Result>))
    requires |insts| == |envs|
    ensures |r.1| == |insts|
  {
    if insts == [] then (w, [])
    else
      var n := |insts| - 1;
      var (w1, results) := UpdateEach(w, insts[..n], target, envs[..n]);
      var (w2, result) := UpdateOne(w1, insts[n], target, envs[n]);
      (w2, results + [result])
  }

  ghost function Rollback(w: World, name: string, e: ApplyEnv): (World, Try<string>) {
    match Get(w.store, name)
    case Raised(error) => (w, Raised(error))
    case Ok(None) => (w, Raised(NoSuchInstance))
    case Ok(Some(inst)) =>
      if name !in w.store.prev then (w, Raised(NoPreviousImage))
      else
        var image := Strip(w.store.prev[name]);
        var (w', r) := Apply(w, inst.(image := image), e);
        (w', if r.Raised? then Raised(r.error) else Ok(image))
  }

  // ------------------------------------------------------------------ what every operation keeps

  /** The record stored under this name. */
  function RecordOf(w: World, name: string): Option<Instance> {
    match Entry(w.store.work, name)
    case Some(Record(inst)) => Some(inst)
    case _ => None
  }

  /** Every record is stored under its own, safe name. */
  ghost predicate WellNamed(s: StoreState) {
    forall n | n in s.work :: SafeName(n) && (s.work[n].Record? ==> s.work[n].inst.name == n)
  }

  /** Apart from one instance nothing is different, in the store or in Docker. */
  ghost predicate OnlyChanges(w: World, w': World, name: string) {
    SameElsewhere(w.store, w'.store, name) && SameOthers(w.docker, w'.docker, name)
  }

  lemma ApplyEffect(w: World, inst: Instance, e: ApplyEnv)
    requires SafeName(inst.name)
    ensures var (w', r) := Apply(w, inst, e);
            && w'.store.work == w.store.work[inst.name := Record(inst)]
            && w'.store.prev == w.store.prev
            && OnlyChanges(w, w', inst.name)
            && (r.Ok? ==> StartedFrom(w'.docker, inst))
  {
    PutEffect(w.store, inst, e.git);
    ApplyStore(w, inst, e);
    ApplyDocker(w, inst, e);
  }

  lemma ApplyStore(w: World, inst: Instance, e: ApplyEnv)
    ensures Apply(w, inst, e).0.store == Put(w.store, inst, e.git).0
  {
  }

  lemma ApplyDocker(w: World, inst: Instance, e: ApplyEnv)
    ensures var (w', r) := Apply(w, inst, e);
            SameOthers(w.docker, w'.docker, inst.name) && (r.Ok? ==> StartedFrom(w'.docker, inst))
  {
    EnsureElsewhere(w.docker, inst, e.run);
    if EnsureRunning(w.docker, inst, e.run).1.Ok? {
      EnsureStarts(w.docker, inst, e.run);
    }
  }

  /** The answers with which an apply returns. */
  ghost predicate ApplyReturns(w: World, inst: Instance, e: ApplyEnv) {
    !Unsafe(inst.name) && LogPasses(w.store, inst.name, Some(Record(inst)), e.git) && Starts(w.docker, inst, e.run)
  }

  /** When an apply returns, and what it leaves when it raises: a store that refuses ends it before Docker
      is touched. */
  lemma ApplyOutcome(w: World, inst: Instance, e: ApplyEnv)
    ensures var (w', r) := Apply(w, inst, e);
            && (r.Ok? <==> ApplyReturns(w, inst, e))
            && (r.Raised? ==>
                  if Unsafe(inst.name) then w' == w && r.error == UnsafeName
                  else if !LogPasses(w.store, inst.name, Some(Record(inst)), e.git) then
                    w'.docker == w.docker && r.error == ChangeLogRefused && RecordOf(w', inst.name) == Some(inst)
                  else
                    StartBroken(w.docker, inst, e.run, w'.docker, r.error) && RecordOf(w', inst.name) == Some(inst))
  {
    PutOutcome(w.store, inst, e.git);
    EnsureReturnsIff(w.docker, inst, e.run);
    if EnsureRunning(w.docker, inst, e.run).1.Raised? {
      EnsureRaises(w.docker, inst, e.run);
    }
  }

  lemma OnlyChangesTwice(a: World, b: World, c: World, name: string)
    requires OnlyChanges(a, b, name) && OnlyChanges(b, c, name)
    ensures OnlyChanges(a, c, name)
  {
  }

  // ------------------------------------------------------------------ update as a transaction

  /** The new image was stored and its container started. */
  ghost predicate FirstReturns(w: World, name: string, image: string, e: UpdateEnv) {
    && RecordOf(w, name).Some?
    && ApplyReturns(WithPrev(w, name, RecordOf(w, name).value.image), RecordOf(w, name).value.(image := image), e.first)
  }

  /** The update leaves the new image in the record. */
  ghost predicate Keeps(w: World, name: string, image: string, e: UpdateEnv) {
    FirstReturns(w, name, image, e) && !e.watch.NotHealthy?
  }

  /** The new container was started and then Docker failed to answer while it was watched: the
      one failure that is not rolled back. */
  ghost predicate WatchLost(w: World, name: string, image: string, e: UpdateEnv) {
    FirstReturns(w, name, image, e) && e.watch.WatchBroken?
  }

  /** The previous record was applied again, after all that the first apply had done. */
  ghost predicate SecondReturns(w: World, name: string, image: string, e: UpdateEnv) {
    && RecordOf(w, name).Some?
    && var inst := RecordOf(w, name).value;
       ApplyReturns(Apply(WithPrev(w, name, inst.image), inst.(image := image), e.first).0, inst, e.second)
  }

  ghost predicate UpdateReturns(w: World, name: string, image: string, e: UpdateEnv) {
    if Keeps(w, name, image, e) then e.watch.TurnedHealthy? else SecondReturns(w, name, image, e)
  }

  /** For every outcome of git, Docker and polling: the record ends with the new image exactly
      if its container was started and not found unhealthy, and otherwise with the previous
      one, even when restoring raises; its other fields, all other records, pointers and
      containers are as before; `.prev` names the previous image. The update returns exactly if the
      new container turned healthy, or the previous record was applied again, and then
      the container was started from exactly the stored record. */
  lemma UpdateTransaction(w: World, name: string, image: string, e: UpdateEnv)
    requires WellNamed(w.store) && RecordOf(w, name).Some?
    ensures var inst, (w', r) := RecordOf(w, name).value, Update(w, name, image, e);
            var after := inst.(image := if Keeps(w, name, image, e) then image else inst.image);
            && Holds(w, w', name, after, inst.image)
            && (r.Ok? <==> UpdateReturns(w, name, image, e))
            && (r.Ok? ==> StartedFrom(w'.docker, after))
            && (r.Ok? ==> r.value == if Keeps(w, name, image, e) then Updated(name, image, inst.image)
                                     else RolledBack(name, inst.image, image))
            && (WatchLost(w, name, image, e) ==> r == Raised(DockerError) && StartedFrom(w'.docker, after))
  {
    var inst := RecordOf(w, name).value;
    var w1 := WithPrev(w, name, inst.image);
    var (w2, r2) := Apply(w1, inst.(image := image), e.first);
    FirstApply(w, name, inst, image, e.first);
    ApplyOutcome(w1, inst.(image := image), e.first);
    if r2.Raised? || e.watch.NotHealthy? {
      RestoreEffect(w, w2, name, inst, image, e.second);
      assert inst == inst.(image := inst.image);
    }
  }

  /** Whatever happens, an update changes the image of this record and sets its pointer. */
  lemma UpdateHolds(w: World, name: string, image: string, e: UpdateEnv) returns (stored: string)
    requires WellNamed(w.store) && RecordOf(w, name).Some?
    ensures var inst := RecordOf(w, name).value;
            Holds(w, Update(w, name, image, e).0, name, inst.(image := stored), inst.image)
  {
    UpdateTransaction(w, name, image, e);
    stored := if Keeps(w, name, image, e) then image else RecordOf(w, name).value.image;
  }

  /** The world after an update of `name`: this record, this pointer, nothing else. */
  ghost predicate Holds(w: World, w': World, name: string, after: Instance, previous: string) {
    && w'.store.work == w.store.work[name := Record(after)]
    && w'.store.prev == w.store.prev[name := previous]
    && OnlyChanges(w, w', name)
  }

  lemma FirstApply(w: World, name: string, inst: Instance, image: string, e: ApplyEnv)
    requires WellNamed(w.store) && RecordOf(w, name) == Some(inst)
    ensures var (w', r) := Apply(WithPrev(w, name, inst.image), inst.(image := image), e);
            && Holds(w, w', name, inst.(image := image), inst.image)
            && (r.Ok? ==> StartedFrom(w'.docker, inst.(image := image)))
  {
    var w1 := WithPrev(w, name, inst.image);
    assert OnlyChanges(w, w1, name);
    ApplyEffect(w1, inst.(image := image), e);
    OnlyChangesTwice(w, w1, Apply(w1, inst.(image := image), e).0, name);
  }

  lemma RestoreEffect(w: World, w2: World, name: string, inst: Instance, image: string, e: ApplyEnv)
    requires WellNamed(w.store) && RecordOf(w, name) == Some(inst)
    requires Holds(w, w2, name, inst.(image := image), inst.image)
    ensures var (w', r) := Restore(w2, name, inst, image, e);
            && Holds(w, w', name, inst, inst.image)
            && (r.Ok? <==> ApplyReturns(w2, inst, e))
            && (r.Ok? ==> r.value == RolledBack(name, inst.image, image) && StartedFrom(w'.docker, inst))
  {
    ApplyEffect(w2, inst, e);
    ApplyOutcome(w2, inst, e);
    OnlyChangesTwice(w, w2, Apply(w2, inst, e).0, name);
  }

  /** Why a name has no record to work on. */
  ghost predicate NoRecord(s: StoreState, name: string, error: Failure) {
    if Unsafe(name) then error == UnsafeName
    else if name in s.work && s.work[name].Rejected? then error == InvalidRecord
    else (name in s.work ==> s.work[name].Unreadable?) && error == NoSuchInstance
  }

  /** An update or a rollback of a name without a readable record changes nothing and says why. */
  lemma UnknownName(w: World, name: string, image: string, e: UpdateEnv, e': ApplyEnv)
    requires Unsafe(name) || RecordOf(w, name).None?
    ensures var (w', r) := Update(w, name, image, e); w' == w && r.Raised? && NoRecord(w.store, name, r.error)
    ensures var (w', r) := Rollback(w, name, e'); w' == w && r.Raised? && NoRecord(w.store, name, r.error)
  {
    GetOutcome(w.store, name);
  }

  /** With a secret, certificate or CA file missing the update raises, the old container is
      untouched and the record is back at the previous image. */
  lemma UpdateMissingFile(w: World, name: string, image: string, e: UpdateEnv)
    requires WellNamed(w.store) && RecordOf(w, name).Some?
    requires !Ready(RecordOf(w, name).value, w.docker.files)
    ensures var (w', r) := Update(w, name, image, e);
            r.Raised? && w'.docker.containers == w.docker.containers && RecordOf(w', name) == RecordOf(w, name)
  {
    var inst := RecordOf(w, name).value;
    var w1 := WithPrev(w, name, inst.image);
    ApplyUnready(w1, inst.(image := image), e.first);
    var w2 := Apply(w1, inst.(image := image), e.first).0;
    ApplyUnready(w2, inst, e.second);
    UpdateTransaction(w, name, image, e);
    assert inst == inst.(image := inst.image);
  }

  lemma ApplyUnready(w: World, inst: Instance, e: ApplyEnv)
    requires !Ready(inst, w.docker.files)
    ensures var (w', r) := Apply(w, inst, e);
            r.Raised? && w'.docker.containers == w.docker.containers && w'.docker.files == w.docker.files
  {
    ApplyCases(w, inst, e);
    EnsureFailsClosed(w.docker, inst, e.run);
    EnsureElsewhere(w.docker, inst, e.run);
  }

  lemma ApplyCases(w: World, inst: Instance, e: ApplyEnv)
    ensures var (w', r) := Apply(w, inst, e);
            || (r.Raised? && w'.docker == w.docker)
            || (w'.docker == EnsureRunning(w.docker, inst, e.run).0 && r == EnsureRunning(w.docker, inst, e.run).1)
  {
  }

  // ------------------------------------------------------------------ update_all

  ghost predicate DistinctNames(insts: seq<Instance>) {
    forall i, j | 0 <= i < j < |insts| :: insts[i].name != insts[j].name
  }

  /** The list was read from this store. */
  ghost predicate ReadFrom(w: World, insts: seq<Instance>) {
    DistinctNames(insts) && forall i | 0 <= i < |insts| :: RecordOf(w, insts[i].name) == Some(insts[i])
  }

  /** Each of these is a record of the store, under a name of the list. */
  ghost predicate StoredIn(w: World, insts: seq<Instance>, order: seq<string>) {
    forall i | 0 <= i < |insts| ::
      RecordOf(w, insts[i].name) == Some(insts[i]) && insts[i].name in order
  }

  lemma {:induction false} ListedInOrder(w: World, order: seq<string>)
    requires WellNamed(w.store)
    ensures StoredIn(w, Listed(w.store, order), order)
  {
    if order != [] {
      var n := |order| - 1;
      var insts, init := Listed(w.store, order), Listed(w.store, order[..n]);
      ListedInOrder(w, order[..n]);
      ListedLast(w, order);
      forall i | 0 <= i < |insts|
        ensures RecordOf(w, insts[i].name) == Some(insts[i]) && insts[i].name in order
      {
        if i < |init| {
          assert insts[i] == init[i] && init[i].name in order[..n];
        }
      }
    }
  }

  /** The last file gives its record, under its own name, or nothing. */
  lemma ListedLast(w: World, order: seq<string>)
    requires WellNamed(w.store) && order != []
    ensures var n := |order| - 1;
            var insts, init, last := Listed(w.store, order), Listed(w.store, order[..n]), RecordOf(w, order[n]);
            && insts == (if last.Some? then init + [last.value] else init)
            && (last.Some? ==> last.value.name == order[n])
  {
  }

  /** What the store lists are records of it, each once when no file is listed twice. */
  lemma {:induction false} ListedReadFrom(w: World, order: seq<string>)
    requires WellNamed(w.store) && Distinct(order)
    ensures ReadFrom(w, Listed(w.store, order))
  {
    ListedInOrder(w, order);
    if order != [] {
      var init, name := order[..|order| - 1], order[|order| - 1];
      assert order == init + [name];
      DistinctSnoc(init, name);
      ListedReadFrom(w, init);
      ListedInOrder(w, init);
      ListedLast(w, order);
    }
  }

  /** What one entry of the batch reports and leaves behind. */
  ghost predicate EntryOk(w: World, w': World, inst: Instance, target: string, result: Result) {
    && result.name == inst.name
    && (RecordOf(w', inst.name) == Some(inst) || RecordOf(w', inst.name) == Some(inst.(image := target)))
    && (result.Updated? || result.Skipped? ==> RecordOf(w', inst.name) == Some(inst.(image := target)))
    && (result.RolledBack? ==> RecordOf(w', inst.name) == Some(inst))
    && (result.Updated? || result.RolledBack? ==> StartedFrom(w'.docker, RecordOf(w', inst.name).value))
    && (result.Skipped? <==> inst.image == target)
    && (result.Skipped? ==> Untouched(w, w', inst.name))
  }

  /** Record, pointer, container, rendered files and volume of this name are as they were. */
  ghost predicate Untouched(w: World, w': World, name: string) {
    && Entry(w'.store.work, name) == Entry(w.store.work, name)
    && (name in w'.store.prev <==> name in w.store.prev)
    && (name in w.store.prev ==> w'.store.prev[name] == w.store.prev[name])
    && (name in w'.docker.containers <==> name in w.docker.containers)
    && (name in w.docker.containers ==> w'.docker.containers[name] == w.docker.containers[name])
    && (name in w'.docker.rendered <==> name in w.docker.rendered)
    && (name in w.docker.rendered ==> w'.docker.rendered[name] == w.docker.rendered[name])
    && (VolumeName(name) in w'.docker.volumes <==> VolumeName(name) in w.docker.volumes)
    && w'.docker.files == w.docker.files && w'.docker.settleTimeout == w.docker.settleTimeout
  }

  lemma OnlyChangesElsewhere(w: World, w': World, name: string, other: string)
    requires OnlyChanges(w, w', name) && other != name
    ensures Untouched(w, w', other)
  {
    assert Entry(w'.store.work, other) == Entry(w.store.work, other);
  }

  lemma UntouchedTwice(a: World, b: World, c: World, name: string)
    requires Untouched(a, b, name) && Untouched(b, c, name)
    ensures Untouched(a, c, name)
  {
  }

  lemma StartedStays(w: World, w': World, inst: Instance)
    requires StartedFrom(w.docker, inst) && Untouched(w, w', inst.name)
    ensures StartedFrom(w'.docker, inst)
  {
  }

  lemma EntryStays(a: World, b: World, c: World, inst: Instance, target: string, result: Result)
    requires EntryOk(a, b, inst, target, result) && Untouched(b, c, inst.name)
    ensures EntryOk(a, c, inst, target, result)
  {
    if result.Updated? || result.RolledBack? {
      StartedStays(b, c, RecordOf(b, inst.name).value);
    }
    if result.Skipped? {
      UntouchedTwice(a, b, c, inst.name);
    }
  }

  lemma UpdateOneEffect(w: World, inst: Instance, target: string, e: UpdateEnv)
    requires WellNamed(w.store) && RecordOf(w, inst.name) == Some(inst)
    ensures var (w', result) := UpdateOne(w, inst, target, e);
            && WellNamed(w'.store) && OnlyChanges(w, w', inst.name)
            && EntryOk(w, w', inst, target, result)
  {
    if inst.image == target {
      assert inst == inst.(image := target);
    } else {
      UpdateTransaction(w, inst.name, target, e);
      var (w', r) := Update(w, inst.name, target, e);
      assert inst == inst.(image := inst.image);
      EntryHolds(w, w', inst, target, inst.(image := if Keeps(w, inst.name, target, e) then target else inst.image),
        if r.Raised? then Failed(inst.name, r.error) else r.value);
    }
  }

  lemma EntryHolds(w: World, w': World, inst: Instance, target: string, after: Instance, result: Result)
    requires WellNamed(w.store) && RecordOf(w, inst.name) == Some(inst) && inst.image != target
    requires Holds(w, w', inst.name, after, inst.image) && (after == inst || after == inst.(image := target))
    requires result.name == inst.name && !result.Skipped?
    requires result.Updated? || result.RolledBack? ==> StartedFrom(w'.docker, after)
    requires (result.Updated? ==> after == inst.(image := target)) && (result.RolledBack? ==> after == inst)
    ensures WellNamed(w'.store) && OnlyChanges(w, w', inst.name) && EntryOk(w, w', inst, target, result)
  {
    assert RecordOf(w', inst.name) == Some(after);
  }

  /** What holds after the first `k` entries of the batch. */
  ghost predicate BatchAt(w: World, w': World, insts: seq<Instance>, target: string,
                          results: seq<Result>, k: nat)
    requires k <= |insts| && |results| == k
  {
    && WellNamed(w'.store)
    && (forall i | 0 <= i < k :: EntryOk(w, w', insts[i], target, results[i]))
    && (forall n | (forall i | 0 <= i < k :: insts[i].name != n) :: Untouched(w, w', n))
  }

  lemma BatchStep(w: World, w1: World, insts: seq<Instance>, target: string, results: seq<Result>,
                  k: nat, e: UpdateEnv)
    requires k < |insts| && |results| == k
    requires ReadFrom(w, insts) && BatchAt(w, w1, insts, target, results, k)
    ensures var (w2, result) := UpdateOne(w1, insts[k], target, e);
            BatchAt(w, w2, insts, target, results + [result], k + 1)
  {
    var inst := insts[k];
    var (w2, result) := UpdateOne(w1, inst, target, e);
    assert forall i | 0 <= i < k :: insts[i].name != insts[k].name;
    assert Untouched(w, w1, inst.name);
    assert RecordOf(w, insts[k].name) == Some(insts[k]);
    UpdateOneEffect(w1, inst, target, e);
    var more := results + [result];
    forall i | 0 <= i < k + 1 ensures EntryOk(w, w2, insts[i], target, more[i]) {
      if i < k {
        OnlyChangesElsewhere(w1, w2, inst.name, insts[i].name);
        EntryStays(w, w1, w2, insts[i], target, results[i]);
      } else if result.Skipped? {
        UntouchedTwice(w, w1, w2, inst.name);
      }
    }
    forall n | (forall i | 0 <= i < k + 1 :: insts[i].name != n) ensures Untouched(w, w2, n) {
      assert insts[k].name != n;
      OnlyChangesElsewhere(w1, w2, inst.name, n);
      UntouchedTwice(w, w1, w2, n);
    }
  }

  lemma {:induction false} BatchPrefix(w: World, insts: seq<Instance>, target: string, envs: seq<UpdateEnv>, k: nat)
    requires k <= |insts| == |envs| && WellNamed(w.store) && ReadFrom(w, insts)
    ensures var (w', results) := UpdateEach(w, insts[..k], target, envs[..k]);
            BatchAt(w, w', insts, target, results, k)
    decreases k
  {
    if k > 0 {
      BatchPrefix(w, insts, target, envs, k - 1);
      var (w1, results) := UpdateEach(w, insts[..k - 1], target, envs[..k - 1]);
      assert insts[..k][..k - 1] == insts[..k - 1] && envs[..k][..k - 1] == envs[..k - 1];
      BatchStep(w, w1, insts, target, results, k - 1, envs[k - 1]);
    }
  }

  /** An entry that was not skipped failed exactly if its update raised, with that error, and then holds
      the target exactly if its health watch was lost; it was updated exactly if the new container turned
      healthy. */
  ghost predicate TurnOk(w: World, w': World, inst: Instance, target: string, e: UpdateEnv, result: Result) {
    inst.image != target ==>
      && (result.Failed? <==> !UpdateReturns(w, inst.name, target, e))
      && (result.Failed? ==> Raised(result.error) == Update(w, inst.name, target, e).1)
      && (result.Updated? <==> FirstReturns(w, inst.name, target, e) && e.watch.TurnedHealthy?)
      && (result.Failed? ==>
            (RecordOf(w', inst.name) == Some(inst.(image := target)) <==> WatchLost(w, inst.name, target, e)))
  }

  lemma FailedEntry(w: World, inst: Instance, target: string, e: UpdateEnv)
    requires WellNamed(w.store) && RecordOf(w, inst.name) == Some(inst)
    ensures var (w', result) := UpdateOne(w, inst, target, e);
            WellNamed(w'.store) && TurnOk(w, w', inst, target, e, result)
  {
    if inst.image != target {
      UpdateTransaction(w, inst.name, target, e);
      StoredImage(w, Update(w, inst.name, target, e).0, inst, target, Keeps(w, inst.name, target, e));
    }
  }

  lemma StoredImage(w: World, w': World, inst: Instance, target: string, keeps: bool)
    requires inst.image != target && WellNamed(w.store) && RecordOf(w, inst.name) == Some(inst)
    requires Holds(w, w', inst.name, inst.(image := if keeps then target else inst.image), inst.image)
    ensures WellNamed(w'.store) && (RecordOf(w', inst.name) == Some(inst.(image := target)) <==> keeps)
  {
  }

  /** The world before entry `i` of a batch. */
  ghost function Before(w: World, insts: seq<Instance>, target: string, envs: seq<UpdateEnv>, i: nat): World
    requires i <= |insts| == |envs|
  {
    UpdateEach(w, insts[..i], target, envs[..i]).0
  }

  lemma BeforeNext(w: World, insts: seq<Instance>, target: string, envs: seq<UpdateEnv>, i: nat)
    requires i < |insts| == |envs|
    ensures Before(w, insts, target, envs, i + 1)
            == UpdateOne(Before(w, insts, target, envs, i), insts[i], target, envs[i]).0
    ensures UpdateEach(w, insts[..i + 1], target, envs[..i + 1]).1
            == UpdateEach(w, insts[..i], target, envs[..i]).1
               + [UpdateOne(Before(w, insts, target, envs, i), insts[i], target, envs[i]).1]
  {
    assert insts[..i + 1][..i] == insts[..i] && envs[..i + 1][..i] == envs[..i];
  }

  /** A listed record as it is when its turn comes, and after it. */
  lemma BeforeTurn(w: World, insts: seq<Instance>, target: string, envs: seq<UpdateEnv>, i: nat)
    requires i < |insts| == |envs| && WellNamed(w.store) && ReadFrom(w, insts)
    ensures var w1 := Before(w, insts, target, envs, i);
            WellNamed(w1.store) && RecordOf(w1, insts[i].name) == Some(insts[i])
  {
    BatchPrefix(w, insts, target, envs, i);
    var w1 := Before(w, insts, target, envs, i);
    assert forall j | 0 <= j < i :: insts[j].name != insts[i].name;
    assert Untouched(w, w1, insts[i].name);
    assert RecordOf(w, insts[i].name) == Some(insts[i]);
  }

  /** Later entries do not touch an earlier one. */
  lemma {:induction false} LaterUntouched(w: World, insts: seq<Instance>, target: string, envs: seq<UpdateEnv>,
                                          i: nat, k: nat)
    requires i < k <= |insts| == |envs| && WellNamed(w.store) && ReadFrom(w, insts)
    ensures Untouched(Before(w, insts, target, envs, i + 1), Before(w, insts, target, envs, k), insts[i].name)
    decreases k
  {
    if i + 1 < k {
      LaterUntouched(w, insts, target, envs, i, k - 1);
      TurnUntouched(w, insts, target, envs, k - 1, Before(w, insts, target, envs, i + 1), insts[i].name);
    }
  }

  /** The turn of one instance does not touch another. */
  lemma TurnUntouched(w: World, insts: seq<Instance>, target: string, envs: seq<UpdateEnv>, k: nat,
                      u: World, name: string)
    requires k < |insts| == |envs| && WellNamed(w.store) && ReadFrom(w, insts) && insts[k].name != name
    requires Untouched(u, Before(w, insts, target, envs, k), name)
    ensures Untouched(u, Before(w, insts, target, envs, k + 1), name)
  {
    BeforeTurn(w, insts, target, envs, k);
    BeforeNext(w, insts, target, envs, k);
    OtherEntry(u, Before(w, insts, target, envs, k), insts[k], target, envs[k], name);
  }

  lemma OtherEntry(w: World, w1: World, inst: Instance, target: string, e: UpdateEnv, name: string)
    requires WellNamed(w1.store) && RecordOf(w1, inst.name) == Some(inst) && inst.name != name
    requires Untouched(w, w1, name)
    ensures Untouched(w, UpdateOne(w1, inst, target, e).0, name)
  {
    var w2 := UpdateOne(w1, inst, target, e).0;
    UpdateOneEffect(w1, inst, target, e);
    OnlyChangesElsewhere(w1, w2, inst.name, name);
    UntouchedTwice(w, w1, w2, name);
  }

  /** Every entry of the batch, in terms of the world before its turn. */
  ghost predicate TurnsOk(w: World, w': World, insts: seq<Instance>, target: string, envs: seq<UpdateEnv>,
                          results: seq<Result>)
    requires |insts| == |envs| == |results|
  {
    forall i | 0 <= i < |insts| ::
      TurnOk(Before(w, insts, target, envs, i), w', insts[i], target, envs[i], results[i])
  }

  lemma {:induction false} ResultsKept(w: World, insts: seq<Instance>, target: string, envs: seq<UpdateEnv>,
                                       i: nat, k: nat)
    requires i < k <= |insts| == |envs|
    ensures UpdateEach(w, insts[..k], target, envs[..k]).1[i]
            == UpdateOne(Before(w, insts, target, envs, i), insts[i], target, envs[i]).1
    decreases k
  {
    BeforeNext(w, insts, target, envs, k - 1);
    assert k - 1 + 1 == k;
    if i < k - 1 {
      ResultsKept(w, insts, target, envs, i, k - 1);
      IndexKept(UpdateEach(w, insts[..k - 1], target, envs[..k - 1]).1,
        UpdateOne(Before(w, insts, target, envs, k - 1), insts[k - 1], target, envs[k - 1]).1, i);
    }
  }

  lemma IndexKept<T>(a: seq<T>, x: T, i: nat)
    requires i < |a|
    ensures (a + [x])[i] == a[i]
  {
  }

  lemma BatchTurns(w: World, insts: seq<Instance>, target: string, envs: seq<UpdateEnv>)
    requires |insts| == |envs| && WellNamed(w.store) && ReadFrom(w, insts)
    ensures var (w', results) := UpdateEach(w, insts, target, envs);
            TurnsOk(w, w', insts, target, envs, results)
  {
    var n := |insts|;
    var (w', results) := UpdateEach(w, insts, target, envs);
    assert insts[..n] == insts && envs[..n] == envs;
    forall i | 0 <= i < n
      ensures TurnOk(Before(w, insts, target, envs, i), w', insts[i], target, envs[i], results[i])
    {
      BeforeTurn(w, insts, target, envs, i);
      BeforeNext(w, insts, target, envs, i);
      ResultsKept(w, insts, target, envs, i, n);
      FailedEntry(Before(w, insts, target, envs, i), insts[i], target, envs[i]);
      LaterUntouched(w, insts, target, envs, i, n);
    }
  }

  /** Names that the batch does not list. */
  ghost predicate OthersUntouched(w: World, w': World, insts: seq<Instance>) {
    forall n | (forall i | 0 <= i < |insts| :: insts[i].name != n) :: Untouched(w, w', n)
  }

  /** A batch over instances read from the store. */
  lemma BatchOver(w: World, insts: seq<Instance>, target: string, envs: seq<UpdateEnv>)
    requires |insts| == |envs| && WellNamed(w.store) && ReadFrom(w, insts)
    ensures var (w', results) := UpdateEach(w, insts, target, envs);
            && WellNamed(w'.store) && EntriesOk(w, w', insts, target, results)
            && OthersUntouched(w, w', insts)
  {
    BatchPrefix(w, insts, target, envs, |insts|);
    assert insts[..|insts|] == insts && envs[..|envs|] == envs;
  }

  /** Two batches over instances read from the store. */
  lemma SecondBatchOver(w: World, insts: seq<Instance>, target: string, envs: seq<UpdateEnv>,
                         again: seq<Instance>, envs': seq<UpdateEnv>,
                         first: (World, seq<Result>), second: (World, seq<Result>))
    requires |insts| == |envs| && WellNamed(w.store) && ReadFrom(w, insts)
    requires first == UpdateEach(w, insts, target, envs)
    requires |again| == |envs'| && ReadFrom(first.0, again)
    requires second == UpdateEach(first.0, again, target, envs')
    ensures SkipsDone(first.0, second.0, insts, first.1, second.1, again)
  {
    BatchOver(w, insts, target, envs);
    BatchOver(first.0, again, target, envs');
    AllSkipped(w, first.0, second.0, insts, again, target, first.1, second.1);
  }

  ghost predicate SkipsDone(w': World, w'': World, insts: seq<Instance>, results: seq<Result>,
                            results': seq<Result>, again: seq<Instance>)
    requires |insts| == |results| && |again| == |results'|
  {
    forall i, j | 0 <= i < |insts| && 0 <= j < |again| && again[j].name == insts[i].name
                  && (results[i].Updated? || results[i].Skipped?) ::
      results'[j] == Skipped(insts[i].name) && Untouched(w', w'', insts[i].name)
  }

  ghost predicate EntriesOk(w: World, w': World, insts: seq<Instance>, target: string, results: seq<Result>) {
    |results| == |insts| && forall i | 0 <= i < |insts| :: EntryOk(w, w', insts[i], target, results[i])
  }

  lemma AllSkipped(w: World, w': World, w'': World, insts: seq<Instance>, again: seq<Instance>,
                   target: string, results: seq<Result>, results': seq<Result>)
    requires EntriesOk(w, w', insts, target, results) && EntriesOk(w', w'', again, target, results')
    requires ReadFrom(w', again)
    ensures SkipsDone(w', w'', insts, results, results', again)
  {
    forall i, j | 0 <= i < |insts| && 0 <= j < |again| && again[j].name == insts[i].name
                  && (results[i].Updated? || results[i].Skipped?)
      ensures results'[j] == Skipped(insts[i].name) && Untouched(w', w'', insts[i].name)
    {
      SkippedAgain(w, w', w'', insts[i], again[j], target, results[i], results'[j]);
    }
  }

  lemma SkippedAgain(w: World, w': World, w'': World, inst: Instance, inst': Instance, target: string,
                     result: Result, result': Result)
    requires EntryOk(w, w', inst, target, result) && (result.Updated? || result.Skipped?)
    requires inst'.name == inst.name && RecordOf(w', inst'.name) == Some(inst')
    requires EntryOk(w', w'', inst', target, result')
    ensures result' == Skipped(inst.name) && Untouched(w', w'', inst.name)
  {
  }

  // ------------------------------------------------------------------ rollback and reconcile

  /** A rollback that finds a record and a pointer stores the record with the image of `.prev`,
      white space stripped, keeps `.prev`, and changes nothing else. */
  lemma RollbackEffect(w: World, name: string, e: ApplyEnv)
    requires WellNamed(w.store) && RecordOf(w, name).Some? && name in w.store.prev
    ensures var inst, (w', r) := RecordOf(w, name).value, Rollback(w, name, e);
            var after := inst.(image := Strip(w.store.prev[name]));
            && w'.store.work == w.store.work[name := Record(after)]
            && w'.store.prev == w.store.prev && OnlyChanges(w, w', name)
            && (r.Ok? ==> StartedFrom(w'.docker, after) && r.value == Strip(w.store.prev[name]))
  {
    var inst := RecordOf(w, name).value;
    ApplyEffect(w, inst.(image := Strip(w.store.prev[name])), e);
  }

  /** A rollback returns exactly if there is a record and a pointer and the record with that image is
      applied; otherwise it says what is missing and changes nothing, or raises what the apply raised. */
  lemma RollbackReturnsIff(w: World, name: string, e: ApplyEnv)
    requires !Unsafe(name) && RecordOf(w, name).Some?
    ensures var inst, (w', r) := RecordOf(w, name).value, Rollback(w, name, e);
            if name !in w.store.prev then w' == w && r == Raised(NoPreviousImage)
            else
              var after := inst.(image := Strip(w.store.prev[name]));
              && (r.Ok? <==> ApplyReturns(w, after, e))
              && (r.Raised? ==> Raised(r.error) == Apply(w, after, e).1)
  {
    GetOutcome(w.store, name);
    if name in w.store.prev {
      ApplyOutcome(w, RecordOf(w, name).value.(image := Strip(w.store.prev[name])), e);
    }
  }

  /** When a removal of a record returns, and what it leaves and reports. */
  ghost predicate RemovedRecord(w: World, inst: Instance, g: Git, e: RemoveEnv, w': World, r: Try<Leave>) {
    var n := inst.name;
    && (r.Ok? <==> Removes(w.docker, inst, e) && LogPasses(w.store, n, None, g))
    && (r.Ok? ==> ReportsLeave(w.docker, inst, e, r.value))
    && if !Removes(w.docker, inst, e) then
         w'.store == w.store && r == Raised(DockerError) && RemovalBroken(w.docker, inst, e, w'.docker)
       else
         && Gone(w'.docker, n) && n !in w'.store.work && n !in w'.store.prev
         && (r.Raised? ==> r.error == ChangeLogRefused)
  }

  /** A removal of a name without a readable record: nothing is asked of Docker, and what is in the store
      under that name goes. */
  ghost predicate RemovedNothing(w: World, name: string, g: Git, w': World, r: Try<Leave>) {
    && w'.docker == w.docker
    && if Unsafe(name) then w' == w && r == Raised(UnsafeName)
       else if name in w.store.work && w.store.work[name].Rejected? then w' == w && r == Raised(InvalidRecord)
       else
         && name !in w'.store.work && name !in w'.store.prev
         && r == if name in w.store.work && !LogPasses(w.store, name, None, g) then Raised(ChangeLogRefused)
                 else Ok(Leave(true, false))
  }

  /** Every outcome of a removal. Whatever fails, other instances are not touched. */
  lemma RemoveOutcome(w: World, name: string, g: Git, e: RemoveEnv)
    requires WellNamed(w.store)
    ensures var (w', r) := Remove(w, name, g, e);
            && OnlyChanges(w, w', name)
            && match RecordOf(w, name)
               case Some(inst) => RemovedRecord(w, inst, g, e, w', r)
               case None => RemovedNothing(w, name, g, w', r)
  {
    GetOutcome(w.store, name);
    SafeNameIff(name);
    DeleteOutcome(w.store, name, g);
    if SafeName(name) {
      DeleteEffect(w.store, name, g);
    }
    if RecordOf(w, name).Some? {
      RemoveFound(w, RecordOf(w, name).value, g, e);
    }
  }

  lemma RemoveFound(w: World, inst: Instance, g: Git, e: RemoveEnv)
    requires WellNamed(w.store) && RecordOf(w, inst.name) == Some(inst)
    ensures var (w', r) := Remove(w, inst.name, g, e);
            OnlyChanges(w, w', inst.name) && RemovedRecord(w, inst, g, e, w', r)
  {
    GetOutcome(w.store, inst.name);
    SafeNameIff(inst.name);
    DeleteOutcome(w.store, inst.name, g);
    DeleteEffect(w.store, inst.name, g);
    RemoveReturnsIff(w.docker, inst, e);
    if RemoveInstance(w.docker, inst, e).1.Raised? {
      RemoveRaises(w.docker, inst, e);
    }
  }

  /** An update followed at once by a returning rollback restores the previous image exactly if
      that image has no white space at its ends. */
  lemma UpdateThenRollback(w: World, name: string, image: string, e: UpdateEnv, e': ApplyEnv)
    requires WellNamed(w.store) && RecordOf(w, name).Some?
    ensures var inst, w1 := RecordOf(w, name).value, Update(w, name, image, e).0;
            var w2 := Rollback(w1, name, e').0;
            RecordOf(w2, name) == Some(inst.(image := Strip(inst.image)))
            && (RecordOf(w2, name) == Some(inst) <==> Stripped(inst.image))
  {
    var inst, w1 := RecordOf(w, name).value, Update(w, name, image, e).0;
    var stored := UpdateHolds(w, name, image, e);
    PointerApplied(w1, name, inst, e');
  }

  /** A rollback to the image that this record has. */
  lemma PointerApplied(w: World, name: string, inst: Instance, e: ApplyEnv)
    requires WellNamed(w.store) && RecordOf(w, name).Some? && name in w.store.prev
    requires RecordOf(w, name) == Some(inst.(image := RecordOf(w, name).value.image)) && w.store.prev[name] == inst.image
    ensures var w' := Rollback(w, name, e).0;
            && RecordOf(w', name) == Some(inst.(image := Strip(inst.image)))
            && (RecordOf(w', name) == Some(inst) <==> Stripped(inst.image))
  {
    RollbackEffect(w, name, e);
    StripIdentity(inst.image);
    assert inst == inst.(image := inst.image);
  }

  /** Some instance could not be started: those before it were, it raised, and those after it were not
      touched. */
  ghost predicate StoppedAt(w: World, w': World, insts: seq<Instance>, envs: seq<RunEnv>, k: nat)
    requires k < |insts| == |envs|
  {
    !Starts(w.docker, insts[k], envs[k]) && AllStarted(w', insts[..k]) && OthersUntouched(w, w', insts[..k + 1])
  }

  ghost predicate AllStart(w: World, insts: seq<Instance>, envs: seq<RunEnv>)
    requires |insts| == |envs|
  {
    forall i | 0 <= i < |insts| :: Starts(w.docker, insts[i], envs[i])
  }

  ghost predicate AllStarted(w: World, insts: seq<Instance>) {
    forall i | 0 <= i < |insts| :: StartedFrom(w.docker, insts[i])
  }

  /** The loop returned exactly if every instance starts, by the state before the call, and then all of
      them run; otherwise it stopped at the first that does not. */
  ghost predicate Reconciled(w: World, insts: seq<Instance>, envs: seq<RunEnv>, w': World, r: Try<()>)
    requires |insts| == |envs|
  {
    && w'.store == w.store
    && (r.Ok? <==> AllStart(w, insts, envs))
    && (r.Ok? ==> AllStarted(w', insts) && OthersUntouched(w, w', insts))
    && (r.Raised? ==> exists k: nat :: k < |insts| && StoppedAt(w, w', insts, envs, k))
  }

  /** Reconciling instances of different names. */
  lemma {:induction false} ReconcileOutcome(w: World, insts: seq<Instance>, envs: seq<RunEnv>)
    requires |insts| == |envs| && DistinctNames(insts)
    ensures var (w', r) := ReconcileEach(w, insts, envs); Reconciled(w, insts, envs, w', r)
  {
    if insts != [] {
      var n := |insts| - 1;
      var (w1, r1) := ReconcileEach(w, insts[..n], envs[..n]);
      ReconcileOutcome(w, insts[..n], envs[..n]);
      if r1.Raised? {
        StoppedBefore(w, w1, insts, envs);
      } else {
        ReconcileLast(w, w1, insts, envs);
        LastTurn(w, w1, insts, envs);
      }
    }
  }

  lemma StoppedBefore(w: World, w1: World, insts: seq<Instance>, envs: seq<RunEnv>)
    requires insts != [] && |insts| == |envs|
    requires var n := |insts| - 1; exists k: nat :: k < n && StoppedAt(w, w1, insts[..n], envs[..n], k)
    ensures exists k: nat :: k < |insts| && StoppedAt(w, w1, insts, envs, k)
    ensures !AllStart(w, insts, envs)
  {
    var n := |insts| - 1;
    var k: nat :| k < n && StoppedAt(w, w1, insts[..n], envs[..n], k);
    assert insts[..n][k] == insts[k] && envs[..n][k] == envs[k];
    assert insts[..n][..k] == insts[..k] && insts[..n][..k + 1] == insts[..k + 1];
    assert StoppedAt(w, w1, insts, envs, k);
  }

  lemma LastTurn(w: World, w1: World, insts: seq<Instance>, envs: seq<RunEnv>)
    requires insts != [] && |insts| == |envs|
    requires var n := |insts| - 1;
             var (d, r) := EnsureRunning(w1.docker, insts[n], envs[n]);
             && AllStart(w, insts[..n], envs[..n])
             && (r.Ok? <==> Starts(w.docker, insts[n], envs[n]))
             && AllStarted(w1.(docker := d), insts[..n])
             && OthersUntouched(w, w1.(docker := d), insts)
    ensures var n := |insts| - 1;
            var (d, r) := EnsureRunning(w1.docker, insts[n], envs[n]);
            && (r.Ok? <==> AllStart(w, insts, envs))
            && (r.Raised? ==> exists k: nat :: k < |insts| && StoppedAt(w, w1.(docker := d), insts, envs, k))
  {
    var n := |insts| - 1;
    var (d, r) := EnsureRunning(w1.docker, insts[n], envs[n]);
    AllStartSnoc(w, insts, envs);
    if r.Raised? {
      assert insts[..n + 1] == insts;
      assert StoppedAt(w, w1.(docker := d), insts, envs, n);
    }
  }

  lemma AllStartSnoc(w: World, insts: seq<Instance>, envs: seq<RunEnv>)
    requires insts != [] && |insts| == |envs|
    ensures var n := |insts| - 1;
            AllStart(w, insts, envs) <==> AllStart(w, insts[..n], envs[..n]) && Starts(w.docker, insts[n], envs[n])
  {
    var n := |insts| - 1;
    forall i | 0 <= i < n ensures insts[..n][i] == insts[i] && envs[..n][i] == envs[i] {
    }
    if AllStart(w, insts[..n], envs[..n]) && Starts(w.docker, insts[n], envs[n]) {
      forall i | 0 <= i < |insts| ensures Starts(w.docker, insts[i], envs[i]) {
        assert i < n ==> Starts(w.docker, insts[..n][i], envs[..n][i]);
      }
    }
  }

  lemma ReconcileLast(w: World, w1: World, insts: seq<Instance>, envs: seq<RunEnv>)
    requires insts != [] && |insts| == |envs| && DistinctNames(insts) && w1.store == w.store
    requires var n := |insts| - 1; AllStarted(w1, insts[..n]) && OthersUntouched(w, w1, insts[..n])
    ensures var n := |insts| - 1;
            var (d, r) := EnsureRunning(w1.docker, insts[n], envs[n]);
            && (r.Ok? <==> Starts(w.docker, insts[n], envs[n]))
            && AllStarted(w1.(docker := d), insts[..n])
            && (r.Ok? ==> AllStarted(w1.(docker := d), insts))
            && OthersUntouched(w, w1.(docker := d), insts)
  {
    var n := |insts| - 1;
    var inst, e := insts[n], envs[n];
    var (d, r) := EnsureRunning(w1.docker, inst, e);
    EnsureElsewhere(w1.docker, inst, e);
    EnsureReturnsIff(w1.docker, inst, e);
    assert Untouched(w, w1, inst.name) by {
      assert forall i | 0 <= i < n :: insts[..n][i].name != inst.name;
    }
    if r.Ok? {
      EnsureStarts(w1.docker, inst, e);
    }
    OneMoreStarted(w, w1, w1.(docker := d), insts);
  }

  lemma OneMoreStarted(w: World, w1: World, w2: World, insts: seq<Instance>)
    requires insts != [] && DistinctNames(insts)
    requires var n := |insts| - 1;
             && AllStarted(w1, insts[..n]) && OthersUntouched(w, w1, insts[..n])
             && OnlyChanges(w1, w2, insts[n].name)
    ensures var n := |insts| - 1;
            && AllStarted(w2, insts[..n]) && OthersUntouched(w, w2, insts)
            && (StartedFrom(w2.docker, insts[n]) ==> AllStarted(w2, insts))
  {
    var n := |insts| - 1;
    forall i | 0 <= i < n ensures StartedFrom(w2.docker, insts[..n][i]) {
      assert insts[i].name != insts[n].name;
      StartedElsewhere(w1.docker, w2.docker, insts[n].name, insts[..n][i]);
    }
    AllStartedSnoc(w2, insts);
    StillUntouched(w, w1, w2, insts);
  }

  lemma AllStartedSnoc(w: World, insts: seq<Instance>)
    requires insts != []
    ensures var n := |insts| - 1;
            AllStarted(w, insts[..n]) && StartedFrom(w.docker, insts[n]) ==> AllStarted(w, insts)
  {
    var n := |insts| - 1;
    assert forall i | 0 <= i < n :: insts[i] == insts[..n][i];
  }

  lemma StillUntouched(w: World, w1: World, w2: World, insts: seq<Instance>)
    requires insts != [] && OthersUntouched(w, w1, insts[..|insts| - 1])
    requires OnlyChanges(w1, w2, insts[|insts| - 1].name)
    ensures OthersUntouched(w, w2, insts)
  {
    var n := |insts| - 1;
    forall m | (forall i | 0 <= i < |insts| :: insts[i].name != m) ensures Untouched(w, w2, m) {
      assert m != insts[n].name && forall i | 0 <= i < n :: insts[..n][i].name != m;
      OnlyChangesElsewhere(w1, w2, insts[n].name, m);
      UntouchedTwice(w, w1, w2, m);
    }
  }

  lemma StartedElsewhere(d: DockerState, d': DockerState, name: string, inst: Instance)
    requires StartedFrom(d, inst) && SameOthers(d, d', name) && inst.name != name
    ensures StartedFrom(d', inst)
  {
    assert VolumeName(inst.name) in d.volumes;
  }
}
