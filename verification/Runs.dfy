/** Whole runs of the control plane: any sequence of operations with any failures. */
module Runs {
  import opened Text
  import opened Records
  import opened StoreSpec
  import opened DockerSpec
  import opened ControlSpec
  import opened Names

  datatype Op =
    | OpApply(inst: Instance, env: ApplyEnv)                       // create and patch
    | OpUpdate(name: string, image: string, updateEnv: UpdateEnv)
    | OpUpdateAll(order: seq<string>, target: string, envs: nat -> UpdateEnv)
    | OpRollback(name: string, env: ApplyEnv)
    | OpRemove(name: string, git: Git, removeEnv: RemoveEnv)
    | OpReconcile(order: seq<string>, runEnvs: nat -> RunEnv)

  function Answers<T>(envs: nat -> T, n: nat): (s: seq<T>)
    ensures |s| == n && forall i | 0 <= i < n :: s[i] == envs(i)
  {
    if n == 0 then [] else Answers(envs, n - 1) + [envs(n - 1)]
  }

  ghost function Step(w: World, op: Op): World {
    match op
    case OpApply(inst, e) => Apply(w, inst, e).0
    case OpUpdate(name, image, e) => Update(w, name, image, e).0
    case OpUpdateAll(order, target, envs) =>
      var insts := Listed(w.store, order);
      UpdateEach(w, insts, target, Answers(envs, |insts|)).0
    case OpRollback(name, e) => Rollback(w, name, e).0
    case OpRemove(name, g, e) => Remove(w, name, g, e).0
    case OpReconcile(order, envs) =>
      var insts := Listed(w.store, order);
      ReconcileEach(w, insts, Answers(envs, |insts|)).0
  }

  ghost function Run(w: World, ops: seq<Op>): World {
    if ops == [] then w else Step(Run(w, ops[..|ops| - 1]), ops[|ops| - 1])
  }

  /** An empty instances directory, inside a repository or not, beside any Docker state. */
  ghost predicate Initial(w: World) {
    && w.store.work == map[] && w.store.index == map[] && w.store.head == map[]
    && w.store.log == [] && w.store.prev == map[] && w.store.journal == []
  }

  // ------------------------------------------------------------------ the store through an operation

  /** One write to the store: a put, a delete, or a rollback pointer set to the image that the
      record of that name has. */
  datatype Micro =
    | MicroPut(inst: Instance, git: Git)
    | MicroDelete(name: string, git: Git)
    | MicroPointer(name: string)

  function MicroStep(s: StoreState, m: Micro): StoreState {
    match m
    case MicroPut(inst, g) => Put(s, inst, g).0
    case MicroDelete(name, g) => Delete(s, name, g).0
    case MicroPointer(name) =>
      match Get(s, name)
      case Ok(Some(inst)) => s.(prev := s.prev[name := inst.image])
      case _ => s
  }

  function Micros(s: StoreState, ms: seq<Micro>): StoreState {
    if ms == [] then s else MicroStep(Micros(s, ms[..|ms| - 1]), ms[|ms| - 1])
  }

  lemma {:induction false} MicrosConcat(s: StoreState, a: seq<Micro>, b: seq<Micro>)
    ensures Micros(s, a + b) == Micros(Micros(s, a), b)
  {
    if b == [] {
      assert a + b == a;
    } else {
      var n := |b| - 1;
      MicrosConcat(s, a, b[..n]);
      assert (a + b)[..|a + b| - 1] == a + b[..n];
    }
  }

  lemma MicrosOne(s: StoreState, m: Micro)
    ensures Micros(s, [m]) == MicroStep(s, m)
  {
    assert [m][..0] == [];
  }

  lemma MicrosTwo(s: StoreState, m: Micro, m': Micro)
    ensures Micros(s, [m, m']) == MicroStep(MicroStep(s, m), m')
  {
    assert [m, m'] == [m] + [m'];
    MicrosConcat(s, [m], [m']);
    MicrosOne(s, m);
    MicrosOne(MicroStep(s, m), m');
  }

  lemma MicrosThree(s: StoreState, a: Micro, b: Micro, c: Micro)
    ensures Micros(s, [a, b]) == MicroStep(MicroStep(s, a), b)
    ensures Micros(s, [a, b] + [c]) == MicroStep(MicroStep(MicroStep(s, a), b), c)
  {
    MicrosTwo(s, a, b);
    MicrosConcat(s, [a, b], [c]);
    MicrosOne(Micros(s, [a, b]), c);
  }

  /** Every git answer of these writes was good. */
  ghost predicate FineMicros(ms: seq<Micro>) {
    forall m | m in ms :: m.MicroPointer? || Fine(m.git)
  }

  /** The writes of an update, in order. */
  ghost function UpdateMicros(w: World, name: string, image: string, e: UpdateEnv): seq<Micro> {
    match Get(w.store, name)
    case Ok(Some(inst)) =>
      var first := [MicroPointer(name), MicroPut(inst.(image := image), e.first.git)];
      if Apply(WithPrev(w, name, inst.image), inst.(image := image), e.first).1.Raised? || e.watch.NotHealthy?
      then first + [MicroPut(inst, e.second.git)]
      else first
    case _ => []
  }

  /** The store after an update of this record: the pointer, the new record, and the old one again if that
      was called for. */
  lemma UpdateStores(w: World, name: string, image: string, e: UpdateEnv, inst: Instance)
    requires Get(w.store, name) == Ok(Some(inst))
    ensures var w1 := WithPrev(w, name, inst.image);
            var (w2, r) := Apply(w1, inst.(image := image), e.first);
            && w2.store == Put(w1.store, inst.(image := image), e.first.git).0
            && Update(w, name, image, e).0.store
               == if r.Raised? || e.watch.NotHealthy? then Put(w2.store, inst, e.second.git).0 else w2.store
  {
  }

  lemma UpdateIsMicros(w: World, name: string, image: string, e: UpdateEnv)
    ensures Update(w, name, image, e).0.store == Micros(w.store, UpdateMicros(w, name, image, e))
  {
    var got := Get(w.store, name);
    if got.Ok? && got.value.Some? {
      var inst := got.value.value;
      UpdateStores(w, name, image, e, inst);
      MicrosThree(w.store, MicroPointer(name), MicroPut(inst.(image := image), e.first.git), MicroPut(inst, e.second.git));
    }
  }

  ghost function BatchMicros(w: World, insts: seq<Instance>, target: string, envs: seq<UpdateEnv>): seq<Micro>
    requires |insts| == |envs|
  {
    if insts == [] then []
    else
      var n := |insts| - 1;
      var w1 := UpdateEach(w, insts[..n], target, envs[..n]).0;
      BatchMicros(w, insts[..n], target, envs[..n])
      + if insts[n].image == target then [] else UpdateMicros(w1, insts[n].name, target, envs[n])
  }

  lemma {:induction false} BatchIsMicros(w: World, insts: seq<Instance>, target: string, envs: seq<UpdateEnv>)
    requires |insts| == |envs|
    ensures UpdateEach(w, insts, target, envs).0.store == Micros(w.store, BatchMicros(w, insts, target, envs))
  {
    if insts != [] {
      var n := |insts| - 1;
      BatchIsMicros(w, insts[..n], target, envs[..n]);
      var w1 := UpdateEach(w, insts[..n], target, envs[..n]).0;
      UpdateIsMicros(w1, insts[n].name, target, envs[n]);
      var more := if insts[n].image == target then [] else UpdateMicros(w1, insts[n].name, target, envs[n]);
      MicrosConcat(w.store, BatchMicros(w, insts[..n], target, envs[..n]), more);
    }
  }

  lemma {:induction false} ReconcileKeepsStore(w: World, insts: seq<Instance>, envs: seq<RunEnv>)
    requires |insts| == |envs|
    ensures ReconcileEach(w, insts, envs).0.store == w.store
  {
    if insts != [] {
      ReconcileKeepsStore(w, insts[..|insts| - 1], envs[..|insts| - 1]);
    }
  }

  /** The writes of an operation. */
  ghost function OpMicros(w: World, op: Op): seq<Micro> {
    match op
    case OpApply(inst, e) => [MicroPut(inst, e.git)]
    case OpUpdate(name, image, e) => UpdateMicros(w, name, image, e)
    case OpUpdateAll(order, target, envs) =>
      var insts := Listed(w.store, order);
      BatchMicros(w, insts, target, Answers(envs, |insts|))
    case OpRollback(name, e) =>
      (match Get(w.store, name)
       case Ok(Some(inst)) =>
         if name in w.store.prev then [MicroPut(inst.(image := Strip(w.store.prev[name])), e.git)] else []
       case _ => [])
    case OpRemove(name, g, e) =>
      (match Get(w.store, name)
       case Ok(Some(inst)) =>
         if RemoveInstance(w.docker, inst, e).1.Raised? then [] else [MicroDelete(name, g)]
       case Ok(None) => [MicroDelete(name, g)]
       case Raised(_) => [])
    case OpReconcile(order, envs) => []
  }

  /** Whatever fails, an operation changes the store by its writes. */
  lemma StepIsMicros(w: World, op: Op)
    ensures Step(w, op).store == Micros(w.store, OpMicros(w, op))
  {
    match op
    case OpApply(inst, e) =>
      MicrosOne(w.store, MicroPut(inst, e.git));
    case OpUpdate(name, image, e) =>
      UpdateIsMicros(w, name, image, e);
    case OpUpdateAll(order, target, envs) =>
      var insts := Listed(w.store, order);
      BatchIsMicros(w, insts, target, Answers(envs, |insts|));
    case OpRollback(name, e) =>
      var got := Get(w.store, name);
      if got.Ok? && got.value.Some? && name in w.store.prev {
        MicrosOne(w.store, MicroPut(got.value.value.(image := Strip(w.store.prev[name])), e.git));
      }
    case OpRemove(name, g, e) =>
      MicrosOne(w.store, MicroDelete(name, g));
    case OpReconcile(order, envs) =>
      var insts := Listed(w.store, order);
      ReconcileKeepsStore(w, insts, Answers(envs, |insts|));
  }

  // ------------------------------------------------------------------ the invariant

  /** The images that the record of this name has carried since it was last created. */
  function Carried(journal: seq<Write>, name: string): set<string> {
    if journal == [] then {}
    else
      var n := |journal| - 1;
      match journal[n]
      case Wrote(inst) =>
        if inst.name == name then Carried(journal[..n], name) + {inst.image} else Carried(journal[..n], name)
      case Deleted(m) => if m == name then {} else Carried(journal[..n], name)
  }

  lemma CarriedSnoc(journal: seq<Write>, write: Write, name: string)
    ensures Carried(journal + [write], name)
            == if write.Deleted? && write.name == name then {}
               else if write.Wrote? && write.inst.name == name then Carried(journal, name) + {write.inst.image}
               else Carried(journal, name)
  {
    assert (journal + [write])[..|journal|] == journal;
  }

  /** Each record is stored under its own name and carries its image; every rollback pointer
      belongs to a record and names an image that record carried since it was last created. */
  ghost predicate Sound(s: StoreState) {
    && (forall n | n in s.work ::
          && SafeName(n) && s.work[n].Record? && s.work[n].inst.name == n
          && s.work[n].inst.image in Carried(s.journal, n))
    && (forall n | n in s.prev :: n in s.work && s.prev[n] in Carried(s.journal, n))
  }

  lemma PutSound(s: StoreState, inst: Instance, g: Git)
    requires Sound(s)
    ensures Sound(Put(s, inst, g).0)
  {
    if SafeName(inst.name) {
      PutEffect(s, inst, g);
      var s' := Put(s, inst, g).0;
      forall n | n in s'.work
        ensures SafeName(n) && s'.work[n].Record? && s'.work[n].inst.name == n
        ensures s'.work[n].inst.image in Carried(s'.journal, n)
      {
        CarriedSnoc(s.journal, Wrote(inst), n);
      }
      forall n | n in s'.prev ensures n in s'.work && s'.prev[n] in Carried(s'.journal, n) {
        CarriedSnoc(s.journal, Wrote(inst), n);
      }
    }
  }

  lemma DeleteSound(s: StoreState, name: string, g: Git)
    requires Sound(s)
    ensures Sound(Delete(s, name, g).0)
  {
    if SafeName(name) {
      DeleteEffect(s, name, g);
      var s' := Delete(s, name, g).0;
      forall n | n in s'.work
        ensures SafeName(n) && s'.work[n].Record? && s'.work[n].inst.name == n
        ensures s'.work[n].inst.image in Carried(s'.journal, n)
      {
        CarriedSnoc(s.journal, Deleted(name), n);
      }
      forall n | n in s'.prev ensures n in s'.work && s'.prev[n] in Carried(s'.journal, n) {
        CarriedSnoc(s.journal, Deleted(name), n);
      }
    }
  }

  lemma {:induction false} MicrosSound(s: StoreState, ms: seq<Micro>)
    requires Sound(s)
    ensures Sound(Micros(s, ms))
  {
    if ms != [] {
      var n := |ms| - 1;
      var s1 := Micros(s, ms[..n]);
      MicrosSound(s, ms[..n]);
      match ms[n]
      case MicroPut(inst, g) => PutSound(s1, inst, g);
      case MicroDelete(name, g) => DeleteSound(s1, name, g);
      case MicroPointer(name) =>
    }
  }

  /** In every state reachable by any sequence of operations with any failures. */
  lemma {:induction false} ReachableSound(w: World, ops: seq<Op>)
    requires Initial(w)
    ensures Sound(Run(w, ops).store) && WellNamed(Run(w, ops).store)
  {
    if ops != [] {
      var before := Run(w, ops[..|ops| - 1]);
      ReachableSound(w, ops[..|ops| - 1]);
      StepIsMicros(before, ops[|ops| - 1]);
      MicrosSound(before.store, OpMicros(before, ops[|ops| - 1]));
    }
  }

  // ------------------------------------------------------------------ the change log

  lemma {:induction false} MicrosReplay(s: StoreState, ms: seq<Micro>)
    requires Replays(s)
    ensures Replays(Micros(s, ms))
  {
    if ms != [] {
      var n := |ms| - 1;
      var s1 := Micros(s, ms[..n]);
      MicrosReplay(s, ms[..n]);
      match ms[n]
      case MicroPut(inst, g) => PutReplays(s1, inst, g);
      case MicroDelete(name, g) => DeleteReplays(s1, name, g);
      case MicroPointer(name) =>
    }
  }

  lemma {:induction false} MicrosSynced(s: StoreState, ms: seq<Micro>)
    requires s.repo && Synced(s) && FineMicros(ms)
    ensures Synced(Micros(s, ms)) && Micros(s, ms).repo
  {
    if ms != [] {
      var n := |ms| - 1;
      var s1 := Micros(s, ms[..n]);
      assert FineMicros(ms[..n]);
      MicrosSynced(s, ms[..n]);
      assert ms[n] in ms;
      match ms[n]
      case MicroPut(inst, g) => PutSynced(s1, inst, g);
      case MicroDelete(name, g) => DeleteSynced(s1, name, g);
      case MicroPointer(name) =>
    }
  }

  /** No git process of the run failed. */
  ghost predicate GitFine(w: World, ops: seq<Op>) {
    forall k | 0 <= k < |ops| :: FineMicros(OpMicros(Run(w, ops[..k]), ops[k]))
  }

  /** In every reachable state the log replays to HEAD; as long as git works, HEAD, index and
      records are the same, so the log rebuilds the records. */
  lemma {:induction false} LogRebuildsRecords(w: World, ops: seq<Op>)
    requires Initial(w)
    ensures var s := Run(w, ops).store;
            && Replay(s.log) == s.head
            && (w.store.repo && GitFine(w, ops) ==> s.head == s.index == s.work && Replay(s.log) == s.work)
  {
    SyncedRun(w, ops);
  }

  lemma {:induction false} SyncedRun(w: World, ops: seq<Op>)
    requires Initial(w)
    ensures var s := Run(w, ops).store;
            Replays(s) && (w.store.repo && GitFine(w, ops) ==> s.repo && Synced(s))
  {
    if ops != [] {
      var n := |ops| - 1;
      var before := Run(w, ops[..n]);
      SyncedRun(w, ops[..n]);
      StepIsMicros(before, ops[n]);
      MicrosReplay(before.store, OpMicros(before, ops[n]));
      if w.store.repo && GitFine(w, ops) {
        GitFinePrefix(w, ops);
        MicrosSynced(before.store, OpMicros(before, ops[n]));
      }
    }
  }

  lemma GitFinePrefix(w: World, ops: seq<Op>)
    requires ops != [] && GitFine(w, ops)
    ensures var n := |ops| - 1; GitFine(w, ops[..n]) && FineMicros(OpMicros(Run(w, ops[..n]), ops[n]))
  {
    var n := |ops| - 1;
    forall k | 0 <= k < n ensures FineMicros(OpMicros(Run(w, ops[..n][..k]), ops[..n][k])) {
      assert ops[..n][..k] == ops[..k];
    }
  }

  // ------------------------------------------------------------------ the loops in reachable states

  /** Some run from an empty directory leads here. */
  ghost predicate Reachable(w: World) {
    exists start, ops :: Initial(start) && w == Run(start, ops)
  }

  lemma ReachableNamed(w: World)
    requires Reachable(w)
    ensures WellNamed(w.store)
  {
    var start, ops :| Initial(start) && w == Run(start, ops);
    ReachableSound(start, ops);
  }

  /** In every reachable state `update_all` reports every listed instance once, in order, whatever
      fails: each record ends with its original image or the target, entries reported as updated
      hold the target, rolled back ones the original, failed ones the target exactly if their health
      watch was lost, and the ones already there are skipped without being touched; so is every name
      that is not listed. */
  lemma BatchReports(w: World, order: seq<string>, target: string, envs: seq<UpdateEnv>)
    requires Reachable(w) && Distinct(order) && |envs| == |Listed(w.store, order)|
    ensures var insts := Listed(w.store, order);
            var (w', results) := UpdateEach(w, insts, target, envs);
            && ReadFrom(w, insts) && EntriesOk(w, w', insts, target, results)
            && TurnsOk(w, w', insts, target, envs, results) && OthersUntouched(w, w', insts)
  {
    ReachableNamed(w);
    ListedReadFrom(w, order);
    BatchOver(w, Listed(w.store, order), target, envs);
    BatchTurns(w, Listed(w.store, order), target, envs);
  }

  /** A second `update_all`, whatever it lists, skips without touching it every instance the first
      one updated or skipped. */
  lemma SecondBatchSkips(w: World, order: seq<string>, target: string, envs: seq<UpdateEnv>,
                         first: (World, seq<Result>), again: seq<string>, envs': seq<UpdateEnv>,
                         second: (World, seq<Result>))
    requires Reachable(w) && Distinct(order) && Distinct(again)
    requires |envs| == |Listed(w.store, order)| && first == UpdateEach(w, Listed(w.store, order), target, envs)
    requires |envs'| == |Listed(first.0.store, again)|
             && second == UpdateEach(first.0, Listed(first.0.store, again), target, envs')
    ensures SkipsDone(first.0, second.0, Listed(w.store, order), first.1, second.1, Listed(first.0.store, again))
  {
    ReachableNamed(w);
    ListedReadFrom(w, order);
    BatchOver(w, Listed(w.store, order), target, envs);
    ListedReadFrom(first.0, again);
    SecondBatchOver(w, Listed(w.store, order), target, envs, Listed(first.0.store, again), envs', first, second);
  }

  /** In every reachable state reconciling leaves the store alone, and when it returns every listed
      instance runs in a container started from its stored record. */
  lemma ReconcileStarts(w: World, order: seq<string>, envs: seq<RunEnv>)
    requires Reachable(w) && Distinct(order) && |envs| == |Listed(w.store, order)|
    ensures var insts := Listed(w.store, order);
            var (w', r) := ReconcileEach(w, insts, envs);
            Reconciled(w, insts, envs, w', r) && ReadFrom(w', insts)
  {
    ReachableNamed(w);
    ListedReadFrom(w, order);
    ReconcileOutcome(w, Listed(w.store, order), envs);
  }

  // ------------------------------------------------------------------ rollback after other work

  /** An operation on another instance, a patch of this record that leaves its image alone, a
      batch without this record or to the image it has, or a reconciliation. */
  ghost predicate LeavesImage(w: World, op: Op, name: string) {
    match op
    case OpApply(inst, _) =>
      inst.name == name ==> RecordOf(w, name).Some? && inst.image == RecordOf(w, name).value.image
    case OpUpdate(other, _, _) => other != name
    case OpRollback(other, _) => other != name
    case OpRemove(other, _, _) => other != name
    case OpReconcile(_, _) => true
    case OpUpdateAll(order, target, _) =>
      name in order ==> RecordOf(w, name).Some? && target == RecordOf(w, name).value.image
  }

  ghost predicate AllLeaveImage(w: World, ops: seq<Op>, name: string) {
    forall k | 0 <= k < |ops| :: LeavesImage(Run(w, ops[..k]), ops[k], name)
  }

  /** The record of `name` has this image, and its pointer names that one. */
  ghost predicate At(w: World, name: string, image: string, previous: string) {
    && WellNamed(w.store)
    && RecordOf(w, name).Some? && RecordOf(w, name).value.image == image
    && name in w.store.prev && w.store.prev[name] == previous
  }

  lemma RemoveElsewhere(w: World, other: string, g: Git, e: RemoveEnv, name: string, image: string, previous: string)
    requires At(w, name, image, previous) && other != name
    ensures At(Remove(w, other, g, e).0, name, image, previous)
  {
    var w' := Remove(w, other, g, e).0;
    if SafeName(other) && w'.store != w.store {
      DeleteEffect(w.store, other, g);
      AtStays(w.store, w'.store, other, name);
    }
  }

  lemma AtStays(s: StoreState, s': StoreState, other: string, name: string)
    requires WellNamed(s) && s'.work == s.work - {other} && s'.prev == s.prev - {other} && other != name
    ensures WellNamed(s') && Entry(s'.work, name) == Entry(s.work, name)
    ensures name in s.prev ==> name in s'.prev && s'.prev[name] == s.prev[name]
  {
  }

  lemma ApplyKeeps(w: World, inst: Instance, e: ApplyEnv, name: string, image: string, previous: string)
    requires At(w, name, image, previous)
    requires inst.name == name ==> inst.image == image
    ensures At(Apply(w, inst, e).0, name, image, previous)
  {
    if SafeName(inst.name) {
      ApplyEffect(w, inst, e);
    }
  }

  /** A batch over these instances skips this name or does not meet it. */
  ghost predicate Spares(insts: seq<Instance>, target: string, name: string) {
    forall i | 0 <= i < |insts| :: insts[i].name == name ==> insts[i].image == target
  }

  lemma {:induction false} BatchKeeps(w: World, insts: seq<Instance>, target: string, envs: seq<UpdateEnv>,
                                      name: string, image: string, previous: string)
    requires |insts| == |envs| && At(w, name, image, previous)
    requires Spares(insts, target, name)
    ensures At(UpdateEach(w, insts, target, envs).0, name, image, previous)
  {
    if insts != [] {
      var n := |insts| - 1;
      BatchKeeps(w, insts[..n], target, envs[..n], name, image, previous);
      if insts[n].image != target {
        UpdateElsewhere(UpdateEach(w, insts[..n], target, envs[..n]).0, insts[n].name, target, envs[n],
          name, image, previous);
      }
    }
  }

  lemma UpdateElsewhere(w: World, other: string, to: string, e: UpdateEnv, name: string, image: string, previous: string)
    requires At(w, name, image, previous) && other != name
    ensures At(Update(w, other, to, e).0, name, image, previous)
  {
    if RecordOf(w, other).Some? {
      var stored := UpdateHolds(w, other, to, e);
    } else {
      UnknownName(w, other, to, e, e.second);
    }
  }

  lemma RollbackElsewhere(w: World, other: string, e: ApplyEnv, name: string, image: string, previous: string)
    requires At(w, name, image, previous) && other != name
    ensures At(Rollback(w, other, e).0, name, image, previous)
  {
    if RecordOf(w, other).Some? && other in w.store.prev {
      RollbackEffect(w, other, e);
    }
  }

  lemma ListedImage(w: World, order: seq<string>, target: string, name: string, image: string, previous: string)
    requires At(w, name, image, previous) && (name in order ==> target == image)
    ensures Spares(Listed(w.store, order), target, name)
  {
    var insts := Listed(w.store, order);
    ListedInOrder(w, order);
    forall i | 0 <= i < |insts| && insts[i].name == name ensures insts[i].image == target {
      assert insts[i].name in order;
    }
  }

  lemma StepKeepsImage(w: World, op: Op, name: string, image: string, previous: string)
    requires At(w, name, image, previous) && LeavesImage(w, op, name)
    ensures At(Step(w, op), name, image, previous)
  {
    match op
    case OpApply(inst, e) => ApplyKeeps(w, inst, e, name, image, previous);
    case OpUpdate(other, to, e) => UpdateElsewhere(w, other, to, e, name, image, previous);
    case OpRollback(other, e) => RollbackElsewhere(w, other, e, name, image, previous);
    case OpRemove(other, g, e) => RemoveElsewhere(w, other, g, e, name, image, previous);
    case OpReconcile(order, envs) =>
      var insts := Listed(w.store, order);
      ReconcileKeepsStore(w, insts, Answers(envs, |insts|));
    case OpUpdateAll(order, target, envs) =>
      var insts := Listed(w.store, order);
      ListedImage(w, order, target, name, image, previous);
      BatchKeeps(w, insts, target, Answers(envs, |insts|), name, image, previous);
  }

  lemma {:induction false} RunKeepsImage(w: World, ops: seq<Op>, name: string, image: string, previous: string)
    requires At(w, name, image, previous) && AllLeaveImage(w, ops, name)
    ensures At(Run(w, ops), name, image, previous)
  {
    if ops != [] {
      var n := |ops| - 1;
      assert AllLeaveImage(w, ops[..n], name) by {
        assert forall k | 0 <= k < n :: ops[..n][..k] == ops[..k];
      }
      RunKeepsImage(w, ops[..n], name, image, previous);
      StepKeepsImage(Run(w, ops[..n]), ops[n], name, image, previous);
    }
  }

  /** The record, the image and the answer. */
  lemma RollbackOfWork(w: World, name: string, image: string, e: UpdateEnv, ops: seq<Op>,
                       e1: ApplyEnv, e2: ApplyEnv)
    requires WellNamed(w.store) && RecordOf(w, name).Some?
    requires Update(w, name, image, e).1.Ok? && Update(w, name, image, e).1.value.Updated?
    requires AllLeaveImage(Update(w, name, image, e).0, ops, name)
    ensures var before := RecordOf(w, name).value.image;
            var w1 := Run(Update(w, name, image, e).0, ops);
            var (w2, r) := Rollback(w1, name, e1);
            && RecordOf(w1, name).Some?
            && RecordOf(w2, name) == Some(RecordOf(w1, name).value.(image := Strip(before)))
            && (r.Ok? ==> r.value == Strip(before) && StartedFrom(w2.docker, RecordOf(w2, name).value))
            && Rollback(w2, name, e2).0.store.work == w2.store.work
  {
    var before := RecordOf(w, name).value.image;
    var w0 := Update(w, name, image, e).0;
    UpdateTransaction(w, name, image, e);
    assert At(w0, name, image, before);
    WorkRolledBack(w0, name, image, before, ops, e1, e2);
  }

  lemma WorkRolledBack(w: World, name: string, image: string, before: string, ops: seq<Op>, e1: ApplyEnv, e2: ApplyEnv)
    requires At(w, name, image, before) && AllLeaveImage(w, ops, name)
    ensures var w1 := Run(w, ops);
            var (w2, r) := Rollback(w1, name, e1);
            && RecordOf(w1, name).Some?
            && RecordOf(w2, name) == Some(RecordOf(w1, name).value.(image := Strip(before)))
            && (r.Ok? ==> r.value == Strip(before) && StartedFrom(w2.docker, RecordOf(w2, name).value))
            && Rollback(w2, name, e2).0.store.work == w2.store.work
  {
    RunKeepsImage(w, ops, name, image, before);
    RollbackTwice(Run(w, ops), name, image, before, e1, e2);
  }

  /** After a successful update and any later operations that leave this record's image alone, a
      rollback stores the image from before the update without white space around it (so exactly that
      image iff it has none) in the record as it is now, patches included; a second rollback changes
      no record. */
  lemma RollbackAfterWork(w: World, name: string, image: string, e: UpdateEnv, ops: seq<Op>,
                          e1: ApplyEnv, e2: ApplyEnv)
    requires WellNamed(w.store) && RecordOf(w, name).Some?
    requires Update(w, name, image, e).1.Ok? && Update(w, name, image, e).1.value.Updated?
    requires AllLeaveImage(Update(w, name, image, e).0, ops, name)
    ensures var before := RecordOf(w, name).value.image;
            var w1 := Run(Update(w, name, image, e).0, ops);
            var (w2, r) := Rollback(w1, name, e1);
            && RecordOf(w1, name).Some?
            && RecordOf(w2, name) == Some(RecordOf(w1, name).value.(image := Strip(before)))
            && (r.Ok? ==> r.value == Strip(before) && StartedFrom(w2.docker, RecordOf(w2, name).value))
            && Rollback(w2, name, e2).0.store.work == w2.store.work
            && (RecordOf(w2, name).value.image == before <==> Stripped(before))
  {
    RollbackOfWork(w, name, image, e, ops, e1, e2);
    StripIdentity(RecordOf(w, name).value.image);
  }

  lemma RollbackTwice(w: World, name: string, image: string, previous: string, e1: ApplyEnv, e2: ApplyEnv)
    requires At(w, name, image, previous)
    ensures var (w2, r) := Rollback(w, name, e1);
            && RecordOf(w2, name) == Some(RecordOf(w, name).value.(image := Strip(previous)))
            && (r.Ok? ==> r.value == Strip(previous) && StartedFrom(w2.docker, RecordOf(w2, name).value))
            && Rollback(w2, name, e2).0.store.work == w2.store.work
  {
    var w2 := Rollback(w, name, e1).0;
    RollbackEffect(w, name, e1);
    RollbackEffect(w2, name, e2);
    var inst := RecordOf(w2, name).value;
    assert inst == inst.(image := Strip(previous));
  }
}
