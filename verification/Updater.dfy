/** `controlplane/lmnradius/updater.py`: the class itself, against `ControlSpec`. */
module Updater {
  import opened Text
  import opened Records
  import opened Store
  import opened Docker
  import opened Reconciler
  import S = StoreSpec
  import D = DockerSpec
  import C = ControlSpec
  import P = Polling

  /** One more entry of the batch. */
  lemma BatchSnoc(w: C.World, insts: seq<Instance>, target: string, envs: seq<C.UpdateEnv>, i: nat,
                  w1: C.World, results: seq<C.Result>, e: C.UpdateEnv, w2: C.World, result: C.Result)
    requires i < |insts| && |envs| == i
    requires (w1, results) == C.UpdateEach(w, insts[..i], target, envs)
    requires (w2, result) == C.UpdateOne(w1, insts[i], target, e)
    ensures C.UpdateEach(w, insts[..i + 1], target, envs + [e]) == (w2, results + [result])
  {
    assert insts[..i + 1][..i] == insts[..i];
    assert (envs + [e])[..i] == envs;
  }

  class Updater {
    const reconciler: Reconciler
    const healthTimeout: int

    constructor (reconciler: Reconciler, healthTimeout: int)
      ensures this.reconciler == reconciler && this.healthTimeout == healthTimeout
    {
      this.reconciler, this.healthTimeout := reconciler, healthTimeout;
    }

    ghost function World(): C.World
      reads reconciler.store, reconciler.docker
    {
      reconciler.World()
    }

    /** `polls` are the answers of the health watch and `watch` is what they amount to; it is
        asked for only when the new image was applied. */
    method Update(name: string, image: string, first: C.ApplyEnv, polls: P.Polls, second: C.ApplyEnv)
      returns (r: Try<C.Result>, ghost watch: P.Watch)
      modifies reconciler.store, reconciler.docker
      ensures exists n :: P.Reports(polls, healthTimeout, watch, n)
      ensures (World(), r) == C.Update(old(World()), name, image, C.UpdateEnv(first, watch, second))
    {
      ghost var last;
      watch, last := P.ReportExists(polls, healthTimeout);
      var store := reconciler.store;
      var got := store.Get(name);
      if got.Raised? {
        return Raised(got.error), watch;
      }
      if got.value.None? {
        return Raised(NoSuchInstance), watch;
      }
      var inst := got.value.value;
      var previous := inst.image;
      store.WritePrev(name, previous);
      var applied := reconciler.Apply(inst.(image := image), first);
      if applied.Raised? {
        var restored := reconciler.Apply(inst, second);
        if restored.Raised? {
          return Raised(restored.error), watch;
        }
        return Ok(C.RolledBack(name, previous, image)), watch;
      }
      var w, n := P.WaitHealthy(polls, healthTimeout);
      watch := w;
      if w.WatchBroken? {
        return Raised(DockerError), watch;
      }
      if w.TurnedHealthy? {
        return Ok(C.Updated(name, image, previous)), watch;
      }
      var restored := reconciler.Apply(inst, second);
      if restored.Raised? {
        return Raised(restored.error), watch;
      }
      r := Ok(C.RolledBack(name, previous, image));
    }

    /** Every entry used its own answers, and its watch is what its polls amount to. */
    ghost predicate Answers(first: seq<C.ApplyEnv>, polls: seq<P.Polls>, second: seq<C.ApplyEnv>,
                            envs: seq<C.UpdateEnv>) {
      |envs| <= |first| == |polls| == |second|
      && forall k | 0 <= k < |envs| ::
           envs[k].first == first[k] && envs[k].second == second[k] && Watched(polls[k], envs[k].watch)
    }

    ghost predicate Watched(polls: P.Polls, watch: P.Watch) {
      exists n :: P.Reports(polls, healthTimeout, watch, n)
    }

    lemma AnswersSnoc(first: seq<C.ApplyEnv>, polls: seq<P.Polls>, second: seq<C.ApplyEnv>,
                      envs: seq<C.UpdateEnv>, e: C.UpdateEnv)
      requires Answers(first, polls, second, envs) && |envs| < |first|
      requires e.first == first[|envs|] && e.second == second[|envs|] && Watched(polls[|envs|], e.watch)
      ensures Answers(first, polls, second, envs + [e])
    {
    }

    /** The body of the batch loop. */
    method UpdateNext(inst: Instance, target: string, first: C.ApplyEnv, polls: P.Polls, second: C.ApplyEnv)
      returns (result: C.Result, ghost e: C.UpdateEnv)
      modifies reconciler.store, reconciler.docker
      ensures e.first == first && e.second == second && Watched(polls, e.watch)
      ensures (World(), result) == C.UpdateOne(old(World()), inst, target, e)
    {
      ghost var watch, last := P.ReportExists(polls, healthTimeout);
      e := C.UpdateEnv(first, watch, second);
      if inst.image == target {
        return C.Skipped(inst.name), e;
      }
      var r;
      r, watch := Update(inst.name, target, first, polls, second);
      e := C.UpdateEnv(first, watch, second);
      result := if r.Raised? then C.Failed(inst.name, r.error) else r.value;
    }

    /** `first`, `polls` and `second` are the answers for each entry. */
    method UpdateAll(order: seq<string>, target: string, first: seq<C.ApplyEnv>, polls: seq<P.Polls>,
                     second: seq<C.ApplyEnv>)
      returns (results: seq<C.Result>, ghost envs: seq<C.UpdateEnv>)
      requires |first| == |polls| == |second| == |S.Listed(reconciler.store.State(), order)|
      modifies reconciler.store, reconciler.docker
      ensures |envs| == |first| == |S.Listed(old(reconciler.store.State()), order)|
      ensures (World(), results)
              == C.UpdateEach(old(World()), S.Listed(old(reconciler.store.State()), order), target, envs)
      ensures Answers(first, polls, second, envs)
    {
      var insts := reconciler.store.List(order);
      results, envs := [], [];
      for i := 0 to |insts|
        invariant |envs| == i && |results| == i
        invariant (World(), results) == C.UpdateEach(old(World()), insts[..i], target, envs)
        invariant Answers(first, polls, second, envs)
      {
        ghost var before := World();
        var result;
        ghost var e;
        result, e := UpdateNext(insts[i], target, first[i], polls[i], second[i]);
        BatchSnoc(old(World()), insts, target, envs, i, before, results, e, World(), result);
        AnswersSnoc(first, polls, second, envs, e);
        results, envs := results + [result], envs + [e];
      }
      assert insts[..|insts|] == insts;
    }

    method Rollback(name: string, e: C.ApplyEnv) returns (r: Try<string>)
      modifies reconciler.store, reconciler.docker
      ensures (World(), r) == C.Rollback(old(World()), name, e)
    {
      var store := reconciler.store;
      var got := store.Get(name);
      if got.Raised? {
        return Raised(got.error);
      }
      if got.value.None? {
        return Raised(NoSuchInstance);
      }
      var inst := got.value.value;
      if name !in store.prev {
        return Raised(NoPreviousImage);
      }
      var previous := Strip(store.prev[name]);
      var applied := reconciler.Apply(inst.(image := previous), e);
      if applied.Raised? {
        return Raised(applied.error);
      }
      r := Ok(previous);
    }
  }
}
