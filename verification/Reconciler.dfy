/** `controlplane/lmnradius/reconciler.py`: the class itself, against `ControlSpec`. */
module Reconciler {
  import opened Records
  import opened Store
  import opened Docker
  import S = StoreSpec
  import D = DockerSpec
  import C = ControlSpec

  class Reconciler {
    const store: Store
    const docker: DockerService

    constructor (store: Store, docker: DockerService)
      ensures this.store == store && this.docker == docker
    {
      this.store, this.docker := store, docker;
    }

    ghost function World(): C.World
      reads store, docker
    {
      C.World(store.State(), docker.State())
    }

    method Apply(inst: Instance, e: C.ApplyEnv) returns (r: Try<()>)
      modifies store, docker
      ensures (World(), r) == C.Apply(old(World()), inst, e)
    {
      r := store.Put(inst, e.git);
      if r.Raised? {
        return;
      }
      r := docker.EnsureRunning(inst, e.run);
    }

    method Remove(name: string, g: S.Git, e: D.RemoveEnv) returns (leave: Try<D.Leave>)
      modifies store, docker
      ensures (World(), leave) == C.Remove(old(World()), name, g, e)
    {
      var got := store.Get(name);
      if got.Raised? {
        return Raised(got.error);
      }
      if got.value.None? {
        leave := Ok(D.Leave(true, false));
      } else {
        leave := docker.Remove(got.value.value, e);
        if leave.Raised? {
          return;
        }
      }
      var r := store.Delete(name, g);
      if r.Raised? {
        leave := Raised(r.error);
      }
    }

    method ReconcileAll(order: seq<string>, envs: seq<D.RunEnv>) returns (r: Try<()>)
      requires |envs| == |S.Listed(store.State(), order)|
      modifies docker
      ensures (World(), r) == C.ReconcileEach(old(World()), S.Listed(old(store.State()), order), envs)
    {
      var insts := store.List(order);
      r := Ok(());
      for i := 0 to |insts|
        invariant store.State() == old(store.State())
        invariant (World(), r) == C.ReconcileEach(old(World()), insts[..i], envs[..i])
        invariant r.Ok?
      {
        assert insts[..i + 1][..i] == insts[..i] && envs[..i + 1][..i] == envs[..i];
        r := docker.EnsureRunning(insts[i], envs[i]);
        if r.Raised? {
          StopsHere(old(World()), insts, envs, i + 1);
          return;
        }
      }
      assert insts[..|insts|] == insts && envs[..|envs|] == envs;
    }
  }

  lemma {:induction false} StopsHere(w: C.World, insts: seq<Instance>, envs: seq<D.RunEnv>, i: nat)
    requires i <= |insts| == |envs|
    requires C.ReconcileEach(w, insts[..i], envs[..i]).1.Raised?
    ensures C.ReconcileEach(w, insts, envs) == C.ReconcileEach(w, insts[..i], envs[..i])
    decreases |insts| - i
  {
    if i < |insts| {
      assert insts[..i + 1][..i] == insts[..i] && envs[..i + 1][..i] == envs[..i];
      StopsHere(w, insts, envs, i + 1);
    } else {
      assert insts[..i] == insts && envs[..i] == envs;
    }
  }
}
