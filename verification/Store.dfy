/** `controlplane/lmnradius/store.py`: the class itself, step by step, against `StoreSpec`. */
module Store {
  import opened Text
  import opened Records
  import S = StoreSpec

  /** The instances directory with its record files, its rollback pointers and the repository
      around them. */
  class Store {
    const repo: bool
    var work: S.Tree
    var index: S.Tree
    var head: S.Tree
    var log: seq<S.Commit>
    var prev: map<string, string>
    ghost var journal: seq<S.Write>

    ghost function State(): S.StoreState
      reads this
    {
      S.StoreState(repo, work, index, head, log, prev, journal)
    }

    constructor (repo: bool)
      ensures State() == S.StoreState(repo, map[], map[], map[], [], map[], [])
    {
      this.repo := repo;
      work, index, head, log, prev, journal := map[], map[], map[], [], map[], [];
    }

    method Get(name: string) returns (r: Try<Option<Instance>>)
      ensures r == S.Get(State(), name)
    {
      if !S.SafeName(name) {
        return Raised(UnsafeName);
      }
      if name !in work {
        return Ok(None);
      }
      match work[name] {
        case Unreadable => return Ok(None);
        case Rejected => return Raised(InvalidRecord);
        case Record(inst) => return Ok(Some(inst));
      }
    }

    /** Unreadable and invalid records are skipped. */
    method List(order: seq<string>) returns (instances: seq<Instance>)
      ensures instances == S.Listed(State(), order)
    {
      instances := [];
      for i := 0 to |order|
        invariant instances == S.Listed(State(), order[..i])
      {
        assert order[..i + 1][..i] == order[..i];
        if order[i] in work && work[order[i]].Record? {
          instances := instances + [work[order[i]].inst];
        }
      }
      assert order[..|order|] == order;
    }

    method InGitRepo(probe: bool) returns (inside: bool)
      ensures inside == (repo && probe)
    {
      inside := repo && probe;
    }

    method GitAdd(name: string, probe: bool, ok: bool) returns (r: Try<()>)
      requires name in work
      modifies this
      ensures (State(), r)
              == S.Loud(old(State()), probe, ok, old(State()).(index := old(index)[name := old(work)[name]]))
    {
      var inside := InGitRepo(probe);
      if !inside {
        return Ok(());
      }
      if !ok {
        return Raised(ChangeLogRefused);
      }
      index := index[name := work[name]];
      r := Ok(());
    }

    method GitRm(name: string, probe: bool, ok: bool) returns (r: Try<()>)
      modifies this
      ensures (State(), r)
              == S.Loud(old(State()), probe, ok, old(State()).(index := old(index) - {name}))
    {
      var inside := InGitRepo(probe);
      if !inside {
        return Ok(());
      }
      if !ok {
        return Raised(ChangeLogRefused);
      }
      index := index - {name};
      r := Ok(());
    }

    /** `_commit`: quiet when nothing is staged for the file. */
    method CommitFile(message: string, name: string, g: S.Git) returns (r: Try<()>)
      modifies this
      ensures (State(), r) == S.CommitStep(old(State()), message, name, g)
    {
      var inside := InGitRepo(g.probe2);
      if !inside {
        return Ok(());
      }
      if g.diff && S.Entry(index, name) == S.Entry(head, name) {
        return Ok(());
      }
      inside := InGitRepo(g.probe3);
      if !inside {
        return Ok(());
      }
      var content := S.Entry(work, name);
      if !g.commit || (name !in index && name !in head) || S.Entry(head, name) == content {
        return Raised(ChangeLogRefused);
      }
      head, index := S.Assign(head, name, content), S.Assign(index, name, content);
      log := log + [S.Commit(message, name, content)];
      r := Ok(());
    }

    method Put(inst: Instance, g: S.Git) returns (r: Try<()>)
      modifies this
      ensures (State(), r) == S.Put(old(State()), inst, g)
    {
      if !S.SafeName(inst.name) {
        return Raised(UnsafeName);
      }
      work := work[inst.name := S.Record(inst)];
      journal := journal + [S.Wrote(inst)];
      r := GitAdd(inst.name, g.probe1, g.change);
      if r.Raised? {
        return;
      }
      r := CommitFile("lmnradius: update " + inst.name, inst.name, g);
    }

    method Delete(name: string, g: S.Git) returns (r: Try<()>)
      modifies this
      ensures (State(), r) == S.Delete(old(State()), name, g)
    {
      if !S.SafeName(name) {
        return Raised(UnsafeName);
      }
      prev := prev - {name};
      if name !in work {
        return Ok(());
      }
      work := work - {name};
      journal := journal + [S.Deleted(name)];
      r := GitRm(name, g.probe1, g.change);
      if r.Raised? {
        return;
      }
      r := CommitFile("lmnradius: remove " + name, name, g);
    }

    /** The updater's pointer file beside the record. */
    method WritePrev(name: string, image: string)
      modifies this`prev
      ensures prev == old(prev)[name := image]
    {
      prev := prev[name := image];
    }
  }
}
