/** `controlplane/lmnradius/store.py` on values: the record files, the git index, HEAD and log
    of the instances directory, and what each operation does to them.

    Every external git process is one Boolean answer of the environment. */
module StoreSpec {
  import opened Text
  import opened Records

  /** A `<name>.yaml` file. */
  datatype File =
    | Record(inst: Instance)
    | Unreadable               // no YAML mapping
    | Rejected                 // a mapping the model does not accept

  /** Record files by instance name. */
  type Tree = map<string, File>

  datatype Commit = Commit(message: string, name: string, content: Option<File>)

  /** A write to the record files; the journal is part of the specification only. */
  datatype Write = Wrote(inst: Instance) | Deleted(name: string)

  datatype StoreState = StoreState(
    repo: bool,
    work: Tree,
    index: Tree,
    head: Tree,
    log: seq<Commit>,
    prev: map<string, string>,
    journal: seq<Write>)

  /** The answers of one put or delete: was the repository query answered (three times), did
      `git add` or `git rm` succeed, did `git diff` run, was `git commit` let through. */
  datatype Git = Git(probe1: bool, change: bool, probe2: bool, diff: bool, probe3: bool, commit: bool)

  ghost predicate Answered(g: Git) {
    g.probe1 && g.probe2 && g.probe3
  }

  ghost predicate Fine(g: Git) {
    Answered(g) && g.change && g.diff && g.commit
  }

  function Entry(t: Tree, name: string): Option<File> {
    if name in t then Some(t[name]) else None
  }

  function Assign(t: Tree, name: string, content: Option<File>): Tree {
    match content
    case Some(f) => t[name := f]
    case None => t - {name}
  }

  // ------------------------------------------------------------------ operations

  /** The guard of `_file`. */
  predicate SafeName(name: string) {
    name != "" && !Has(name, '/') && !Has(name, '\\') && !Contains(name, "..")
  }

  function Get(s: StoreState, name: string): Try<Option<Instance>> {
    if !SafeName(name) then Raised(UnsafeName)
    else
      match Entry(s.work, name)
      case Some(Record(inst)) => Ok(Some(inst))
      case Some(Rejected) => Raised(InvalidRecord)
      case _ => Ok(None)
  }

  /** The readable records, in the order the files are listed. */
  function Listed(s: StoreState, order: seq<string>): seq<Instance> {
    if order == [] then []
    else
      var n := |order| - 1;
      match Entry(s.work, order[n])
      case Some(Record(inst)) => Listed(s, order[..n]) + [inst]
      case _ => Listed(s, order[..n])
  }

  /** `_git`: a no-op outside a repository, loud inside one. */
  function Loud(s: StoreState, probe: bool, ok: bool, after: StoreState): (StoreState, Try<()>) {
    if !(s.repo && probe) then (s, Ok(()))
    else if ok then (after, Ok(()))
    else (s, Raised(ChangeLogRefused))
  }

  /** What `git commit -- <file>` would record: the file as it is in the work tree. It fails
      when git does not know the file or nothing would change. */
  predicate Commits(s: StoreState, name: string) {
    (name in s.index || name in s.head) && Entry(s.head, name) != Entry(s.work, name)
  }

  function Committed(s: StoreState, message: string, name: string): StoreState {
    var content := Entry(s.work, name);
    s.(head := Assign(s.head, name, content), index := Assign(s.index, name, content),
       log := s.log + [Commit(message, name, content)])
  }

  function CommitStep(s: StoreState, message: string, name: string, g: Git): (StoreState, Try<()>) {
    if !(s.repo && g.probe2) || (g.diff && Entry(s.index, name) == Entry(s.head, name)) then (s, Ok(()))
    else Loud(s, g.probe3, g.commit && Commits(s, name), Committed(s, message, name))
  }

  function Put(s: StoreState, inst: Instance, g: Git): (StoreState, Try<()>) {
    if !SafeName(inst.name) then (s, Raised(UnsafeName))
    else
      var n := inst.name;
      var s1 := s.(work := s.work[n := Record(inst)], journal := s.journal + [Wrote(inst)]);
      var (s2, r) := Loud(s1, g.probe1, g.change, s1.(index := s1.index[n := Record(inst)]));
      if r.Raised? then (s2, r) else CommitStep(s2, "lmnradius: update " + n, n, g)
  }

  function Delete(s: StoreState, name: string, g: Git): (StoreState, Try<()>) {
    if !SafeName(name) then (s, Raised(UnsafeName))
    else
      var s1 := s.(prev := s.prev - {name});
      if name !in s1.work then (s1, Ok(()))
      else
        var s2 := s1.(work := s1.work - {name}, journal := s1.journal + [Deleted(name)]);
        var (s3, r) := Loud(s2, g.probe1, g.change, s2.(index := s2.index - {name}));
        if r.Raised? then (s3, r) else CommitStep(s3, "lmnradius: remove " + name, name, g)
  }

  // ------------------------------------------------------------------ agreement

  /** HEAD, index and work tree hold the same for this file. */
  ghost predicate Agrees(s: StoreState, name: string) {
    Entry(s.head, name) == Entry(s.index, name) == Entry(s.work, name)
  }

  /** Apart from one file nothing is different. */
  ghost predicate SameElsewhere(s: StoreState, s': StoreState, name: string) {
    s'.repo == s.repo
    && forall m | m != name ::
         && Entry(s'.work, m) == Entry(s.work, m) && Entry(s'.index, m) == Entry(s.index, m)
         && Entry(s'.head, m) == Entry(s.head, m)
         && (m in s'.prev <==> m in s.prev) && (m in s.prev ==> s'.prev[m] == s.prev[m])
  }

  /** `put` writes the record whatever git does, never touches a rollback pointer or another
      file, not even a staged one, and appends at most one commit, of this file. */
  lemma PutEffect(s: StoreState, inst: Instance, g: Git)
    requires SafeName(inst.name)
    ensures var (s', r) := Put(s, inst, g);
            && s'.work == s.work[inst.name := Record(inst)]
            && s'.prev == s.prev && s'.journal == s.journal + [Wrote(inst)]
            && SameElsewhere(s, s', inst.name)
            && (s'.log == s.log
                || s'.log == s.log + [Commit("lmnradius: update " + inst.name, inst.name, Some(Record(inst)))])
            && (!s.repo ==> r.Ok? && s'.log == s.log)
  {
  }

  /** A put that returns in a repository leaves HEAD, index and work tree equal for its file
      if, and only if, it committed or HEAD held the record already and the index holds it
      too; the commit takes place exactly when the last two repository queries are answered
      and the diff does not find the staged file unchanged. */
  lemma PutAgreesIff(s: StoreState, inst: Instance, g: Git)
    requires s.repo && SafeName(inst.name) && Put(s, inst, g).1.Ok?
    ensures var s', n, c := Put(s, inst, g).0, inst.name, Some(Record(inst));
            var staged := if g.probe1 then c else Entry(s.index, n);
            var committed := g.probe2 && g.probe3 && !(g.diff && staged == Entry(s.head, n));
            && (|s'.log| == |s.log| + 1 <==> committed)
            && (Agrees(s', n) <==> committed || (Entry(s.head, n) == c && staged == c))
  {
  }

  /** With its repository queries answered, a put that returns leaves the three equal and adds
      one commit exactly when HEAD's content differed. */
  lemma PutAgrees(s: StoreState, inst: Instance, g: Git)
    requires s.repo && SafeName(inst.name) && Answered(g) && Put(s, inst, g).1.Ok?
    ensures var s' := Put(s, inst, g).0;
            && Agrees(s', inst.name)
            && (|s'.log| == |s.log| + 1 <==> Entry(s.head, inst.name) != Some(Record(inst)))
  {
    PutAgreesIff(s, inst, g);
  }

  /** A put whose first repository query goes unanswered can return with the record neither
      staged nor committed, although the directory is a repository. */
  lemma SilentPut(inst: Instance)
    requires SafeName(inst.name)
    ensures var s := StoreState(true, map[], map[], map[], [], map[], []);
            var (s', r) := Put(s, inst, Git(false, true, true, true, true, true));
            r.Ok? && s'.log == [] && inst.name in s'.work && inst.name !in s'.head
  {
  }

  /** After any failure, the next put of that name on which git does its work restores the
      agreement, whatever was left staged. */
  lemma PutRepairs(s: StoreState, inst: Instance, g: Git)
    requires s.repo && SafeName(inst.name) && Fine(g)
    ensures Put(s, inst, g).1.Ok? && Agrees(Put(s, inst, g).0, inst.name)
  {
  }

  /** A delete removes the record and its rollback pointer whatever git does. */
  lemma DeleteEffect(s: StoreState, name: string, g: Git)
    requires SafeName(name)
    ensures var (s', r) := Delete(s, name, g);
            && s'.work == s.work - {name} && s'.prev == s.prev - {name}
            && s'.journal == (if name in s.work then s.journal + [Deleted(name)] else s.journal)
            && SameElsewhere(s, s', name)
            && (s'.log == s.log || s'.log == s.log + [Commit("lmnradius: remove " + name, name, None)])
            && (name !in s.work ==> r.Ok? && s'.log == s.log && s'.head == s.head && s'.index == s.index)
  {
  }

  /** A delete of a record that returns in a repository leaves HEAD, index and work tree without
      the file if, and only if, it committed or neither HEAD nor the index held the file; the
      commit takes place exactly when the last two repository queries are answered and the diff
      does not find the staged removal unchanged. */
  lemma DeleteAgreesIff(s: StoreState, name: string, g: Git)
    requires s.repo && SafeName(name) && name in s.work && Delete(s, name, g).1.Ok?
    ensures var s' := Delete(s, name, g).0;
            var staged := if g.probe1 then None else Entry(s.index, name);
            var committed := g.probe2 && g.probe3 && !(g.diff && staged == Entry(s.head, name));
            && (|s'.log| == |s.log| + 1 <==> committed)
            && (Agrees(s', name) <==> committed || (Entry(s.head, name).None? && staged.None?))
  {
  }

  /** With its repository queries answered, a delete that returns leaves the name nowhere. */
  lemma DeleteAgrees(s: StoreState, name: string, g: Git)
    requires s.repo && SafeName(name) && name in s.work && Answered(g) && Delete(s, name, g).1.Ok?
    ensures Agrees(Delete(s, name, g).0, name)
  {
    DeleteAgreesIff(s, name, g);
  }

  /** A delete whose repository queries go unanswered can return with HEAD keeping the record,
      although the directory is a repository. */
  lemma SilentDelete(inst: Instance)
    requires SafeName(inst.name)
    ensures var tree: Tree := map[inst.name := Record(inst)];
            var s := StoreState(true, tree, tree, tree, [], map[], []);
            var (s', r) := Delete(s, inst.name, Git(false, true, false, true, true, true));
            r.Ok? && s'.log == [] && inst.name !in s'.work && inst.name in s'.head
  {
  }

  /** Whatever git made of a delete, a second one changes nothing at all: it finds no file and
      returns. After a delete that raised, HEAD still holds what it held. */
  lemma SecondDeleteHealsNothing(s: StoreState, name: string, g: Git, g': Git)
    requires SafeName(name)
    ensures var (s1, r1) := Delete(s, name, g);
            Delete(s1, name, g') == (s1, Ok(()))
            && (r1.Raised? ==> Entry(s1.head, name) == Entry(s.head, name) && s1.log == s.log)
  {
    var s1 := Delete(s, name, g).0;
    assert s1.prev - {name} == s1.prev;
  }

  // ------------------------------------------------------------------ every outcome

  /** A name that could leave the directory. */
  ghost predicate Unsafe(name: string) {
    name == "" || '/' in name || '\\' in name
    || exists i :: 0 <= i < |name| - 1 && name[i] == '.' && name[i + 1] == '.'
  }

  lemma SafeNameIff(name: string)
    ensures SafeName(name) <==> !Unsafe(name)
  {
    if i :| 0 <= i < |name| - 1 && name[i] == '.' && name[i + 1] == '.' {
      assert name[i..][..2] == "..";
      assert StartsWith(name[i..], "..");
    }
    if i :| 0 <= i <= |name| && StartsWith(name[i..], "..") {
      assert name[i..][..2][0] == name[i] && name[i..][..2][1] == name[i + 1];
    }
  }

  /** An unsafe name raises and changes nothing; a file that is missing or cannot be read is no record, one
      that the model rejects raises, and any other gives its record. */
  lemma GetOutcome(s: StoreState, name: string)
    ensures Get(s, name)
            == if Unsafe(name) then Raised(UnsafeName)
               else if name !in s.work || s.work[name].Unreadable? then Ok(None)
               else if s.work[name].Rejected? then Raised(InvalidRecord)
               else Ok(Some(s.work[name].inst))
  {
    SafeNameIff(name);
  }

  /** These are the positions of the records among the listed files. */
  ghost predicate RecordsAt(s: StoreState, order: seq<string>, insts: seq<Instance>, at: seq<nat>) {
    && |at| == |insts|
    && (forall i | 0 <= i < |at| :: at[i] < |order| && Entry(s.work, order[at[i]]) == Some(Record(insts[i])))
    && (forall i, j | 0 <= i < j < |at| :: at[i] < at[j])
    && (forall k | 0 <= k < |order| && order[k] in s.work && s.work[order[k]].Record? :: k in at)
  }

  /** Exactly the records are listed, in the order of the files. */
  lemma {:induction false} ListedOutcome(s: StoreState, order: seq<string>) returns (at: seq<nat>)
    ensures RecordsAt(s, order, Listed(s, order), at)
  {
    if order == [] {
      at := [];
    } else {
      var n := |order| - 1;
      at := ListedOutcome(s, order[..n]);
      assert forall i | 0 <= i < |at| :: order[..n][at[i]] == order[at[i]];
      var before := at;
      if order[n] in s.work && s.work[order[n]].Record? {
        at := at + [n];
        assert at[|before|] == n;
      }
      forall k | 0 <= k < |order| && order[k] in s.work && s.work[order[k]].Record? ensures k in at {
        if k < n {
          assert order[..n][k] == order[k] && k in before;
        }
      }
    }
  }

  /** What is staged for a file after `git add` or `git rm`, when it is to have this content. */
  ghost function Staged(s: StoreState, name: string, content: Option<File>, g: Git): Option<File> {
    if s.repo && g.probe1 && g.change then content else Entry(s.index, name)
  }

  /** Neither was refused. */
  ghost predicate StagePasses(s: StoreState, g: Git) {
    s.repo && g.probe1 ==> g.change
  }

  /** A commit is tried: git says that it is a repository, twice, and does not say that nothing is staged. */
  ghost predicate Tried(s: StoreState, name: string, content: Option<File>, g: Git) {
    && StagePasses(s, g) && s.repo && g.probe2 && g.probe3
    && !(g.diff && Staged(s, name, content, g) == Entry(s.head, name))
  }

  /** It is made: git lets it through, knows the file, and there is something to commit. */
  ghost predicate Made(s: StoreState, name: string, content: Option<File>, g: Git) {
    && Tried(s, name, content, g) && g.commit
    && Entry(s.head, name) != content && (Entry(s.head, name).Some? || Staged(s, name, content, g).Some?)
  }

  /** The change log takes a change of this file to this content. */
  ghost predicate LogPasses(s: StoreState, name: string, content: Option<File>, g: Git) {
    StagePasses(s, g) && (Tried(s, name, content, g) ==> Made(s, name, content, g))
  }

  /** The change log of one file through an operation that gives it this content. */
  ghost predicate Versioned(s: StoreState, s': StoreState, name: string, content: Option<File>, message: string,
                            g: Git, r: Try<()>) {
    var made := Made(s, name, content, g);
    && (r.Ok? <==> LogPasses(s, name, content, g))
    && (r.Raised? ==> r.error == ChangeLogRefused)
    && Entry(s'.index, name) == (if made then content else Staged(s, name, content, g))
    && Entry(s'.head, name) == (if made then content else Entry(s.head, name))
    && s'.log == (if made then s.log + [Commit(message, name, content)] else s.log)
  }

  /** Everything a put does, for every answer of git. */
  lemma PutOutcome(s: StoreState, inst: Instance, g: Git)
    ensures var (s', r), n := Put(s, inst, g), inst.name;
            if Unsafe(n) then s' == s && r == Raised(UnsafeName)
            else
              && s'.work == s.work[n := Record(inst)] && s'.prev == s.prev
              && Versioned(s, s', n, Some(Record(inst)), "lmnradius: update " + n, g, r)
  {
    SafeNameIff(inst.name);
  }

  /** Everything a delete does; without a file git is left alone. */
  lemma DeleteOutcome(s: StoreState, name: string, g: Git)
    ensures var (s', r) := Delete(s, name, g);
            if Unsafe(name) then s' == s && r == Raised(UnsafeName)
            else
              && s'.work == s.work - {name} && s'.prev == s.prev - {name}
              && if name in s.work then Versioned(s, s', name, None, "lmnradius: remove " + name, g, r)
                 else r == Ok(()) && s'.index == s.index && s'.head == s.head && s'.log == s.log
  {
    SafeNameIff(name);
  }

  // ------------------------------------------------------------------ the change log

  function Replay(log: seq<Commit>): Tree {
    if log == [] then map[]
    else
      var n := |log| - 1;
      Assign(Replay(log[..n]), log[n].name, log[n].content)
  }

  /** Replaying the log gives HEAD. */
  ghost predicate Replays(s: StoreState) {
    s.head == Replay(s.log)
  }

  /** Nothing is staged or unversioned. */
  ghost predicate Synced(s: StoreState) {
    s.head == s.index == s.work
  }

  lemma ReplaySnoc(log: seq<Commit>, c: Commit)
    ensures Replay(log + [c]) == Assign(Replay(log), c.name, c.content)
  {
    assert (log + [c])[..|log|] == log;
  }

  lemma PutReplays(s: StoreState, inst: Instance, g: Git)
    requires Replays(s)
    ensures Replays(Put(s, inst, g).0)
  {
    var c := Commit("lmnradius: update " + inst.name, inst.name, Some(Record(inst)));
    ReplaySnoc(s.log, c);
  }

  lemma DeleteReplays(s: StoreState, name: string, g: Git)
    requires Replays(s)
    ensures Replays(Delete(s, name, g).0)
  {
    ReplaySnoc(s.log, Commit("lmnradius: remove " + name, name, None));
  }

  lemma PutSynced(s: StoreState, inst: Instance, g: Git)
    requires s.repo && Synced(s) && Fine(g)
    ensures Synced(Put(s, inst, g).0)
  {
    if SafeName(inst.name) && Entry(s.head, inst.name) == Some(Record(inst)) {
      assert s.work[inst.name := Record(inst)] == s.work;
    }
  }

  lemma DeleteSynced(s: StoreState, name: string, g: Git)
    requires s.repo && Synced(s) && Fine(g)
    ensures Synced(Delete(s, name, g).0)
  {
  }
}
