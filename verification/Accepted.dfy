/** What the results mean for records that pass the validators and lockfiles that pass the gate,
    with accepted inputs on which the code and what is said of it part. */
module Accepted {
  import opened Text
  import opened Records
  import opened Models
  import opened Render
  import opened Unlang
  import opened SsidPolicy
  import opened StoreSpec
  import opened DockerSpec
  import opened ControlSpec
  import opened Polling
  import N = Subnets
  import G = LockGrammar
  import LP = LockParse
  import SR = ShellReader

  // ------------------------------------------------------------------ the policy

  /** Some name or group ends in a line feed. */
  ghost predicate SomeFeed(ssids: seq<Ssid>) {
    exists i :: 0 <= i < |ssids| && (EndsInFeed(ssids[i].name) || EndsInFeed(ssids[i].allowedGroup))
  }

  /** The policy of an accepted list can be read back exactly if no name and no group ends in a
      line feed, and then decides every request as the list does. */
  lemma AcceptedPolicy(ssids: seq<Ssid>)
    requires SsidsOk(ssids)
    ensures Read(Policy(ssids)).Some? <==> !SomeFeed(ssids)
    ensures Read(Policy(ssids)).Some? ==>
              forall req :: Answers(ssids, req, Evaluate(Read(Policy(ssids)).value, req, NoIf, []))
  {
    forall i | 0 <= i < |ssids|
      ensures OneLine(ssids[i].name) <==> !EndsInFeed(ssids[i].name)
      ensures OneLine(ssids[i].allowedGroup) <==> !EndsInFeed(ssids[i].allowedGroup)
    {
      SsidFeeds(ssids[i]);
    }
    PolicyReadableIff(ssids);
    if SingleLine(ssids) {
      forall req ensures Answers(ssids, req, Evaluate(Read(Policy(ssids)).value, req, NoIf, [])) {
        PolicyAnswers(ssids, req);
      }
    }
  }

  /** An accepted list whose policy cannot be read. */
  lemma AcceptedButUnreadable()
    ensures var ssids := [Ssid("a\n", "g", None)]; SsidsOk(ssids) && Read(Policy(ssids)).None?
  {
    var ssid := Ssid("a\n", "g", None);
    SsidFits(ssid);
    assert EndsInFeed([ssid][0].name);
    AcceptedPolicy([ssid]);
  }

  lemma SsidFits(ssid: Ssid)
    requires ssid == Ssid("a\n", "g", None)
    ensures SsidsOk([ssid])
  {
    var v := ssid.name;
    assert v[..|v| - 1] == "a";
    assert SsidPattern("a") && GroupPattern("g");
  }

  // ------------------------------------------------------------------ rollback

  /** With an accepted image, an update followed by a rollback restores the record exactly if the
      image does not end in a line feed. */
  lemma AcceptedRollback(w: World, name: string, image: string, e: UpdateEnv, e': ApplyEnv)
    requires WellNamed(w.store) && RecordOf(w, name).Some? && ImageOk(RecordOf(w, name).value.image)
    ensures var w2 := Rollback(Update(w, name, image, e).0, name, e').0;
            RecordOf(w2, name) == RecordOf(w, name) <==> !EndsInFeed(RecordOf(w, name).value.image)
  {
    UpdateThenRollback(w, name, image, e, e');
    ImageStripped(RecordOf(w, name).value.image);
  }

  /** A record whose listed fields pass their validators. */
  function Sample(image: string, ldapCa: Option<string>): Instance {
    Instance("a", "R", "W", "h", "ldap://h", "d", "d", "g", ["10.0.0.0/8"], [Ssid("a", "g", None)],
      "j", "b", "r", image, ldapCa)
  }

  lemma SampleFits(image: string, ldapCa: Option<string>)
    requires ImageOk(image) && (ldapCa.Some? ==> SecretOk(ldapCa.value))
    ensures FieldsOk(Sample(image, ldapCa)) && SafeName("a")
  {
    assert NamePattern("a") && SsidPattern("a") && GroupPattern("g");
    assert SecretPattern("j") && SecretPattern("b") && SecretPattern("r");
    NoDots("j");
    NoDots("b");
    NoDots("r");
    NameSafe("a");
  }

  lemma ImageFits()
    ensures ImageOk("a:b") && ImageOk("a:b\n") && EndsInFeed("a:b\n")
  {
    var v := "a:b";
    assert v[..1] == "a" && v[1..] == ":b" && v[1..][1..] == "b";
    assert RepoText(v[..1]) && TagText(v[1..]);
    assert "a:b\n"[..3] == v;
  }

  /** The state of one record and no containers. */
  function OneRecord(inst: Instance, files: map<HostPath, string>): World {
    World(StoreState(false, map[inst.name := Record(inst)], map[], map[], [], map[], []),
      DockerState(map[], map[], {}, files, 0))
  }

  /** An accepted record that no update and rollback restore, whatever git and Docker answer. */
  lemma AcceptedButNotRestored(files: map<HostPath, string>, image: string, e: UpdateEnv, e': ApplyEnv)
    ensures var inst := Sample("a:b\n", None);
            var w := OneRecord(inst, files);
            FieldsOk(inst) && RecordOf(Rollback(Update(w, "a", image, e).0, "a", e').0, "a") != RecordOf(w, "a")
  {
    ImageFits();
    SampleFits("a:b\n", None);
    AcceptedRollback(OneRecord(Sample("a:b\n", None), files), "a", image, e, e');
  }

  /** Answers with which a start returns: the container turns healthy at once. */
  function AllWell(): RunEnv {
    RunEnv(Pulled, None, true, true, Started,
      PollRecord((n: nat) => Attrs(true, false, 0, Some("healthy")), (n: nat) => n, 0, 1))
  }

  lemma AllWellSettles(timeout: int)
    ensures Settles(AllWell().settle, timeout)
  {
    assert SettledAt(AllWell().settle, AllWell().settle.start + timeout, 0);
  }

  lemma SampleStarts(w: World, image: string, g: Git)
    requires !w.store.repo && w.docker.files == SampleFiles() && SafeName("a")
    ensures ApplyReturns(w, Sample(image, None), ApplyEnv(g, AllWell()))
  {
    SafeNameIff("a");
    AllWellSettles(w.docker.settleTimeout);
    SampleReady(image, None);
  }

  /** Docker never answers. */
  function Silence(): PollRecord {
    PollRecord((n: nat) => NoAnswer, (n: nat) => n, 0, 1)
  }

  /** The update raises, and the record has its new image. */
  ghost predicate RaisesAndKeeps(w: World, name: string, image: string, e: UpdateEnv) {
    var (w', r) := Update(w, name, image, e);
    r.Raised? && RecordOf(w, name).Some? && RecordOf(w', name) == Some(RecordOf(w, name).value.(image := image))
  }

  lemma LostKeepsImage(w: World, name: string, image: string, e: UpdateEnv)
    requires WellNamed(w.store) && WatchLost(w, name, image, e)
    ensures RaisesAndKeeps(w, name, image, e)
  {
    UpdateTransaction(w, name, image, e);
  }

  lemma SampleLost(w: World, image: string, g: Git, e: ApplyEnv)
    requires w == OneRecord(Sample("a:b", None), SampleFiles()) && SafeName("a")
    ensures WellNamed(w.store) && WatchLost(w, "a", image, UpdateEnv(ApplyEnv(g, AllWell()), WatchBroken, e))
  {
    SampleStarts(WithPrev(w, "a", "a:b"), image, g);
    assert Sample("a:b", None).(image := image) == Sample(image, None);
  }

  lemma SilenceBreaks(timeout: int)
    ensures Ticks(Silence()) && Reports(Silence(), timeout, WatchBroken, 0)
  {
  }

  lemma SampleKept(w: World, image: string, g: Git, e: UpdateEnv)
    requires w == OneRecord(Sample("a:b", None), SampleFiles()) && SafeName("a")
    requires e.first == ApplyEnv(g, AllWell()) && e.watch == WatchBroken
    ensures RaisesAndKeeps(w, "a", image, e)
  {
    SampleLost(w, image, g, e.second);
    LostKeepsImage(w, "a", image, e);
  }

  /** An update that raises and leaves the new image in the record: the new container was started,
      and then Docker did not answer the first poll of the health watch. */
  lemma AcceptedButKept(image: string, timeout: int, g: Git, e: ApplyEnv)
    requires ImageOk(image)
    ensures Ticks(Silence()) && Reports(Silence(), timeout, WatchBroken, 0)
    ensures FieldsOk(Sample("a:b", None))
    ensures RaisesAndKeeps(OneRecord(Sample("a:b", None), SampleFiles()), "a", image,
              UpdateEnv(ApplyEnv(g, AllWell()), WatchBroken, e))
  {
    SilenceBreaks(timeout);
    ImageFits();
    SampleFits("a:b", None);
    SampleKept(OneRecord(Sample("a:b", None), SampleFiles()), image, g,
      UpdateEnv(ApplyEnv(g, AllWell()), WatchBroken, e));
  }

  // ------------------------------------------------------------------ mounts

  /** With accepted fields, every path in the environment of a started container is the end of a mount
      exactly if the CA file of the DC is not one of the EAP certificate's files. */
  lemma AcceptedPaths(d: DockerState, inst: Instance)
    requires FieldsOk(inst) && StartedFrom(d, inst)
    ensures var c := d.containers[inst.name];
            (forall k | k in PathVariables(inst) :: k in c.env && Mounted(c, c.env[k])) <==> !CaClashes(inst)
  {
    SecretNoSlash(inst.joinSecret);
    SecretNoSlash(inst.ldapBindSecret);
    var ip :| Runs(d.containers[inst.name], inst, ip);
    EveryPathMountedIff(d.containers[inst.name], inst, ip);
  }

  lemma CaFits()
    ensures SecretOk("ca.pem")
  {
    var v := "ca.pem";
    assert SecretPattern(v);
    forall i | 0 <= i <= |v| && 2 <= |v[i..]| ensures v[i..][..2] != ".." {
      assert v[i..][..2][1] == v[i + 1] && v[i..][..2][0] == v[i];
    }
  }

  /** The files that a start of the sample needs. */
  function SampleFiles(): map<HostPath, string> {
    map[SecretFile("j") := "x", SecretFile("b") := "x", SecretFile("r") := "x", CertFile("a", CaFile) := "x",
        CertFile("a", CertFileName) := "x", CertFile("a", KeyFile) := "x"]
  }

  /** Nothing but the files. */
  function Bare(): DockerState {
    DockerState(map[], map[], {}, SampleFiles(), 0)
  }

  /** An accepted record whose start returns and whose container misses a mount. */
  lemma AcceptedButUnmounted()
    ensures var inst := Sample("a:b", Some("ca.pem"));
            var (d, r) := EnsureRunning(Bare(), inst, AllWell());
            && FieldsOk(inst) && r.Ok? && inst.name in d.containers
            && var c := d.containers[inst.name];
               !forall k | k in PathVariables(inst) :: k in c.env && Mounted(c, c.env[k])
  {
    var inst := Sample("a:b", Some("ca.pem"));
    ImageFits();
    CaFits();
    SampleFits("a:b", Some("ca.pem"));
    SampleReady("a:b", Some(CaFile));
    AllWellSettles(0);
    EnsureReturnsIff(Bare(), inst, AllWell());
    EnsureStarts(Bare(), inst, AllWell());
    AcceptedPaths(EnsureRunning(Bare(), inst, AllWell()).0, inst);
  }

  lemma SampleReady(image: string, ldapCa: Option<string>)
    requires ldapCa == None || ldapCa == Some(CaFile)
    ensures Ready(Sample(image, ldapCa), SampleFiles())
  {
    assert StripFeeds("x") == "x";
    UsableIff("x");
  }

  // ------------------------------------------------------------------ a started instance

  /** Whenever an instance of an accepted record runs, the policy beside its container answers every
      request as the list of the record says, if and only if no name and no group ends in a line feed. */
  lemma StartedAnswers(d: DockerState, inst: Instance)
    requires FieldsOk(inst) && StartedFrom(d, inst)
    ensures var code := Read(d.rendered[inst.name].policy);
            && (code.Some? <==> !SomeFeed(inst.ssids))
            && (code.Some? ==> forall req :: Answers(inst.ssids, req, Evaluate(code.value, req, NoIf, [])))
  {
    AcceptedPolicy(inst.ssids);
  }

  /** Its clients file declares the subnets of the record, none of them on loopback, with the secret in the
      file of the record, if no subnet holds a line feed. */
  lemma StartedServes(d: DockerState, inst: Instance, read: string -> Option<N.Cidr>)
    requires StartedFrom(d, inst) && N.AllOneLine(inst.clientSubnets)
    requires forall i | 0 <= i < |inst.clientSubnets| :: N.PassesTest(inst.clientSubnets[i], read)
    ensures var clients := N.ReadClients(d.rendered[inst.name].clients);
            && clients.Some? && N.ServesOff(clients.value, inst.clientSubnets, read)
            && exists secret :: Trimmed(d.files[SecretFile(inst.radiusSecret)], secret)
                 && forall i | 0 <= i < |clients.value| :: N.HasSecret(clients.value[i], secret)
  {
    var secret :| Trimmed(d.files[SecretFile(inst.radiusSecret)], secret)
                  && ClientsConf(inst.clientSubnets, secret) == Ok(d.rendered[inst.name].clients);
    N.RenderedServes(inst.clientSubnets, secret, d.rendered[inst.name].clients, read);
  }

  // ------------------------------------------------------------------ the shell's readers

  function Zeros(n: nat): (s: string)
    ensures |s| == n && forall i | 0 <= i < n :: s[i] == '0'
  {
    if n == 0 then "" else Zeros(n - 1) + "0"
  }

  /** A lockfile that the gate accepts and `hashes()` misreads: it pins `a--hash`. */
  lemma AcceptedButMisread()
    ensures var items := [G.Block("a--hash", "1", [Zeros(64)])];
            var file := Unlines(G.FileLines(items));
            && G.UvLayout(file, items) && LP.Accepts(file)
            && multiset(SR.AwkRun(Lines(file)).out) != SR.PinHits(LP.ParsedPins(file))
  {
    var item := G.Block("a--hash", "1", [Zeros(64)]);
    BlockFits(item);
    G.WrittenIsLaid([item]);
    var file := Unlines(G.FileLines([item]));
    LP.GateDecidesUvLayout(file);
    assert SR.Misread([item][0]);
    SR.HashesExactIff(file, [item]);
  }

  lemma BlockFits(item: G.Item)
    requires item == G.Block("a--hash", "1", [Zeros(64)])
    ensures G.AllOk([item]) && G.DistinctNames(G.ItemPins([item])) && SR.Misread(item)
  {
    assert G.IsName(item.name) && G.IsVersion(item.version) && G.IsHash(Zeros(64));
    assert item.name == "a" + "--hash";
    assert G.ItemPins([item][..0]) == [];
  }
}
