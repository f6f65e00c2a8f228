/** `controlplane/lmnradius/docker_service.py` on values: containers, rendered files and state
    volumes, and what `ensure_running` and `remove` do to them.

    Docker answers are inputs. The secrets, certs and render directories hold no symbolic
    links, so a resolved path is determined by its directory and file name. */
module DockerSpec {
  import opened Text
  import opened Records
  import opened Render
  import opened Polling

  datatype Bind = Bind(target: string, mode: string)

  datatype Container = Container(
    image: string,
    hostname: string,
    env: map<string, string>,
    volumes: map<HostPath, Bind>,
    running: bool)

  /** `clients.conf` and `ssid-policy` of an instance. */
  datatype Rendered = Rendered(clients: string, policy: string)

  /** `files` are the secret and certificate files with their text; the time to settle is a
      setting. */
  datatype DockerState = DockerState(
    containers: map<string, Container>,
    rendered: map<string, Rendered>,
    volumes: set<string>,
    files: map<HostPath, string>,
    settleTimeout: int)

  datatype Pull = Pulled | PullRefused | PullBroken

  /** `run` creates and starts; a start that fails leaves the created container behind. */
  datatype RunAnswer = Started | NotCreated | NotStarted

  /** The answers of one `ensure_running`: the pull, the look-up and removal of the old
      container, the run, and the polls of the watch afterwards. */
  datatype RunEnv = RunEnv(
    pull: Pull, hostIp: Option<string>, lookup: bool, removal: bool, run: RunAnswer, settle: Polls)

  // ------------------------------------------------------------------ environment and mounts

  const CaFile := "ca.pem"
  const CertFileName := "server.pem"
  const KeyFile := "server.key"

  function VolumeName(name: string): string {
    "lmnradius-samba-" + name
  }

  function FixedEnv(inst: Instance): map<string, string> {
    map["INSTANCE" := inst.name,
        "REALM" := inst.realm,
        "WORKGROUP" := inst.workgroup,
        "SERVER_FQDN" := inst.serverFqdn,
        "LDAP_SERVER" := inst.ldapServer,
        "LDAP_BASE_DN" := inst.ldapBaseDn,
        "LDAP_BIND_DN" := inst.ldapBindDn,
        "WIFI_GROUP" := inst.wifiGroup,
        "LDAP_BIND_SECRET" := "/run/secrets/" + inst.ldapBindSecret,
        "JOIN_SECRET" := "/run/secrets/" + inst.joinSecret,
        "EAP_CA" := "/run/secrets/eap/ca.pem",
        "EAP_CERT" := "/run/secrets/eap/server.pem",
        "EAP_KEY" := "/run/secrets/eap/server.key"]
  }

  /** `env_for` */
  function EnvFor(inst: Instance, hostIp: Option<string>): map<string, string> {
    var env := if inst.ldapCa.Some? then FixedEnv(inst)["LDAP_CA" := "/run/secrets/ldap/ca.pem"] else FixedEnv(inst);
    if hostIp.Some? && hostIp.value != "" then env["HOST_IP" := hostIp.value] else env
  }

  function JoinPath(inst: Instance): HostPath {
    SecretFile(inst.joinSecret)
  }

  function BindPath(inst: Instance): HostPath {
    SecretFile(inst.ldapBindSecret)
  }

  /** The files `_mounts` insists on, in the order it looks for them. */
  function Required(inst: Instance, requireEap: bool): seq<HostPath> {
    [JoinPath(inst), BindPath(inst)]
    + (if requireEap
       then [CertFile(inst.name, CaFile), CertFile(inst.name, CertFileName), CertFile(inst.name, KeyFile)]
       else [])
    + (match inst.ldapCa case Some(ca) => [CertFile(inst.name, ca)] case None => [])
  }

  function FirstMissing(files: map<HostPath, string>, paths: seq<HostPath>): Option<HostPath> {
    if paths == [] then None
    else if paths[0] !in files then Some(paths[0])
    else FirstMissing(files, paths[1..])
  }

  function AddBind(volumes: map<HostPath, Bind>, path: HostPath, target: string): map<HostPath, Bind> {
    volumes[path := Bind(target, "ro")]
  }

  function AddCert(volumes: map<HostPath, Bind>, files: map<HostPath, string>, path: HostPath, target: string)
    : map<HostPath, Bind>
  {
    if path in files then AddBind(volumes, path, target) else volumes
  }

  /** The mounts of an instance, later entries replacing earlier ones of the same path. */
  function MountsFor(inst: Instance, files: map<HostPath, string>): map<HostPath, Bind> {
    var v := AddBind(map[], JoinPath(inst), "/run/secrets/" + inst.joinSecret);
    var v := AddBind(v, BindPath(inst), "/run/secrets/" + inst.ldapBindSecret);
    var v := v[NamedVolume(VolumeName(inst.name)) := Bind("/var/lib/samba", "rw")];
    var v := AddCert(v, files, CertFile(inst.name, CaFile), "/run/secrets/eap/ca.pem");
    var v := AddCert(v, files, CertFile(inst.name, CertFileName), "/run/secrets/eap/server.pem");
    var v := AddCert(v, files, CertFile(inst.name, KeyFile), "/run/secrets/eap/server.key");
    match inst.ldapCa
    case Some(ca) => AddBind(v, CertFile(inst.name, ca), "/run/secrets/ldap/ca.pem")
    case None => v
  }

  function Mounts(inst: Instance, files: map<HostPath, string>, requireEap: bool): Try<map<HostPath, Bind>> {
    match FirstMissing(files, Required(inst, requireEap))
    case Some(path) => Raised(MissingFile(path))
    case None => Ok(MountsFor(inst, files))
  }

  // ------------------------------------------------------------------ rendering

  /** `rstrip("\r\n")` */
  function StripFeeds(s: string): string {
    if s != "" && (s[|s| - 1] == '\n' || s[|s| - 1] == '\r') then StripFeeds(s[..|s| - 1]) else s
  }

  function RadiusPath(inst: Instance): HostPath {
    SecretFile(inst.radiusSecret)
  }

  function RenderedFor(inst: Instance, files: map<HostPath, string>): Try<Rendered> {
    if RadiusPath(inst) !in files then Raised(MissingFile(RadiusPath(inst)))
    else
      match ClientsConf(inst.clientSubnets, StripFeeds(files[RadiusPath(inst)]))
      case Raised(e) => Raised(e)
      case Ok(text) => Ok(Rendered(text, Policy(inst.ssids)))
  }

  function RenderInstance(d: DockerState, inst: Instance): (DockerState, Try<()>) {
    match RenderedFor(inst, d.files)
    case Raised(e) => (d, Raised(e))
    case Ok(r) => (d.(rendered := d.rendered[inst.name := r]), Ok(()))
  }

  // ------------------------------------------------------------------ ensure_running

  /** The container that a record stands for. */
  function ContainerFor(inst: Instance, files: map<HostPath, string>, hostIp: Option<string>): Container {
    Container(inst.image, inst.serverFqdn, EnvFor(inst, hostIp),
      MountsFor(inst, files)[RenderedDir(inst.name) := Bind("/etc/lmnradius/instance.d", "ro")], true)
  }

  /** From the point where everything is checked: replace the container. */
  ghost function Replace(d: DockerState, inst: Instance, e: RunEnv): (DockerState, Try<()>) {
    var n := inst.name;
    if !e.lookup || (n in d.containers && !e.removal) then (d, Raised(DockerError))
    else
      var gone := d.(containers := d.containers - {n});
      var c := ContainerFor(inst, d.files, e.hostIp);
      var created := gone.(volumes := d.volumes + {VolumeName(n)});
      match e.run
      case NotCreated => (gone, Raised(DockerError))
      case NotStarted => (created.(containers := gone.containers[n := c.(running := false)]), Raised(DockerError))
      case Started =>
        (created.(containers := gone.containers[n := c]), if Settles(e.settle, d.settleTimeout) then Ok(()) else Raised(DockerError))
  }

  ghost function EnsureRunning(d: DockerState, inst: Instance, e: RunEnv): (DockerState, Try<()>) {
    if e.pull.PullBroken? then (d, Raised(DockerError))
    else
      var (d1, r) := RenderInstance(d, inst);
      if r.Raised? then (d1, r)
      else
        match FirstMissing(d.files, Required(inst, true))
        case Some(path) => (d1, Raised(MissingFile(path)))
        case None => Replace(d1, inst, e)
  }

  // ------------------------------------------------------------------ what a container has to be

  /** What is left of a text without the line feeds and carriage returns at its end. */
  ghost predicate Trimmed(text: string, value: string) {
    && |value| <= |text| && text[..|value|] == value
    && (forall i | |value| <= i < |text| :: text[i] == '\n' || text[i] == '\r')
    && (value != "" ==> value[|value| - 1] != '\n' && value[|value| - 1] != '\r')
  }

  /** A non-empty secret on a single line. */
  ghost predicate Usable(text: string) {
    exists secret :: Trimmed(text, secret) && secret != "" && '\n' !in secret && '\r' !in secret
  }

  /** The secrets and the DC's CA, which every container mounts. */
  ghost predicate SecretsThere(inst: Instance, files: map<HostPath, string>) {
    && SecretFile(inst.joinSecret) in files && SecretFile(inst.ldapBindSecret) in files
    && (inst.ldapCa.Some? ==> CertFile(inst.name, inst.ldapCa.value) in files)
  }

  /** The secret that is rendered. */
  ghost predicate SecretReady(inst: Instance, files: map<HostPath, string>) {
    SecretFile(inst.radiusSecret) in files && Usable(files[SecretFile(inst.radiusSecret)])
  }

  /** Everything a start needs from the disk is there. */
  ghost predicate Ready(inst: Instance, files: map<HostPath, string>) {
    && SecretReady(inst, files)
    && SecretsThere(inst, files)
    && CertFile(inst.name, "ca.pem") in files && CertFile(inst.name, "server.pem") in files
    && CertFile(inst.name, "server.key") in files
  }

  ghost predicate HasAddress(ip: Option<string>) {
    ip.Some? && ip.value != ""
  }

  const FixedVariables := {
    "INSTANCE", "REALM", "WORKGROUP", "SERVER_FQDN", "LDAP_SERVER", "LDAP_BASE_DN", "LDAP_BIND_DN", "WIFI_GROUP",
    "LDAP_BIND_SECRET", "JOIN_SECRET", "EAP_CA", "EAP_CERT", "EAP_KEY"}

  ghost predicate HasIdentity(env: map<string, string>, inst: Instance)
    requires FixedVariables <= env.Keys
  {
    && env["INSTANCE"] == inst.name && env["REALM"] == inst.realm && env["WORKGROUP"] == inst.workgroup
    && env["SERVER_FQDN"] == inst.serverFqdn && env["WIFI_GROUP"] == inst.wifiGroup
  }

  ghost predicate HasDirectory(env: map<string, string>, inst: Instance)
    requires FixedVariables <= env.Keys
  {
    && env["LDAP_SERVER"] == inst.ldapServer && env["LDAP_BASE_DN"] == inst.ldapBaseDn
    && env["LDAP_BIND_DN"] == inst.ldapBindDn
  }

  ghost predicate HasPaths(env: map<string, string>, inst: Instance)
    requires FixedVariables <= env.Keys
  {
    && env["LDAP_BIND_SECRET"] == "/run/secrets/" + inst.ldapBindSecret
    && env["JOIN_SECRET"] == "/run/secrets/" + inst.joinSecret
    && env["EAP_CA"] == "/run/secrets/eap/ca.pem" && env["EAP_CERT"] == "/run/secrets/eap/server.pem"
    && env["EAP_KEY"] == "/run/secrets/eap/server.key"
  }

  /** The environment has exactly these variables, each with its own field of the record; `LDAP_CA` only
      for a record with a CA, and `HOST_IP` only when an address is known. */
  ghost predicate HasVariables(env: map<string, string>, inst: Instance, ip: Option<string>) {
    && env.Keys == FixedVariables + (if inst.ldapCa.Some? then {"LDAP_CA"} else {})
                   + (if HasAddress(ip) then {"HOST_IP"} else {})
    && HasIdentity(env, inst) && HasDirectory(env, inst) && HasPaths(env, inst)
    && (inst.ldapCa.Some? ==> env["LDAP_CA"] == "/run/secrets/ldap/ca.pem")
    && (HasAddress(ip) ==> env["HOST_IP"] == ip.value)
  }

  /** What is mounted: the two secrets, the state volume, the rendered files, the EAP certificate and
      the DC's CA, each at its place. */
  ghost predicate HasMounts(v: map<HostPath, Bind>, inst: Instance) {
    var n, ca := inst.name, inst.ldapCa;
    && v.Keys == {SecretFile(inst.joinSecret), SecretFile(inst.ldapBindSecret), NamedVolume("lmnradius-samba-" + n),
                  RenderedDir(n), CertFile(n, "ca.pem"), CertFile(n, "server.pem"), CertFile(n, "server.key")}
                 + (if ca.Some? then {CertFile(n, ca.value)} else {})
    && Placed(v, inst) && v[RenderedDir(n)].target == "/etc/lmnradius/instance.d"
  }

  /** Every mounted path of a record ends where the environment says, and only the state volume can be
      written; a CA file that is a file of the EAP certificate takes that file's place. */
  ghost predicate Placed(v: map<HostPath, Bind>, inst: Instance) {
    var n, ca := inst.name, inst.ldapCa;
    && PlacedAt(v, SecretFile(inst.joinSecret), "/run/secrets/" + inst.joinSecret)
    && PlacedAt(v, SecretFile(inst.ldapBindSecret), "/run/secrets/" + inst.ldapBindSecret)
    && PlacedAt(v, NamedVolume("lmnradius-samba-" + n), "/var/lib/samba")
    && (ca.Some? ==> PlacedAt(v, CertFile(n, ca.value), "/run/secrets/ldap/ca.pem"))
    && (ca != Some("ca.pem") ==> PlacedAt(v, CertFile(n, "ca.pem"), "/run/secrets/eap/ca.pem"))
    && (ca != Some("server.pem") ==> PlacedAt(v, CertFile(n, "server.pem"), "/run/secrets/eap/server.pem"))
    && (ca != Some("server.key") ==> PlacedAt(v, CertFile(n, "server.key"), "/run/secrets/eap/server.key"))
    && (forall p | p in v :: v[p].mode == if p.NamedVolume? then "rw" else "ro")
  }

  ghost predicate PlacedAt(v: map<HostPath, Bind>, p: HostPath, target: string) {
    p in v ==> v[p].target == target
  }

  /** The container is what the record says, with this address of the host. */
  ghost predicate Runs(c: Container, inst: Instance, ip: Option<string>) {
    && c.image == inst.image && c.hostname == inst.serverFqdn
    && HasVariables(c.env, inst, ip) && HasMounts(c.volumes, inst)
  }

  /** The rendered files are those of the record and of the secret in the record's file. */
  ghost predicate Renders(r: Rendered, inst: Instance, files: map<HostPath, string>) {
    && SecretFile(inst.radiusSecret) in files
    && r.policy == Policy(inst.ssids)
    && exists secret ::
         Trimmed(files[SecretFile(inst.radiusSecret)], secret) && ClientsConf(inst.clientSubnets, secret) == Ok(r.clients)
  }

  /** The instance runs, in a container and with files of exactly this record. */
  ghost predicate StartedFrom(d: DockerState, inst: Instance) {
    && inst.name in d.containers && inst.name in d.rendered && "lmnradius-samba-" + inst.name in d.volumes
    && d.containers[inst.name].running && (exists ip :: Runs(d.containers[inst.name], inst, ip))
    && Renders(d.rendered[inst.name], inst, d.files)
  }

  // ------------------------------------------------------------------ what is computed is that

  lemma {:induction false} StripFeedsTrims(text: string)
    ensures Trimmed(text, StripFeeds(text))
  {
    if text != "" && (text[|text| - 1] == '\n' || text[|text| - 1] == '\r') {
      StripFeedsTrims(text[..|text| - 1]);
    }
  }

  lemma TrimmedUnique(text: string, a: string, b: string)
    requires Trimmed(text, a) && Trimmed(text, b)
    ensures a == b
  {
    assert !(|a| < |b|) && !(|b| < |a|);
  }

  lemma UsableIff(text: string)
    ensures Usable(text) <==> !BadSecretText(StripFeeds(text))
  {
    StripFeedsTrims(text);
    if secret :| Trimmed(text, secret) && secret != "" && '\n' !in secret && '\r' !in secret {
      TrimmedUnique(text, secret, StripFeeds(text));
    }
  }

  lemma {:induction false} MissingIff(files: map<HostPath, string>, paths: seq<HostPath>)
    ensures FirstMissing(files, paths).None? <==> forall p | p in paths :: p in files
    ensures FirstMissing(files, paths).Some? ==>
              FirstMissing(files, paths).value in paths && FirstMissing(files, paths).value !in files
  {
    if paths != [] {
      MissingIff(files, paths[1..]);
      assert forall p :: p in paths <==> p == paths[0] || p in paths[1..];
    }
  }

  /** What `_mounts` insists on. */
  lemma MountsIff(inst: Instance, files: map<HostPath, string>, requireEap: bool)
    ensures FirstMissing(files, Required(inst, requireEap)).None?
            <==> && SecretsThere(inst, files)
                 && (requireEap ==>
                       && CertFile(inst.name, "ca.pem") in files && CertFile(inst.name, "server.pem") in files
                       && CertFile(inst.name, "server.key") in files)
  {
    var needed := Required(inst, requireEap);
    MissingIff(files, needed);
    assert needed[0] in needed && needed[1] in needed;
    assert requireEap ==> needed[2] in needed && needed[3] in needed && needed[4] in needed;
    assert inst.ldapCa.Some? ==> needed[|needed| - 1] in needed;
  }

  /** The files are ready exactly if rendering and mounting find all of them. */
  lemma ReadyIff(inst: Instance, files: map<HostPath, string>)
    ensures Ready(inst, files)
            <==> RenderedFor(inst, files).Ok? && FirstMissing(files, Required(inst, true)).None?
  {
    MountsIff(inst, files, true);
    if SecretFile(inst.radiusSecret) in files {
      UsableIff(files[SecretFile(inst.radiusSecret)]);
    }
  }

  /** The names of the variables are different. */
  lemma DifferentVariables()
    ensures |"REALM"| == 5 && |"EAP_CA"| == 6 && |"EAP_KEY"| == |"LDAP_CA"| == |"HOST_IP"| == 7
    ensures |"INSTANCE"| == |"EAP_CERT"| == 8 && |"WORKGROUP"| == 9 && |"WIFI_GROUP"| == 10
    ensures |"SERVER_FQDN"| == |"LDAP_SERVER"| == |"JOIN_SECRET"| == 11
    ensures |"LDAP_BASE_DN"| == |"LDAP_BIND_DN"| == 12 && |"LDAP_BIND_SECRET"| == 16
    ensures "EAP_KEY" != "LDAP_CA" && "LDAP_CA" != "HOST_IP" && "EAP_KEY" != "HOST_IP"
    ensures "INSTANCE" != "EAP_CERT" && "LDAP_BASE_DN" != "LDAP_BIND_DN"
    ensures "SERVER_FQDN" != "LDAP_SERVER" && "LDAP_SERVER" != "JOIN_SECRET" && "SERVER_FQDN" != "JOIN_SECRET"
  {
    assert "EAP_KEY"[0] == 'E' && "LDAP_CA"[0] == 'L' && "HOST_IP"[0] == 'H';
    assert "INSTANCE"[0] == 'I' && "EAP_CERT"[0] == 'E';
    assert "LDAP_BASE_DN"[6] == 'A' && "LDAP_BIND_DN"[6] == 'I';
    assert "SERVER_FQDN"[0] == 'S' && "LDAP_SERVER"[0] == 'L' && "JOIN_SECRET"[0] == 'J';
  }

  lemma FixedKeys(inst: Instance)
    ensures FixedEnv(inst).Keys == FixedVariables
  {
  }

  lemma FixedIdentity(inst: Instance)
    ensures HasIdentity(FixedEnv(inst), inst)
  {
    DifferentVariables();
  }

  lemma FixedDirectory(inst: Instance)
    ensures HasDirectory(FixedEnv(inst), inst)
  {
    DifferentVariables();
  }

  lemma FixedPaths(inst: Instance)
    ensures HasPaths(FixedEnv(inst), inst)
  {
    DifferentVariables();
  }

  lemma EnvHas(inst: Instance, ip: Option<string>)
    ensures HasVariables(EnvFor(inst, ip), inst, ip)
  {
    FixedKeys(inst);
    FixedIdentity(inst);
    FixedDirectory(inst);
    FixedPaths(inst);
    NewVariables();
  }

  lemma NewVariables()
    ensures "LDAP_CA" !in FixedVariables && "HOST_IP" !in FixedVariables && "LDAP_CA" != "HOST_IP"
  {
    DifferentVariables();
  }

  lemma DifferentFiles()
    ensures CaFile != CertFileName && CertFileName != KeyFile && CaFile != KeyFile
  {
    assert CertFileName[7] == 'p' && KeyFile[7] == 'k';
  }

  lemma MountsHave(inst: Instance, files: map<HostPath, string>)
    requires CertFile(inst.name, CaFile) in files && CertFile(inst.name, CertFileName) in files
    requires CertFile(inst.name, KeyFile) in files
    ensures HasMounts(MountsFor(inst, files)[RenderedDir(inst.name) := Bind("/etc/lmnradius/instance.d", "ro")], inst)
  {
    MountedThere(inst, files);
    MountedPlaced(inst, files);
  }

  /** These paths are mounted: the secrets, the volume, the files of the EAP certificate that are there, and
      the DC's CA. */
  ghost predicate MountsThere(v: map<HostPath, Bind>, inst: Instance, files: map<HostPath, string>) {
    var n := inst.name;
    forall p :: p in v
      <==> || p == SecretFile(inst.joinSecret) || p == SecretFile(inst.ldapBindSecret)
           || p == NamedVolume("lmnradius-samba-" + n)
           || (p in files && (p == CertFile(n, "ca.pem") || p == CertFile(n, "server.pem") || p == CertFile(n, "server.key")))
           || (inst.ldapCa.Some? && p == CertFile(n, inst.ldapCa.value))
  }

  /** `_mounts` returns exactly if what it insists on is there, and never mounts a file that is missing;
      with or without the certificate every path has its place. */
  lemma MountsOutcome(inst: Instance, files: map<HostPath, string>, requireEap: bool)
    ensures var r, n := Mounts(inst, files, requireEap), inst.name;
            && (r.Ok? <==> SecretsThere(inst, files)
                           && (requireEap ==> CertFile(n, "ca.pem") in files && CertFile(n, "server.pem") in files
                                              && CertFile(n, "server.key") in files))
            && (r.Ok? ==> MountsThere(r.value, inst, files)
                          && (forall p | p in r.value :: p.NamedVolume? || p in files)
                          && Placed(r.value, inst))
  {
    MountsIff(inst, files, requireEap);
    MountedThere(inst, files);
    MountedPlaced(inst, files);
  }

  lemma MountedThere(inst: Instance, files: map<HostPath, string>)
    ensures MountsThere(MountsFor(inst, files), inst, files)
  {
  }

  lemma MountedModes(inst: Instance, files: map<HostPath, string>)
    ensures var v := MountsFor(inst, files); forall p | p in v :: v[p].mode == if p.NamedVolume? then "rw" else "ro"
  {
  }

  lemma MountedCerts(inst: Instance, files: map<HostPath, string>)
    ensures var v, n, ca := MountsFor(inst, files), inst.name, inst.ldapCa;
            && (ca != Some(CaFile) ==> PlacedAt(v, CertFile(n, CaFile), "/run/secrets/eap/ca.pem"))
            && (ca != Some(CertFileName) ==> PlacedAt(v, CertFile(n, CertFileName), "/run/secrets/eap/server.pem"))
            && (ca != Some(KeyFile) ==> PlacedAt(v, CertFile(n, KeyFile), "/run/secrets/eap/server.key"))
  {
    DifferentFiles();
  }

  lemma MountedPlaced(inst: Instance, files: map<HostPath, string>)
    ensures Placed(MountsFor(inst, files), inst)
  {
    MountedModes(inst, files);
    MountedCerts(inst, files);
  }

  lemma ContainerRuns(inst: Instance, files: map<HostPath, string>, ip: Option<string>)
    requires Ready(inst, files)
    ensures Runs(ContainerFor(inst, files, ip), inst, ip)
  {
    EnvHas(inst, ip);
    MountsHave(inst, files);
  }

  lemma RenderedRenders(inst: Instance, files: map<HostPath, string>)
    requires RenderedFor(inst, files).Ok?
    ensures Renders(RenderedFor(inst, files).value, inst, files)
  {
    StripFeedsTrims(files[SecretFile(inst.radiusSecret)]);
  }

  // ------------------------------------------------------------------ what a start leaves

  /** The containers, rendered files and state volumes of all other instances are the same. */
  ghost predicate SameOthers(d: DockerState, d': DockerState, name: string) {
    d'.files == d.files && d'.settleTimeout == d.settleTimeout && SameVolumes(d, d', name)
    && forall m | m != name ::
         && (m in d'.containers <==> m in d.containers)
         && (m in d.containers ==> d'.containers[m] == d.containers[m])
         && (m in d'.rendered <==> m in d.rendered)
         && (m in d.rendered ==> d'.rendered[m] == d.rendered[m])
  }

  ghost predicate SameVolumes(d: DockerState, d': DockerState, name: string) {
    forall m | m != name :: VolumeName(m) in d'.volumes <==> VolumeName(m) in d.volumes
  }

  lemma VolumeNamesDiffer(name: string)
    ensures forall m | m != name :: VolumeName(m) != VolumeName(name)
  {
    forall m | VolumeName(m) == VolumeName(name) ensures m == name {
      var n := |VolumeName("")|;
      assert VolumeName(m)[n..] == m && VolumeName(name)[n..] == name;
    }
  }

  /** Only this instance's container, rendered files and state volume can change. */
  lemma EnsureElsewhere(d: DockerState, inst: Instance, e: RunEnv)
    ensures SameOthers(d, EnsureRunning(d, inst, e).0, inst.name)
  {
    var d1 := RenderInstance(d, inst).0;
    assert SameOthers(d, d1, inst.name);
    ReplaceElsewhere(d1, inst, e);
  }

  lemma ReplaceElsewhere(d: DockerState, inst: Instance, e: RunEnv)
    ensures SameOthers(d, Replace(d, inst, e).0, inst.name)
  {
    VolumeNamesDiffer(inst.name);
  }

  /** A start that returns has started the container from exactly the given record, with the address
      of the host that was found. */
  lemma EnsureStarts(d: DockerState, inst: Instance, e: RunEnv)
    requires EnsureRunning(d, inst, e).1.Ok?
    ensures var d' := EnsureRunning(d, inst, e).0;
            && Ready(inst, d.files) && StartedFrom(d', inst)
            && Runs(d'.containers[inst.name], inst, e.hostIp)
  {
    EnsureIsReplace(d, inst, e);
    ReadyIff(inst, d.files);
    RenderedRenders(inst, d.files);
    ContainerRuns(inst, d.files, e.hostIp);
    ReplaceReturns(RenderInstance(d, inst).0, inst, e);
  }

  lemma EnsureIsReplace(d: DockerState, inst: Instance, e: RunEnv)
    requires EnsureRunning(d, inst, e).1.Ok?
    ensures RenderedFor(inst, d.files).Ok? && FirstMissing(d.files, Required(inst, true)).None?
    ensures EnsureRunning(d, inst, e) == Replace(RenderInstance(d, inst).0, inst, e)
  {
  }

  lemma ReplaceReturns(d: DockerState, inst: Instance, e: RunEnv)
    requires Replace(d, inst, e).1.Ok?
    ensures var d', n := Replace(d, inst, e).0, inst.name;
            && n in d'.containers && d'.containers[n] == ContainerFor(inst, d.files, e.hostIp)
            && VolumeName(n) in d'.volumes && d'.rendered == d.rendered && d'.files == d.files
  {
  }

  /** A missing or unusable secret, certificate or CA file raises before any container is
      touched. */
  lemma EnsureFailsClosed(d: DockerState, inst: Instance, e: RunEnv)
    requires !Ready(inst, d.files)
    ensures var (d', r) := EnsureRunning(d, inst, e);
            r.Raised? && d'.containers == d.containers && d'.volumes == d.volumes
  {
    ReadyIff(inst, d.files);
  }

  /** The start returns exactly when the files are ready and Docker answers every step; a
      refused pull does not matter, nor what the watch afterwards sees, as long as it sees it. */
  ghost predicate Starts(d: DockerState, inst: Instance, e: RunEnv) {
    && !e.pull.PullBroken? && Ready(inst, d.files) && e.lookup
    && (inst.name in d.containers ==> e.removal) && e.run.Started?
    && Settles(e.settle, d.settleTimeout)
  }

  lemma EnsureReturnsIff(d: DockerState, inst: Instance, e: RunEnv)
    ensures EnsureRunning(d, inst, e).1.Ok? <==> Starts(d, inst, e)
  {
    ReadyIff(inst, d.files);
  }

  /** The first thing that is wrong with the files. */
  ghost function Fault(inst: Instance, files: map<HostPath, string>): Option<Failure> {
    var n := inst.name;
    if SecretFile(inst.radiusSecret) !in files then Some(MissingFile(SecretFile(inst.radiusSecret)))
    else if !Usable(files[SecretFile(inst.radiusSecret)]) then Some(BadSecret)
    else if SecretFile(inst.joinSecret) !in files then Some(MissingFile(SecretFile(inst.joinSecret)))
    else if SecretFile(inst.ldapBindSecret) !in files then Some(MissingFile(SecretFile(inst.ldapBindSecret)))
    else if CertFile(n, "ca.pem") !in files then Some(MissingFile(CertFile(n, "ca.pem")))
    else if CertFile(n, "server.pem") !in files then Some(MissingFile(CertFile(n, "server.pem")))
    else if CertFile(n, "server.key") !in files then Some(MissingFile(CertFile(n, "server.key")))
    else if inst.ldapCa.Some? && CertFile(n, inst.ldapCa.value) !in files then
      Some(MissingFile(CertFile(n, inst.ldapCa.value)))
    else None
  }

  /** What a start that raises leaves behind, by the step at which it raised. */
  ghost predicate StartBroken(d: DockerState, inst: Instance, e: RunEnv, d': DockerState, error: Failure) {
    var n := inst.name;
    if e.pull.PullBroken? then d' == d && error == DockerError
    else if Fault(inst, d.files).Some? then
      && Some(error) == Fault(inst, d.files)
      && d'.containers == d.containers && d'.volumes == d.volumes
      && if SecretReady(inst, d.files) then n in d'.rendered && Renders(d'.rendered[n], inst, d.files) else d' == d
    else
      && error == DockerError && n in d'.rendered && Renders(d'.rendered[n], inst, d.files)
      && if !e.lookup || (n in d.containers && !e.removal) then
           d'.containers == d.containers && d'.volumes == d.volumes
         else
           match e.run
           case NotCreated => n !in d'.containers && d'.volumes == d.volumes
           case NotStarted =>
             && n in d'.containers && Runs(d'.containers[n], inst, e.hostIp) && !d'.containers[n].running
             && "lmnradius-samba-" + n in d'.volumes
           case Started => StartedFrom(d', inst) && !Settles(e.settle, d.settleTimeout)
  }

  lemma EnsureRaises(d: DockerState, inst: Instance, e: RunEnv)
    requires EnsureRunning(d, inst, e).1.Raised?
    ensures var (d', r) := EnsureRunning(d, inst, e); StartBroken(d, inst, e, d', r.error)
  {
    if !e.pull.PullBroken? {
      FaultRaised(d, inst, e);
      if Ready(inst, d.files) {
        ReadyIff(inst, d.files);
        RenderedRenders(inst, d.files);
        ContainerRuns(inst, d.files, e.hostIp);
        ReplaceRaises(RenderInstance(d, inst).0, inst, e);
      } else {
        FaultRendered(d, inst, e);
      }
    }
  }

  lemma FaultRaised(d: DockerState, inst: Instance, e: RunEnv)
    requires !e.pull.PullBroken?
    ensures Fault(inst, d.files).None? <==> Ready(inst, d.files)
    ensures var (d', r) := EnsureRunning(d, inst, e);
            Fault(inst, d.files).Some? ==>
              && r == Raised(Fault(inst, d.files).value)
              && d'.containers == d.containers && d'.volumes == d.volumes
  {
    if SecretFile(inst.radiusSecret) in d.files {
      UsableIff(d.files[SecretFile(inst.radiusSecret)]);
      if Usable(d.files[SecretFile(inst.radiusSecret)]) {
        MountFault(inst, d.files);
      }
    }
  }

  /** A start renders both files or neither. */
  lemma FaultRendered(d: DockerState, inst: Instance, e: RunEnv)
    requires !e.pull.PullBroken? && !Ready(inst, d.files)
    ensures var d', n := EnsureRunning(d, inst, e).0, inst.name;
            if SecretReady(inst, d.files) then n in d'.rendered && Renders(d'.rendered[n], inst, d.files) else d' == d
  {
    ReadyIff(inst, d.files);
    if SecretFile(inst.radiusSecret) in d.files {
      UsableIff(d.files[SecretFile(inst.radiusSecret)]);
    }
    if RenderedFor(inst, d.files).Ok? {
      RenderedRenders(inst, d.files);
    }
  }

  lemma MountFault(inst: Instance, files: map<HostPath, string>)
    requires SecretFile(inst.radiusSecret) in files && Usable(files[SecretFile(inst.radiusSecret)])
    ensures var missing := FirstMissing(files, Required(inst, true));
            Fault(inst, files) == match missing case Some(p) => Some(MissingFile(p)) case None => None
  {
    var n := inst.name;
    var last := match inst.ldapCa case Some(f) => [CertFile(n, f)] case None => [];
    var a, b, c := CertFile(n, CaFile), CertFile(n, CertFileName), CertFile(n, KeyFile);
    MissingFive(files, JoinPath(inst), BindPath(inst), a, b, c, last);
    assert Required(inst, true) == [JoinPath(inst), BindPath(inst), a, b, c] + last;
    if inst.ldapCa.Some? {
      MissingCons(files, last[0], []);
      assert last == [last[0]] + [];
    }
  }

  lemma MissingFive(files: map<HostPath, string>, j: HostPath, l: HostPath, a: HostPath, b: HostPath, c: HostPath,
                    last: seq<HostPath>)
    ensures FirstMissing(files, [j, l, a, b, c] + last)
            == if j !in files then Some(j)
               else if l !in files then Some(l)
               else if a !in files then Some(a)
               else if b !in files then Some(b)
               else if c !in files then Some(c)
               else FirstMissing(files, last)
  {
    MissingCons(files, c, last);
    MissingCons(files, b, [c] + last);
    MissingCons(files, a, [b] + ([c] + last));
    MissingCons(files, l, [a] + ([b] + ([c] + last)));
    MissingCons(files, j, [l] + ([a] + ([b] + ([c] + last))));
    assert [j, l, a, b, c] + last == [j] + ([l] + ([a] + ([b] + ([c] + last))));
  }

  lemma MissingCons(files: map<HostPath, string>, p: HostPath, rest: seq<HostPath>)
    ensures FirstMissing(files, [p] + rest) == if p in files then FirstMissing(files, rest) else Some(p)
  {
    assert ([p] + rest)[1..] == rest;
  }

  lemma ReplaceRaises(d: DockerState, inst: Instance, e: RunEnv)
    requires Replace(d, inst, e).1.Raised?
    ensures var (d', r), n, c := Replace(d, inst, e), inst.name, ContainerFor(inst, d.files, e.hostIp);
            && r.error == DockerError && d'.rendered == d.rendered && d'.files == d.files
            && d'.settleTimeout == d.settleTimeout
            && if !e.lookup || (n in d.containers && !e.removal) then
                 d'.containers == d.containers && d'.volumes == d.volumes
               else
                 match e.run
                 case NotCreated => n !in d'.containers && d'.volumes == d.volumes
                 case NotStarted =>
                   n in d'.containers && d'.containers[n] == c.(running := false) && VolumeName(n) in d'.volumes
                 case Started =>
                   && n in d'.containers && d'.containers[n] == c && VolumeName(n) in d'.volumes
                   && !Settles(e.settle, d.settleTimeout)
  {
  }

  // ------------------------------------------------------------------ mounts and paths

  /** The variables that hold paths of mounted files. */
  function PathVariables(inst: Instance): set<string> {
    {"JOIN_SECRET", "LDAP_BIND_SECRET", "EAP_CA", "EAP_CERT", "EAP_KEY"}
    + if inst.ldapCa.Some? then {"LDAP_CA"} else {}
  }

  /** Some mount ends at this path in the container. */
  ghost predicate Mounted(c: Container, target: string) {
    exists p :: p in c.volumes && c.volumes[p].target == target
  }

  /** The CA file is one of the three files of the EAP certificate. */
  predicate CaClashes(inst: Instance) {
    inst.ldapCa == Some(CaFile) || inst.ldapCa == Some(CertFileName) || inst.ldapCa == Some(KeyFile)
  }

  lemma SecretTarget(file: string)
    requires !Has(file, '/')
    ensures var t := "/run/secrets/" + file;
            && t != "/run/secrets/eap/ca.pem" && t != "/run/secrets/eap/server.pem"
            && t != "/run/secrets/eap/server.key"
  {
    var t := "/run/secrets/" + file;
    if |t| > 16 {
      assert t[16] == file[3];
    }
  }

  /** Every path in the environment of a record's container is the end of a mount if and only if the
      CA file of the DC is not one of the EAP certificate's files. */
  lemma EveryPathMountedIff(c: Container, inst: Instance, ip: Option<string>)
    requires Runs(c, inst, ip) && !Has(inst.joinSecret, '/') && !Has(inst.ldapBindSecret, '/')
    ensures (forall k | k in PathVariables(inst) :: k in c.env && Mounted(c, c.env[k])) <==> !CaClashes(inst)
  {
    if CaClashes(inst) {
      ClashUnmounted(c, inst, ip);
    } else {
      EachMounted(c, inst, ip);
    }
  }

  /** The end of the mount that the CA file takes away. */
  function LostTarget(inst: Instance): string {
    if inst.ldapCa == Some(CaFile) then "/run/secrets/eap/ca.pem"
    else if inst.ldapCa == Some(CertFileName) then "/run/secrets/eap/server.pem"
    else "/run/secrets/eap/server.key"
  }

  lemma ClashUnmounted(c: Container, inst: Instance, ip: Option<string>)
    requires Runs(c, inst, ip) && !Has(inst.joinSecret, '/') && !Has(inst.ldapBindSecret, '/')
    requires CaClashes(inst)
    ensures !Mounted(c, LostTarget(inst))
  {
    SecretTarget(inst.joinSecret);
    SecretTarget(inst.ldapBindSecret);
    DifferentFiles();
    DifferentTargets();
  }

  lemma EachMounted(c: Container, inst: Instance, ip: Option<string>)
    requires Runs(c, inst, ip) && !CaClashes(inst)
    ensures forall k | k in PathVariables(inst) :: k in c.env && Mounted(c, c.env[k])
  {
  }

  lemma DifferentTargets()
    ensures "/run/secrets/eap/ca.pem" != "/run/secrets/ldap/ca.pem"
    ensures "/run/secrets/eap/server.pem" != "/run/secrets/eap/server.key"
    ensures "/run/secrets/eap/server.pem" != "/run/secrets/ldap/ca.pem"
    ensures "/run/secrets/eap/server.key" != "/run/secrets/ldap/ca.pem"
    ensures "/run/secrets/eap/ca.pem" != "/etc/lmnradius/instance.d"
    ensures "/run/secrets/eap/server.pem" != "/etc/lmnradius/instance.d"
    ensures "/run/secrets/eap/server.key" != "/etc/lmnradius/instance.d"
  {
    var pem, key := "/run/secrets/eap/server.pem", "/run/secrets/eap/server.key";
    assert pem[24] == 'p' && key[24] == 'k' && pem[1] == 'r';
    assert "/etc/lmnradius/instance.d"[1] == 'e';
  }

  // ------------------------------------------------------------------ remove

  datatype StopAnswer = Stopped | StopRefused | StopBroken
  datatype LeaveAnswer = Left | LeaveRefused | LeaveBroken

  datatype RemoveEnv = RemoveEnv(
    lookup: bool, stop: StopAnswer, volumeLookup: bool, leave: LeaveAnswer, lookupAgain: bool,
    removal: bool, volumeRemoval: bool)

  /** The reported domain leave. */
  datatype Leave = Leave(ok: bool, attempted: bool)

  function StopFirst(d: DockerState, name: string, e: RemoveEnv): (DockerState, Try<()>) {
    if !e.lookup || (name in d.containers && e.stop.StopBroken?) then (d, Raised(DockerError))
    else if name in d.containers && e.stop.Stopped? then
      (d.(containers := d.containers[name := d.containers[name].(running := false)]), Ok(()))
    else (d, Ok(()))
  }

  /** `_leave_domain`: a leave that cannot be run or fails is reported, not raised. */
  function LeaveDomain(d: DockerState, inst: Instance, e: RemoveEnv): Try<Leave> {
    if !e.volumeLookup then Raised(DockerError)
    else if VolumeName(inst.name) !in d.volumes then Ok(Leave(true, false))
    else if Mounts(inst, d.files, false).Raised? then Ok(Leave(false, false))
    else
      match e.leave
      case Left => Ok(Leave(true, true))
      case LeaveRefused => Ok(Leave(false, true))
      case LeaveBroken => Raised(DockerError)
  }

  function TearDown(d: DockerState, name: string, leave: Leave, e: RemoveEnv): (DockerState, Try<Leave>) {
    if !e.lookupAgain || (name in d.containers && !e.removal) then (d, Raised(DockerError))
    else
      var gone := d.(containers := d.containers - {name});
      if !e.volumeRemoval then (gone, Raised(DockerError))
      else (gone.(volumes := d.volumes - {VolumeName(name)}, rendered := d.rendered - {name}), Ok(leave))
  }

  function RemoveInstance(d: DockerState, inst: Instance, e: RemoveEnv): (DockerState, Try<Leave>) {
    var (d1, r) := StopFirst(d, inst.name, e);
    if r.Raised? then (d1, Raised(r.error))
    else
      match LeaveDomain(d1, inst, e)
      case Raised(error) => (d1, Raised(error))
      case Ok(leave) => TearDown(d1, inst.name, leave, e)
  }

  lemma StopElsewhere(d: DockerState, name: string, e: RemoveEnv)
    ensures var (d', r) := StopFirst(d, name, e);
            && SameOthers(d, d', name) && d'.volumes == d.volumes && d'.containers.Keys == d.containers.Keys
            && (r.Ok? <==> e.lookup && (name in d.containers ==> !e.stop.StopBroken?))
  {
  }

  lemma TearDownEffect(d: DockerState, name: string, leave: Leave, e: RemoveEnv)
    ensures var (d', r) := TearDown(d, name, leave, e);
            && SameOthers(d, d', name)
            && (r.Ok? <==> e.lookupAgain && (name in d.containers ==> e.removal) && e.volumeRemoval)
            && (r.Ok? ==> Gone(d', name) && r.value == leave)
  {
    VolumeNamesDiffer(name);
  }

  lemma SameOthersTwice(a: DockerState, b: DockerState, c: DockerState, name: string)
    requires SameOthers(a, b, name) && SameOthers(b, c, name)
    ensures SameOthers(a, c, name)
  {
  }

  /** A leave of the domain is run: there is state of the instance, and what the run mounts is there. */
  ghost predicate LeaveRuns(d: DockerState, inst: Instance) {
    "lmnradius-samba-" + inst.name in d.volumes && SecretsThere(inst, d.files)
  }

  /** The answers with which a removal returns; neither a container that cannot be stopped nor a leave
      that fails stands in its way. */
  ghost predicate Removes(d: DockerState, inst: Instance, e: RemoveEnv) {
    && e.lookup && (inst.name in d.containers ==> !e.stop.StopBroken?)
    && e.volumeLookup && (LeaveRuns(d, inst) ==> !e.leave.LeaveBroken?)
    && e.lookupAgain && (inst.name in d.containers ==> e.removal)
    && e.volumeRemoval
  }

  /** What is reported: nothing to leave, a leave that could not be tried, or how it went. */
  ghost predicate ReportsLeave(d: DockerState, inst: Instance, e: RemoveEnv, leave: Leave) {
    if "lmnradius-samba-" + inst.name !in d.volumes then leave.ok && !leave.attempted
    else if !SecretsThere(inst, d.files) then !leave.ok && !leave.attempted
    else leave.attempted && (leave.ok <==> e.leave.Left?)
  }

  /** Nothing is left of the instance but its certificates and secrets. */
  ghost predicate Gone(d: DockerState, name: string) {
    name !in d.containers && name !in d.rendered && "lmnradius-samba-" + name !in d.volumes
  }

  lemma LeaveCases(d: DockerState, inst: Instance, e: RemoveEnv)
    ensures var leave := LeaveDomain(d, inst, e);
            && (leave.Ok? <==> e.volumeLookup && (LeaveRuns(d, inst) ==> !e.leave.LeaveBroken?))
            && (leave.Ok? ==> ReportsLeave(d, inst, e, leave.value))
            && (leave.Raised? ==> leave.error == DockerError)
  {
    MountsIff(inst, d.files, false);
  }

  /** When a removal returns, and what it leaves and reports: no container, no rendered files (they hold
      the shared secret) and no state volume, even if the leave failed; other instances are not touched. */
  lemma RemoveReturnsIff(d: DockerState, inst: Instance, e: RemoveEnv)
    ensures var (d', r) := RemoveInstance(d, inst, e);
            && (r.Ok? <==> Removes(d, inst, e))
            && (r.Ok? ==> Gone(d', inst.name) && ReportsLeave(d, inst, e, r.value))
            && SameOthers(d, d', inst.name)
  {
    var (d1, stopped) := StopFirst(d, inst.name, e);
    StopElsewhere(d, inst.name, e);
    LeaveCases(d1, inst, e);
    if stopped.Ok? && LeaveDomain(d1, inst, e).Ok? {
      var leave := LeaveDomain(d1, inst, e).value;
      TearDownEffect(d1, inst.name, leave, e);
      SameOthersTwice(d, d1, TearDown(d1, inst.name, leave, e).0, inst.name);
    }
  }

  /** What a removal that raises leaves behind: everything, the container perhaps stopped, unless only
      the volume could not be removed. */
  ghost predicate RemovalBroken(d: DockerState, inst: Instance, e: RemoveEnv, d': DockerState) {
    var n := inst.name;
    && d'.rendered == d.rendered && d'.volumes == d.volumes && d'.files == d.files
    && if Removes(d, inst, e.(volumeRemoval := true)) then d'.containers == d.containers - {n}
       else
         && d'.containers.Keys == d.containers.Keys
         && (n in d.containers ==>
               d'.containers[n]
               == if e.lookup && e.stop.Stopped? then d.containers[n].(running := false) else d.containers[n])
  }

  lemma RemoveRaises(d: DockerState, inst: Instance, e: RemoveEnv)
    requires RemoveInstance(d, inst, e).1.Raised?
    ensures var (d', r) := RemoveInstance(d, inst, e);
            r.error == DockerError && RemovalBroken(d, inst, e, d')
  {
    var d1 := StopFirst(d, inst.name, e).0;
    LeaveCases(d1, inst, e);
    assert d1.containers - {inst.name} == d.containers - {inst.name};
  }
}
