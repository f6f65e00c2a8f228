/** `controlplane/lmnradius/docker_service.py`: the class itself, against `DockerSpec`. */
module Docker {
  import opened Records
  import D = DockerSpec
  import Render
  import Polling

  class DockerService {
    var containers: map<string, D.Container>
    var rendered: map<string, D.Rendered>
    var volumes: set<string>
    const files: map<HostPath, string>
    const settleTimeout: int

    ghost function State(): D.DockerState
      reads this
    {
      D.DockerState(containers, rendered, volumes, files, settleTimeout)
    }

    constructor (files: map<HostPath, string>, settleTimeout: int)
      ensures State() == D.DockerState(map[], map[], {}, files, settleTimeout)
    {
      this.files, this.settleTimeout := files, settleTimeout;
      containers, rendered, volumes := map[], map[], {};
    }

    /** A bad secret raises before the first of the two files is written. */
    method RenderInstance(inst: Instance) returns (r: Try<()>)
      modifies this`rendered
      ensures (State(), r) == D.RenderInstance(old(State()), inst)
    {
      if D.RadiusPath(inst) !in files {
        return Raised(MissingFile(D.RadiusPath(inst)));
      }
      var secret := D.StripFeeds(files[D.RadiusPath(inst)]);
      var clients := Render.RenderClientsConf(inst, secret);
      if clients.Raised? {
        return Raised(clients.error);
      }
      var policy := Render.RenderSsidPolicy(inst);
      rendered := rendered[inst.name := D.Rendered(clients.value, policy)];
      r := Ok(());
    }

    /** `_mounts`: every source is looked for before it is mounted. */
    method Mounts(inst: Instance, requireEap: bool) returns (r: Try<map<HostPath, D.Bind>>)
      ensures r == D.Mounts(inst, files, requireEap)
    {
      D.MissingIff(files, D.Required(inst, requireEap));
      var paths := D.Required(inst, requireEap);
      for i := 0 to |paths|
        invariant D.FirstMissing(files, paths) == D.FirstMissing(files, paths[i..])
      {
        if paths[i] !in files {
          return Raised(MissingFile(paths[i]));
        }
        assert paths[i..][1..] == paths[i + 1..];
      }
      var v: map<HostPath, D.Bind> := map[];
      v := D.AddBind(v, D.JoinPath(inst), "/run/secrets/" + inst.joinSecret);
      v := D.AddBind(v, D.BindPath(inst), "/run/secrets/" + inst.ldapBindSecret);
      v := v[NamedVolume(D.VolumeName(inst.name)) := D.Bind("/var/lib/samba", "rw")];
      v := D.AddCert(v, files, CertFile(inst.name, D.CaFile), "/run/secrets/eap/ca.pem");
      v := D.AddCert(v, files, CertFile(inst.name, D.CertFileName), "/run/secrets/eap/server.pem");
      v := D.AddCert(v, files, CertFile(inst.name, D.KeyFile), "/run/secrets/eap/server.key");
      if inst.ldapCa.Some? {
        v := D.AddBind(v, CertFile(inst.name, inst.ldapCa.value), "/run/secrets/ldap/ca.pem");
      }
      r := Ok(v);
    }

    /** Render and check everything, then replace the container. */
    method EnsureRunning(inst: Instance, e: D.RunEnv) returns (r: Try<()>)
      modifies this
      ensures (State(), r) == D.EnsureRunning(old(State()), inst, e)
    {
      if e.pull.PullBroken? {
        return Raised(DockerError);
      }
      r := RenderInstance(inst);
      if r.Raised? {
        return;
      }
      var env := D.EnvFor(inst, e.hostIp);
      var mounts := Mounts(inst, true);
      if mounts.Raised? {
        return Raised(mounts.error);
      }
      var binds := mounts.value[RenderedDir(inst.name) := D.Bind("/etc/lmnradius/instance.d", "ro")];
      r := StartAfresh(inst, env, binds, e);
    }

    method StartAfresh(inst: Instance, env: map<string, string>, binds: map<HostPath, D.Bind>, e: D.RunEnv)
      returns (r: Try<()>)
      requires D.Container(inst.image, inst.serverFqdn, env, binds, true) == D.ContainerFor(inst, files, e.hostIp)
      modifies this
      ensures (State(), r) == D.Replace(old(State()), inst, e)
    {
      if !e.lookup {
        return Raised(DockerError);
      }
      if inst.name in containers {
        if !e.removal {
          return Raised(DockerError);
        }
        containers := containers - {inst.name};
      }
      assert containers == old(containers) - {inst.name};
      if e.run.NotCreated? {
        return Raised(DockerError);
      }
      var started := e.run.Started?;
      containers := containers[inst.name := D.Container(inst.image, inst.serverFqdn, env, binds, started)];
      volumes := volumes + {D.VolumeName(inst.name)};
      if !started {
        return Raised(DockerError);
      }
      var st, n := Polling.WaitSettled(e.settle, settleTimeout);
      if st.Lost? {
        return Raised(DockerError);
      }
      r := Ok(());
    }

    /** `_leave_domain`. */
    method LeaveDomain(inst: Instance, e: D.RemoveEnv) returns (r: Try<D.Leave>)
      ensures r == D.LeaveDomain(State(), inst, e)
    {
      if !e.volumeLookup {
        return Raised(DockerError);
      }
      if D.VolumeName(inst.name) !in volumes {
        return Ok(D.Leave(true, false));
      }
      var mounts := Mounts(inst, false);
      if mounts.Raised? {
        return Ok(D.Leave(false, false));
      }
      match e.leave {
        case Left => return Ok(D.Leave(true, true));
        case LeaveRefused => return Ok(D.Leave(false, true));
        case LeaveBroken => return Raised(DockerError);
      }
    }

    method Remove(inst: Instance, e: D.RemoveEnv) returns (r: Try<D.Leave>)
      modifies this
      ensures (State(), r) == D.RemoveInstance(old(State()), inst, e)
    {
      var name := inst.name;
      if !e.lookup {
        return Raised(DockerError);
      }
      if name in containers {
        if e.stop.StopBroken? {
          return Raised(DockerError);
        }
        if e.stop.Stopped? {
          containers := containers[name := containers[name].(running := false)];
        }
      }
      ghost var stopped := State();
      assert stopped == D.StopFirst(old(State()), name, e).0;
      r := LeaveDomain(inst, e);
      if r.Raised? {
        return;
      }
      if !e.lookupAgain {
        return Raised(DockerError);
      }
      if name in containers {
        if !e.removal {
          return Raised(DockerError);
        }
        containers := containers - {name};
      }
      assert containers == stopped.containers - {name};
      if !e.volumeRemoval {
        return Raised(DockerError);
      }
      volumes := volumes - {D.VolumeName(name)};
      rendered := rendered - {name};
    }
  }
}
