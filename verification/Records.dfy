/** The records of the control plane (`controlplane/lmnradius/models.py`) and its exceptions. */
module Records {
  import opened Text

  datatype Ssid = Ssid(name: string, allowedGroup: string, vlan: Option<int>)

  datatype Instance = Instance(
    name: string,
    realm: string,
    workgroup: string,
    serverFqdn: string,
    ldapServer: string,
    ldapBaseDn: string,
    ldapBindDn: string,
    wifiGroup: string,
    clientSubnets: seq<string>,
    ssids: seq<Ssid>,
    joinSecret: string,
    ldapBindSecret: string,
    radiusSecret: string,
    image: string,
    ldapCa: Option<string>)

  /** A path of the host after resolution. */
  datatype HostPath =
    | SecretFile(file: string)                    // secrets_dir/<file>
    | CertFile(instance: string, file: string)    // certs_dir/<instance>/<file>
    | RenderedDir(instance: string)               // render_dir/<instance>
    | NamedVolume(volume: string)

  /** The exceptions the control plane raises. */
  datatype Failure =
    | UnsafeName
    | InvalidRecord
    | NoSuchInstance
    | NoPreviousImage
    | ChangeLogRefused
    | MissingFile(path: HostPath)
    | BadSecret
    | DockerError

  datatype Try<+T> = Ok(value: T) | Raised(error: Failure)
}
