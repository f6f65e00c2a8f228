/** `controlplane/lmnradius/render.py`: the two configuration files of an instance. */
module Render {
  import opened Text
  import opened Decimals
  import opened Records

  // Long header lines are given in pieces, so that facts about their characters stay cheap.

  const ClientsHeader := [
    "# Generated by lmnradius \U{2014} " + "one client{} per AP-management subnet.",
    "# The container entrypoint appends " + "the loopback healthcheck client itself.",
    "# Do not edit by hand; " + "it is overwritten on every reconcile."]

  const PolicyHeader := [
    "# Generated by lmnradius \U{2014} " + "per-SSID group gate + " + "optional dynamic VLAN.",
    "# Included into sites/inner-tunnel " + "post-auth via $-INCLUDE.",
    "# Do not edit by hand; " + "it is overwritten on every reconcile."]

  // ------------------------------------------------------------------ escaping

  /** `str.replace` of one character. */
  function Replace(s: string, c: char, sub: string): string {
    if s == "" then "" else (if s[0] == c then sub else [s[0]]) + Replace(s[1..], c, sub)
  }

  /** `_escape_config_string`: two passes, backslashes first. */
  function Escape(value: string): string {
    Replace(Replace(value, '\\', "\\\\"), '"', "\\\"")
  }

  /** One pass, character by character. */
  function EscapeMap(value: string): string {
    if value == "" then ""
    else (if value[0] == '\\' || value[0] == '"' then ['\\', value[0]] else [value[0]]) + EscapeMap(value[1..])
  }

  lemma {:induction false} ReplaceConcat(a: string, b: string, c: char, sub: string)
    ensures Replace(a + b, c, sub) == Replace(a, c, sub) + Replace(b, c, sub)
  {
    if a == "" {
      assert a + b == b;
    } else {
      assert (a + b)[1..] == a[1..] + b;
      ReplaceConcat(a[1..], b, c, sub);
    }
  }

  /** The second pass does not disturb the first: together they escape character by character. */
  lemma {:induction false} EscapeIsMap(value: string)
    ensures Escape(value) == EscapeMap(value)
  {
    if value != "" {
      var head := if value[0] == '\\' then "\\\\" else [value[0]];
      EscapeIsMap(value[1..]);
      ReplaceConcat(head, Replace(value[1..], '\\', "\\\\"), '"', "\\\"");
      if value[0] == '\\' {
        ReplaceConcat("\\", "\\", '"', "\\\"");
        assert "\\" + "\\" == "\\\\";
      }
      assert Replace(value, '\\', "\\\\") == head + Replace(value[1..], '\\', "\\\\");
      assert Replace(head, '"', "\\\"")
          == if value[0] == '\\' || value[0] == '"' then ['\\', value[0]] else [value[0]];
    }
  }

  // ------------------------------------------------------------------ clients.conf

  function ClientBlock(index: nat, cidr: string, secret: string): string {
    Unlines(ClientLines(index, cidr, secret))
  }

  function ShortName(index: nat): string {
    "ap-" + Natural(index)
  }

  function Setting(key: string, value: string): string {
    "    " + key + " = " + value
  }

  function ClientLines(index: nat, cidr: string, secret: string): seq<string> {
    ["client " + ShortName(index) + " {",
     Setting("ipaddr", cidr),
     Setting("secret", secret),
     Setting("proto", "udp"),
     Setting("require_message_authenticator", "yes"),
     Setting("shortname", ShortName(index)),
     "}"]
  }

  /** The secret would break out of its line, or there is none. */
  predicate BadSecretText(secret: string) {
    secret == "" || Has(secret, '\n') || Has(secret, '\r')
  }

  /** `"\n".join(blocks)` */
  function JoinBlocks(blocks: seq<string>): string {
    if blocks == [] then ""
    else if |blocks| == 1 then blocks[0]
    else JoinBlocks(blocks[..|blocks| - 1]) + "\n" + blocks[|blocks| - 1]
  }

  function ClientBlocks(cidrs: seq<string>, secret: string): seq<string> {
    if cidrs == [] then []
    else
      var n := |cidrs| - 1;
      ClientBlocks(cidrs[..n], secret) + [ClientBlock(n + 1, cidrs[n], secret)]
  }

  function ClientsConf(cidrs: seq<string>, secret: string): Try<string> {
    if BadSecretText(secret) then Raised(BadSecret)
    else Ok(Unlines(ClientsHeader) + "\n" + JoinBlocks(ClientBlocks(cidrs, secret)))
  }

  method RenderClientsConf(inst: Instance, secret: string) returns (r: Try<string>)
    ensures r == ClientsConf(inst.clientSubnets, secret)
  {
    if secret == "" || Has(secret, '\n') || Has(secret, '\r') {
      return Raised(BadSecret);
    }
    var blocks := [];
    var cidrs := inst.clientSubnets;
    for i := 0 to |cidrs|
      invariant blocks == ClientBlocks(cidrs[..i], secret)
    {
      assert cidrs[..i + 1][..i] == cidrs[..i];
      blocks := blocks + [ClientBlock(i + 1, cidrs[i], secret)];
    }
    assert cidrs[..|cidrs|] == cidrs;
    r := Ok(Unlines(ClientsHeader) + "\n" + JoinBlocks(blocks));
  }

  // ------------------------------------------------------------------ ssid-policy

  const Pad := "    "

  function Conditional(keyword: string, attribute: string, value: string): string {
    keyword + " (&" + attribute + " == \"" + Escape(value) + "\") {"
  }

  function OuterLine(first: bool, name: string): string {
    Conditional(if first then "if" else "elsif", "Called-Station-SSID", name)
  }

  function GateLine(group: string): string {
    Pad + Conditional("if", "LDAP-Group", group)
  }

  function Assignment(attribute: string, value: string): string {
    Pad + Pad + Pad + "&" + attribute + " := " + value
  }

  function InnerLines(vlan: Option<int>): seq<string> {
    match vlan
    case Some(v) =>
      [Pad + Pad + "update reply {",
       Assignment("Tunnel-Type", "VLAN"),
       Assignment("Tunnel-Medium-Type", "IEEE-802"),
       Assignment("Tunnel-Private-Group-Id", "\"" + Decimal(v) + "\""),
       Pad + Pad + "}"]
    case None => [Pad + Pad + "noop"]
  }

  const GateEnd := [Pad + "}", Pad + "else {", Pad + Pad + "reject", Pad + "}", "}"]

  const PolicyEnd := ["else {", Pad + "reject", "}"]

  function SsidLines(first: bool, ssid: Ssid): seq<string> {
    [OuterLine(first, ssid.name), GateLine(ssid.allowedGroup)] + InnerLines(ssid.vlan) + GateEnd
  }

  /** The branches of the list; only the very first one opens the chain. */
  function Branches(ssids: seq<Ssid>): seq<string> {
    if ssids == [] then []
    else
      var n := |ssids| - 1;
      Branches(ssids[..n]) + SsidLines(n == 0, ssids[n])
  }

  function PolicyLines(ssids: seq<Ssid>): seq<string> {
    Branches(ssids) + PolicyEnd
  }

  function Policy(ssids: seq<Ssid>): string {
    Unlines(PolicyHeader) + Unlines(PolicyLines(ssids))
  }

  /** `"\n".join(lines)` */
  function JoinLines(lines: seq<string>): string {
    if lines == [] then "" else if |lines| == 1 then lines[0] else lines[0] + "\n" + JoinLines(lines[1..])
  }

  lemma {:induction false} JoinIsUnlines(lines: seq<string>)
    requires lines != []
    ensures JoinLines(lines) + "\n" == Unlines(lines)
  {
    if |lines| == 1 {
      assert Unlines(lines[1..]) == "";
    } else {
      JoinIsUnlines(lines[1..]);
      assert JoinLines(lines) + "\n" == lines[0] + "\n" + (JoinLines(lines[1..]) + "\n");
    }
  }

  lemma Associate<T>(a: seq<T>, b: seq<T>, c: seq<T>, d: seq<T>)
    ensures a + b + c + d == a + (b + c + d)
  {
  }

  method RenderSsidPolicy(inst: Instance) returns (text: string)
    ensures text == Policy(inst.ssids)
  {
    var lines: seq<string> := [];
    var ssids := inst.ssids;
    for i := 0 to |ssids|
      invariant lines == Branches(ssids[..i])
    {
      assert ssids[..i + 1][..i] == ssids[..i];
      var ssid := ssids[i];
      var head := [OuterLine(i == 0, ssid.name), GateLine(ssid.allowedGroup)];
      Associate(lines, head, InnerLines(ssid.vlan), GateEnd);
      lines := lines + head;
      lines := lines + InnerLines(ssid.vlan);
      lines := lines + GateEnd;
    }
    assert ssids[..|ssids|] == ssids;
    lines := lines + PolicyEnd;
    JoinIsUnlines(lines);
    text := Unlines(PolicyHeader) + (JoinLines(lines) + "\n");
  }
}
