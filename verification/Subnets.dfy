/** `controlplane/lmnradius/models.py`, `_v_client_subnets`: no client of an instance is on loopback,
    seen in the address ranges that the rendered `clients.conf` declares. */
module Subnets {
  import opened Text
  import opened Decimals
  import opened Records
  import opened Render

  // ------------------------------------------------------------------ address blocks

  datatype Version = V4 | V6

  function Pow2(n: nat): (p: nat)
    ensures p > 0
  {
    if n == 0 then 1 else 2 * Pow2(n - 1)
  }

  function Width(v: Version): nat {
    if v == V4 then 32 else 128
  }

  /** An address and a prefix length, host bits allowed (`strict=False`). */
  datatype Block = Block(version: Version, address: nat, prefix: nat)

  predicate InRange(c: Block) {
    c.prefix <= Width(c.version) && c.address < Pow2(Width(c.version))
  }

  type Cidr = c: Block | InRange(c) witness Block(V4, 0, 0)

  function Size(c: Cidr): (n: nat)
    ensures n > 0
  {
    Pow2(Width(c.version) - c.prefix)
  }

  /** `network_address` and `broadcast_address`. */
  function First(c: Cidr): nat {
    c.address / Size(c) * Size(c)
  }

  function Last(c: Cidr): nat {
    First(c) + Size(c) - 1
  }

  /** `address in network`, false across versions. */
  predicate Covers(c: Cidr, v: Version, x: nat) {
    v == c.version && First(c) <= x <= Last(c)
  }

  /** `a.overlaps(b)`: one end of one lies in the other. */
  predicate Overlaps(a: Cidr, b: Cidr) {
    || Covers(a, b.version, First(b))
    || Covers(a, b.version, Last(b))
    || Covers(b, a.version, First(a))
    || Covers(b, a.version, Last(a))
  }

  predicate Within(a: Cidr, b: Cidr) {
    a.version == b.version && First(b) <= First(a) && Last(a) <= Last(b)
  }

  lemma PowSum(m: nat, n: nat)
    ensures Pow2(m + n) == Pow2(m) * Pow2(n)
  {
    if m > 0 {
      PowSum(m - 1, n);
      assert m + n - 1 == m - 1 + n;
      TwiceProduct(Pow2(m - 1), Pow2(n));
    }
  }

  lemma TwiceProduct(a: nat, b: nat)
    ensures 2 * (a * b) == (2 * a) * b
  {
  }

  lemma TimesMonotone(i: nat, j: nat, n: nat)
    ensures i <= j ==> i * n <= j * n
    ensures (i + 1) * n == i * n + n
  {
    if i <= j {
      assert j * n == i * n + (j - i) * n;
    }
  }

  /** A block of size `small` that meets an aligned block of `times` that size lies in it. */
  lemma AlignedMeets(q: nat, small: nat, p: nat, times: nat, x: nat)
    requires q * small <= x < q * small + small
    requires p * (times * small) <= x < p * (times * small) + times * small
    ensures p * (times * small) <= q * small && q * small + small <= p * (times * small) + times * small
  {
    var low, high := p * times, p * times + times;
    assert p * (times * small) == low * small;
    assert low * small + times * small == high * small;
    TimesMonotone(q + 1, low, small);
    TimesMonotone(high, q, small);
    TimesMonotone(q, q, small);
    TimesMonotone(low, q, small);
    TimesMonotone(q + 1, high, small);
  }

  lemma SizeTimes(a: Cidr, b: Cidr)
    requires a.version == b.version && a.prefix >= b.prefix
    ensures Size(b) == Pow2(a.prefix - b.prefix) * Size(a)
  {
    PowSum(a.prefix - b.prefix, Width(a.version) - a.prefix);
  }

  lemma FloorOf(x: nat, n: nat) returns (q: nat)
    requires n > 0
    ensures x / n * n == q * n
  {
    q := x / n;
  }

  /** A block starts at a multiple of its size. */
  lemma FirstIsMultiple(c: Cidr) returns (q: nat)
    ensures First(c) == q * Size(c)
  {
    q := FloorOf(c.address, Size(c));
  }

  lemma MeetNested(a: Cidr, b: Cidr, x: nat)
    requires Covers(a, b.version, x) && Covers(b, b.version, x) && a.prefix >= b.prefix
    ensures Within(a, b)
  {
    var q := FirstIsMultiple(a);
    var p := FirstIsMultiple(b);
    var times := Pow2(a.prefix - b.prefix);
    SizeTimes(a, b);
    MultiplesMeet(First(a), q, Size(a), First(b), p, Size(b), times, x);
  }

  lemma MultiplesMeet(first: nat, q: nat, small: nat, first': nat, p: nat, large: nat, times: nat, x: nat)
    requires first == q * small && first' == p * large && large == times * small
    requires first <= x < first + small && first' <= x < first' + large
    ensures first' <= first && first + small <= first' + large
  {
    AlignedMeets(q, small, p, times, x);
  }

  /** Two blocks overlap exactly if they share an address. */
  lemma OverlapsIffShare(a: Cidr, b: Cidr)
    ensures Overlaps(a, b) <==> exists x: nat :: Covers(a, b.version, x) && Covers(b, b.version, x)
  {
    assert Covers(a, a.version, First(a)) && Covers(a, a.version, Last(a));
    assert Covers(b, b.version, First(b)) && Covers(b, b.version, Last(b));
  }

  /** Two blocks overlap exactly if one contains the other's network address, and then it contains
      the other whole. */
  lemma OverlapsIffNested(a: Cidr, b: Cidr)
    ensures Overlaps(a, b) <==> Covers(a, b.version, First(b)) || Covers(b, a.version, First(a))
    ensures Overlaps(a, b) <==> Within(a, b) || Within(b, a)
  {
    OverlapsIffShare(a, b);
    assert Covers(a, a.version, First(a)) && Covers(b, b.version, First(b));
    if Overlaps(a, b) {
      var x: nat :| Covers(a, b.version, x) && Covers(b, b.version, x);
      if a.prefix >= b.prefix {
        MeetNested(a, b, x);
      } else {
        MeetNested(b, a, x);
      }
    }
  }

  // ------------------------------------------------------------------ loopback

  /** `127.0.0.0/8` and `::1/128`. */
  function Loopback(v: Version): Cidr {
    PowLiterals();
    if v == V4 then Block(V4, 0x7F00_0000, 8) else Block(V6, 1, 128)
  }

  lemma PowLiterals()
    ensures Pow2(24) == 0x100_0000 && Pow2(32) == 0x1_0000_0000 && Pow2(128) > 1 && Pow2(0) == 1
  {
    PowSum(8, 8);
    PowSum(16, 8);
    PowSum(16, 16);
    assert Pow2(8) == 256;
  }

  predicate IsLoopback(v: Version, x: nat) {
    if v == V4 then 0x7F00_0000 <= x <= 0x7FFF_FFFF else x == 1
  }

  ghost predicate AvoidsLoopback(c: Cidr) {
    forall v, x: nat | Covers(c, v, x) :: !IsLoopback(v, x)
  }

  lemma LoopbackCovers(v: Version, x: nat)
    ensures Covers(Loopback(v), v, x) <==> IsLoopback(v, x)
  {
    PowLiterals();
    if v == V4 {
      LoopbackEnds(Loopback(V4), 0x100_0000);
    } else {
      LoopbackEnds(Loopback(V6), 1);
    }
  }

  lemma LoopbackEnds(c: Cidr, size: nat)
    requires Size(c) == size > 0 && c.address % size == 0
    ensures First(c) == c.address && Last(c) == c.address + size - 1
  {
  }

  /** The test of the validator decides whether a block holds any loopback address. */
  lemma LoopbackTest(c: Cidr)
    ensures Overlaps(c, Loopback(c.version)) <==> !AvoidsLoopback(c)
  {
    var l := Loopback(c.version);
    OverlapsIffShare(c, l);
    forall x: nat ensures Covers(l, c.version, x) <==> IsLoopback(c.version, x) {
      LoopbackCovers(c.version, x);
    }
  }

  // ------------------------------------------------------------------ the validator

  datatype SubnetFault = NoSubnets | InvalidCidr(index: nat) | OnLoopback(index: nat)

  /** A block that may be a client: it reads as a network without a loopback address. */
  ghost predicate Acceptable(text: string, read: string -> Option<Cidr>) {
    read(text).Some? && AvoidsLoopback(read(text).value)
  }

  /** What the validator asks of an entry. */
  predicate PassesTest(text: string, read: string -> Option<Cidr>) {
    read(text).Some? && !Overlaps(read(text).value, Loopback(read(text).value.version))
  }

  lemma TestDecides(text: string, read: string -> Option<Cidr>)
    ensures PassesTest(text, read) <==> Acceptable(text, read)
  {
    if read(text).Some? {
      LoopbackTest(read(text).value);
    }
  }

  ghost predicate AcceptableUpTo(texts: seq<string>, n: nat, read: string -> Option<Cidr>)
    requires n <= |texts|
  {
    forall i | 0 <= i < n :: Acceptable(texts[i], read)
  }

  /** `_v_client_subnets`; `read` is the `ipaddress` parser. */
  method CheckClientSubnets(texts: seq<string>, read: string -> Option<Cidr>) returns (fault: Option<SubnetFault>)
    ensures fault.None? <==> texts != [] && AcceptableUpTo(texts, |texts|, read)
    ensures fault == Some(NoSubnets) <==> texts == []
    ensures fault.Some? && fault.value.InvalidCidr? ==>
              var i := fault.value.index;
              i < |texts| && AcceptableUpTo(texts, i, read) && read(texts[i]).None?
    ensures fault.Some? && fault.value.OnLoopback? ==>
              var i := fault.value.index;
              && i < |texts| && AcceptableUpTo(texts, i, read)
              && read(texts[i]).Some? && !AvoidsLoopback(read(texts[i]).value)
  {
    if texts == [] {
      return Some(NoSubnets);
    }
    for i := 0 to |texts|
      invariant AcceptableUpTo(texts, i, read)
    {
      var net := read(texts[i]);
      if net.None? {
        return Some(InvalidCidr(i));
      }
      LoopbackTest(net.value);
      if Overlaps(net.value, Loopback(net.value.version)) {
        return Some(OnLoopback(i));
      }
    }
    fault := None;
  }

  // ------------------------------------------------------------------ a reader of clients.conf

  datatype Client = Client(name: string, settings: seq<(string, string)>)

  datatype Reading = Reading(ok: bool, current: Option<Client>, done: seq<Client>)

  const Start := Reading(true, None, [])

  /** `    key = value` */
  function ReadSetting(line: string): Option<(string, string)> {
    if !StartsWith(line, "    ") then None
    else
      var s := line[4..];
      var k := Find(s, ' ');
      if StartsWith(s[k..], " = ") then Some((s[..k], s[k + 3..])) else None
  }

  function Accept(st: Reading, line: string): Reading {
    if !st.ok || line == "" || line[0] == '#' then st
    else match st.current
      case None =>
        if |line| >= 9 && StartsWith(line, "client ") && EndsWith(line, " {")
        then st.(current := Some(Client(line[7..|line| - 2], [])))
        else st.(ok := false)
      case Some(c) =>
        if line == "}" then Reading(true, None, st.done + [c])
        else
          match ReadSetting(line)
          case None => st.(ok := false)
          case Some(kv) => st.(current := Some(Client(c.name, c.settings + [kv])))
  }

  function AcceptAll(st: Reading, lines: seq<string>): Reading
    decreases lines
  {
    if lines == [] then st else AcceptAll(Accept(st, lines[0]), lines[1..])
  }

  /** The clients that a `clients.conf` declares, in order. */
  function ReadClients(text: string): Option<seq<Client>> {
    var st := AcceptAll(Start, Lines(text));
    if st.ok && st.current.None? then Some(st.done) else None
  }

  // ------------------------------------------------------------------ what was rendered is read

  function Settings(name: string, cidr: string, secret: string): seq<(string, string)> {
    [("ipaddr", cidr), ("secret", secret), ("proto", "udp"),
     ("require_message_authenticator", "yes"), ("shortname", name)]
  }

  function Declared(cidrs: seq<string>, secret: string): (clients: seq<Client>)
    ensures |clients| == |cidrs|
    ensures forall i | 0 <= i < |cidrs| ::
              clients[i] == Client(ShortName(i + 1), Settings(ShortName(i + 1), cidrs[i], secret))
  {
    if cidrs == [] then []
    else
      var n := |cidrs| - 1;
      Declared(cidrs[..n], secret) + [Client(ShortName(n + 1), Settings(ShortName(n + 1), cidrs[n], secret))]
  }

  /** The lines of the blocks, an empty line between two of them. */
  function BlockLines(cidrs: seq<string>, secret: string): seq<string> {
    if cidrs == [] then []
    else
      var n := |cidrs| - 1;
      (if n == 0 then [] else BlockLines(cidrs[..n], secret) + [""]) + ClientLines(n + 1, cidrs[n], secret)
  }

  lemma {:induction false} JoinedBlocks(cidrs: seq<string>, secret: string)
    ensures JoinBlocks(ClientBlocks(cidrs, secret)) == Unlines(BlockLines(cidrs, secret))
  {
    if cidrs != [] {
      var n := |cidrs| - 1;
      var blocks := ClientBlocks(cidrs, secret);
      BlockCount(cidrs[..n], secret);
      assert blocks[..n] == ClientBlocks(cidrs[..n], secret);
      if n == 0 {
        assert [] + ClientLines(1, cidrs[0], secret) == ClientLines(1, cidrs[0], secret);
      } else {
        JoinedBlocks(cidrs[..n], secret);
        UnlinesSnoc(BlockLines(cidrs[..n], secret), ClientLines(n + 1, cidrs[n], secret));
      }
    }
  }

  lemma BlockCount(cidrs: seq<string>, secret: string)
    ensures |ClientBlocks(cidrs, secret)| == |cidrs|
  {
  }

  lemma UnlinesSnoc(a: seq<string>, b: seq<string>)
    ensures Unlines(a + [""] + b) == Unlines(a) + "\n" + Unlines(b)
  {
    UnlinesConcat(a + [""], b);
    UnlinesConcat(a, [""]);
    assert Unlines([""]) == "\n";
  }

  lemma ConfText(cidrs: seq<string>, secret: string)
    requires !BadSecretText(secret)
    ensures ClientsConf(cidrs, secret) == Ok(Unlines(ClientsHeader + [""] + BlockLines(cidrs, secret)))
  {
    JoinedBlocks(cidrs, secret);
    UnlinesSnoc(ClientsHeader, BlockLines(cidrs, secret));
  }

  lemma {:induction false} AcceptConcat(st: Reading, a: seq<string>, b: seq<string>)
    ensures AcceptAll(st, a + b) == AcceptAll(AcceptAll(st, a), b)
    decreases a
  {
    if a == [] {
      assert a + b == b;
    } else {
      assert (a + b)[1..] == a[1..] + b;
      AcceptConcat(Accept(st, a[0]), a[1..], b);
    }
  }

  lemma SettingRead(key: string, value: string)
    requires key != "" && ' ' !in key
    ensures ReadSetting(Setting(key, value)) == Some((key, value))
    ensures Setting(key, value) != "" && Setting(key, value)[0] == ' ' && Setting(key, value) != "}"
  {
    var pad, eq := "    ", " = ";
    SettingParts(pad, key, eq, value);
    var s := key + eq + value;
    FindIs(s, ' ', |key|);
  }

  lemma SettingParts(pad: string, key: string, eq: string, value: string)
    requires key != ""
    ensures StartsWith(pad + key + eq + value, pad) && (pad + key + eq + value)[|pad|..] == key + eq + value
    ensures var s := key + eq + value;
            && (forall k | 0 <= k < |key| :: s[k] == key[k]) && s[..|key|] == key
            && StartsWith(s[|key|..], eq) && s[|key| + |eq|..] == value
            && (eq != "" ==> s[|key|] == eq[0])
  {
    var s := key + eq + value;
    assert pad + key + eq + value == pad + s;
    assert s[|key|..] == eq + value;
  }

  lemma HeadRead(name: string, start: string, end: string)
    ensures var line := start + name + end;
            && StartsWith(line, start) && EndsWith(line, end) && |line| == |start| + |name| + |end|
            && line[|start|..|line| - |end|] == name
  {
  }

  lemma ClientRead(st: Reading, index: nat, cidr: string, secret: string)
    requires st.ok && st.current.None?
    ensures AcceptAll(st, ClientLines(index, cidr, secret))
            == st.(done := st.done + [Client(ShortName(index), Settings(ShortName(index), cidr, secret))])
  {
    var name, lines := ShortName(index), ClientLines(index, cidr, secret);
    HeadRead(name, "client ", " {");
    var s1 := Accept(st, lines[0]);
    assert s1 == Reading(true, Some(Client(name, [])), st.done);
    BodyRead(st.done, name, cidr, secret);
    assert lines[1..] == Body(name, cidr, secret);
  }

  function Body(name: string, cidr: string, secret: string): seq<string> {
    [Setting("ipaddr", cidr), Setting("secret", secret), Setting("proto", "udp"),
     Setting("require_message_authenticator", "yes"), Setting("shortname", name), "}"]
  }

  lemma BodyRead(done: seq<Client>, name: string, cidr: string, secret: string)
    ensures AcceptAll(Reading(true, Some(Client(name, [])), done), Body(name, cidr, secret))
            == Reading(true, None, done + [Client(name, Settings(name, cidr, secret))])
  {
    var kv := Settings(name, cidr, secret);
    var lines := SettingLines(kv);
    FiveLines(kv[0], kv[1], kv[2], kv[3], kv[4]);
    assert Body(name, cidr, secret) == lines + ["}"];
    SettingsRead(Client(name, []), done, kv);
    AcceptConcat(Reading(true, Some(Client(name, [])), done), lines, ["}"]);
    assert [] + kv == kv;
    EndRead(Client(name, kv), done);
  }

  lemma EndRead(c: Client, done: seq<Client>)
    ensures AcceptAll(Reading(true, Some(c), done), ["}"]) == Reading(true, None, done + [c])
  {
  }

  lemma FiveLines(a: (string, string), b: (string, string), c: (string, string), d: (string, string),
                  e: (string, string))
    ensures SettingLines([a, b, c, d, e])
            == [Setting(a.0, a.1), Setting(b.0, b.1), Setting(c.0, c.1), Setting(d.0, d.1), Setting(e.0, e.1)]
  {
    SettingCons(e, []);
    SettingCons(d, [e]);
    SettingCons(c, [d, e]);
    SettingCons(b, [c, d, e]);
    SettingCons(a, [b, c, d, e]);
    assert [e] + [] == [e] && [d] + [e] == [d, e] && [c] + [d, e] == [c, d, e];
    assert [b] + [c, d, e] == [b, c, d, e] && [a] + [b, c, d, e] == [a, b, c, d, e];
  }

  lemma SettingCons(a: (string, string), rest: seq<(string, string)>)
    ensures SettingLines([a] + rest) == [Setting(a.0, a.1)] + SettingLines(rest)
  {
    assert ([a] + rest)[1..] == rest;
  }

  function SettingLines(kv: seq<(string, string)>): seq<string> {
    if kv == [] then [] else [Setting(kv[0].0, kv[0].1)] + SettingLines(kv[1..])
  }

  lemma {:induction false} SettingsRead(c: Client, done: seq<Client>, kv: seq<(string, string)>)
    requires forall i | 0 <= i < |kv| :: kv[i].0 != "" && ' ' !in kv[i].0
    ensures AcceptAll(Reading(true, Some(c), done), SettingLines(kv))
            == Reading(true, Some(Client(c.name, c.settings + kv)), done)
    decreases kv
  {
    if kv == [] {
      assert c.settings + kv == c.settings;
    } else {
      var line := Setting(kv[0].0, kv[0].1);
      SettingRead(kv[0].0, kv[0].1);
      SettingsRead(Client(c.name, c.settings + [kv[0]]), done, kv[1..]);
      assert c.settings + [kv[0]] + kv[1..] == c.settings + kv;
      assert SettingLines(kv)[1..] == SettingLines(kv[1..]);
    }
  }

  lemma {:induction false} BlocksRead(cidrs: seq<string>, secret: string)
    ensures AcceptAll(Start, BlockLines(cidrs, secret)) == Reading(true, None, Declared(cidrs, secret))
  {
    if cidrs != [] {
      var n := |cidrs| - 1;
      var before, last := BlockLines(cidrs[..n], secret), ClientLines(n + 1, cidrs[n], secret);
      BlocksRead(cidrs[..n], secret);
      ClientRead(Reading(true, None, Declared(cidrs[..n], secret)), n + 1, cidrs[n], secret);
      if n == 0 {
        assert [] + last == last;
      } else {
        AcceptConcat(Start, before, [""]);
        AcceptConcat(Start, before + [""], last);
      }
    }
  }

  lemma HeaderRead(lines: seq<string>)
    ensures AcceptAll(Start, ClientsHeader + [""] + lines) == AcceptAll(Start, lines)
  {
    var h := ClientsHeader;
    assert h[0][0] == '#' && h[1][0] == '#' && h[2][0] == '#';
    Skipped(Start, ClientsHeader + [""]);
    AcceptConcat(Start, ClientsHeader + [""], lines);
  }

  lemma {:induction false} Skipped(st: Reading, lines: seq<string>)
    requires forall i | 0 <= i < |lines| :: lines[i] == "" || lines[i][0] == '#'
    ensures AcceptAll(st, lines) == st
    decreases lines
  {
    if lines != [] {
      Skipped(st, lines[1..]);
    }
  }

  // ------------------------------------------------------------------ one line each

  lemma SettingOneLine(key: string, value: string)
    requires OneLine(key) && OneLine(value)
    ensures OneLine(Setting(key, value))
  {
    JoinOneLine("    ", key);
    JoinOneLine("    " + key, " = ");
    JoinOneLine("    " + key + " = ", value);
  }

  lemma NameOneLine(index: nat)
    ensures OneLine(ShortName(index)) && OneLine("client " + ShortName(index) + " {")
  {
    JoinOneLine("ap-", Natural(index));
    JoinOneLine("client ", ShortName(index));
    JoinOneLine("client " + ShortName(index), " {");
  }

  lemma ClientOneLine(index: nat, cidr: string, secret: string)
    requires OneLine(cidr) && OneLine(secret)
    ensures forall l | l in ClientLines(index, cidr, secret) :: OneLine(l)
  {
    NameOneLine(index);
    SettingOneLine("ipaddr", cidr);
    SettingOneLine("secret", secret);
    SettingOneLine("proto", "udp");
    SettingOneLine("require_message_authenticator", "yes");
    SettingOneLine("shortname", ShortName(index));
  }

  lemma {:induction false} BlocksOneLine(cidrs: seq<string>, secret: string)
    requires OneLine(secret) && forall i | 0 <= i < |cidrs| :: OneLine(cidrs[i])
    ensures forall l | l in BlockLines(cidrs, secret) :: OneLine(l)
  {
    if cidrs != [] {
      var n := |cidrs| - 1;
      BlocksOneLine(cidrs[..n], secret);
      ClientOneLine(n + 1, cidrs[n], secret);
    }
  }

  lemma HeaderOneLine()
    ensures forall l | l in ClientsHeader :: OneLine(l)
  {
    JoinOneLine("# Generated by lmnradius \U{2014} ", "one client{} per AP-management subnet.");
    JoinOneLine("# The container entrypoint appends ", "the loopback healthcheck client itself.");
    JoinOneLine("# Do not edit by hand; ", "it is overwritten on every reconcile.");
  }

  // ------------------------------------------------------------------ the result

  /** Subnets of one line each are read back, one client each, in order, all with that secret. */
  lemma OneLineReadBack(cidrs: seq<string>, secret: string)
    requires !BadSecretText(secret) && AllOneLine(cidrs)
    ensures ReadClients(ClientsConf(cidrs, secret).value) == Some(Declared(cidrs, secret))
  {
    var lines := ClientsHeader + [""] + BlockLines(cidrs, secret);
    ConfText(cidrs, secret);
    BlocksOneLine(cidrs, secret);
    HeaderOneLine();
    LinesUnlines(lines);
    HeaderRead(BlockLines(cidrs, secret));
    BlocksRead(cidrs, secret);
  }

  predicate AllOneLine(cidrs: seq<string>) {
    forall i | 0 <= i < |cidrs| :: OneLine(cidrs[i])
  }

  // ------------------------------------------------------------------ what can be read at all

  /** Every value that was read is one line. */
  predicate LineValues(c: Client) {
    forall i | 0 <= i < |c.settings| :: OneLine(c.settings[i].1)
  }

  predicate AllLineValues(st: Reading) {
    && (forall i | 0 <= i < |st.done| :: LineValues(st.done[i]))
    && (st.current.Some? ==> LineValues(st.current.value))
  }

  lemma SuffixOneLine(s: string, k: nat)
    requires OneLine(s) && k <= |s|
    ensures OneLine(s[k..])
  {
    assert forall i | 0 <= i < |s[k..]| :: s[k..][i] == s[k + i];
  }

  lemma ValueOneLine(line: string)
    requires OneLine(line) && ReadSetting(line).Some?
    ensures OneLine(ReadSetting(line).value.1)
  {
    var s := line[4..];
    SuffixOneLine(line, 4);
    SuffixOneLine(s, Find(s, ' ') + 3);
  }

  lemma AcceptLineValues(st: Reading, line: string)
    requires AllLineValues(st) && OneLine(line)
    ensures AllLineValues(Accept(st, line))
  {
    if ReadSetting(line).Some? {
      ValueOneLine(line);
    }
  }

  lemma {:induction false} AcceptAllLineValues(st: Reading, lines: seq<string>)
    requires AllLineValues(st) && forall i | 0 <= i < |lines| :: OneLine(lines[i])
    ensures AllLineValues(AcceptAll(st, lines))
    decreases lines
  {
    if lines != [] {
      AcceptLineValues(st, lines[0]);
      AcceptAllLineValues(Accept(st, lines[0]), lines[1..]);
    }
  }

  lemma ReadLineValues(text: string)
    requires ReadClients(text).Some?
    ensures forall i | 0 <= i < |ReadClients(text).value| :: LineValues(ReadClients(text).value[i])
  {
    LineChars(text);
    AcceptAllLineValues(Start, Lines(text));
  }

  lemma DeclaredOneLine(cidrs: seq<string>, secret: string)
    requires forall i | 0 <= i < |cidrs| :: LineValues(Declared(cidrs, secret)[i])
    ensures AllOneLine(cidrs)
  {
    forall i | 0 <= i < |cidrs| ensures OneLine(cidrs[i]) {
      var c := Declared(cidrs, secret)[i];
      assert c.settings[0].1 == cidrs[i];
    }
  }

  /** A secret that is refused is never written. With any other, the file is read back as one client
      per subnet, in order, with that secret, if and only if no subnet holds a line feed. */
  lemma ClientsReadBack(cidrs: seq<string>, secret: string)
    ensures ClientsConf(cidrs, secret).Ok? <==> secret != "" && OneLine(secret) && !Has(secret, '\r')
    ensures ClientsConf(cidrs, secret).Ok? ==>
              (ReadClients(ClientsConf(cidrs, secret).value) == Some(Declared(cidrs, secret)) <==> AllOneLine(cidrs))
  {
    if ClientsConf(cidrs, secret).Ok? {
      var text := ClientsConf(cidrs, secret).value;
      if AllOneLine(cidrs) {
        OneLineReadBack(cidrs, secret);
      }
      if ReadClients(text) == Some(Declared(cidrs, secret)) {
        ReadLineValues(text);
        DeclaredOneLine(cidrs, secret);
      }
    }
  }

  /** A line that is no comment, no end of a block and no setting. */
  predicate Stray(line: string) {
    line != "" && line[0] != '#' && line != "}" && ReadSetting(line).None?
  }

  lemma {:induction false} StaysUnread(st: Reading, lines: seq<string>)
    requires !st.ok
    ensures !AcceptAll(st, lines).ok
    decreases lines
  {
    if lines != [] {
      StaysUnread(st, lines[1..]);
    }
  }

  /** The block of a subnet with a line feed, by its lines. */
  lemma BrokenBlock(a: string, b: string, secret: string)
    ensures Unlines(BlockLines([a + "\n" + b], secret))
            == Unlines(["client " + ShortName(1) + " {", Setting("ipaddr", a), b]
                       + ClientLines(1, a, secret)[2..])
  {
    var head, rest := "client " + ShortName(1) + " {", ClientLines(1, a, secret)[2..];
    var cidr := a + "\n" + b;
    assert BlockLines([cidr], secret) == ClientLines(1, cidr, secret) == [head, Setting("ipaddr", cidr)] + rest;
    BrokenLine("    ", "ipaddr", " = ", a, b);
    UnlinesTwo(head, Setting("ipaddr", cidr), rest);
    UnlinesTwo(head, Setting("ipaddr", a), [b] + rest);
    UnlinesOne(b, rest);
    assert [head, Setting("ipaddr", a)] + ([b] + rest) == [head, Setting("ipaddr", a), b] + rest;
    SplitLine(head + "\n", Setting("ipaddr", a), b, Unlines(rest));
  }

  lemma BrokenLine(pad: string, key: string, eq: string, a: string, b: string)
    ensures pad + key + eq + (a + "\n" + b) == pad + key + eq + a + "\n" + b
  {
  }

  lemma SplitLine(head: string, a: string, b: string, rest: string)
    ensures head + ((a + "\n" + b) + "\n" + rest) == head + (a + "\n" + (b + "\n" + rest))
  {
  }

  lemma UnlinesOne(line: string, rest: seq<string>)
    ensures Unlines([line] + rest) == line + "\n" + Unlines(rest)
  {
    assert ([line] + rest)[1..] == rest;
  }

  lemma UnlinesTwo(head: string, line: string, rest: seq<string>)
    ensures Unlines([head, line] + rest) == head + "\n" + (line + "\n" + Unlines(rest))
  {
    UnlinesOne(line, rest);
    UnlinesOne(head, [line] + rest);
    assert [head] + ([line] + rest) == [head, line] + rest;
  }

  lemma BrokenBlockUnread(a: string, b: string, secret: string)
    requires Stray(b)
    ensures !AcceptAll(Start, ["client " + ShortName(1) + " {", Setting("ipaddr", a), b]
                              + ClientLines(1, a, secret)[2..]).ok
  {
    var head, rest := "client " + ShortName(1) + " {", ClientLines(1, a, secret)[2..];
    HeadRead(ShortName(1), "client ", " {");
    SettingRead("ipaddr", a);
    ThreeLines(head, Setting("ipaddr", a), b, rest);
    StaysUnread(Accept(Accept(Accept(Start, head), Setting("ipaddr", a)), b), rest);
  }

  lemma AcceptCons(st: Reading, line: string, rest: seq<string>)
    ensures AcceptAll(st, [line] + rest) == AcceptAll(Accept(st, line), rest)
  {
    assert ([line] + rest)[1..] == rest;
  }

  lemma ThreeLines(a: string, b: string, c: string, rest: seq<string>)
    ensures AcceptAll(Start, [a, b, c] + rest) == AcceptAll(Accept(Accept(Accept(Start, a), b), c), rest)
  {
    AcceptCons(Start, a, [b, c] + rest);
    AcceptCons(Accept(Start, a), b, [c] + rest);
    AcceptCons(Accept(Accept(Start, a), b), c, rest);
    assert [a] + ([b, c] + rest) == [a, b, c] + rest && [b] + ([c] + rest) == [b, c] + rest;
  }

  lemma BrokenBlockLines(a: string, b: string, secret: string)
    requires OneLine(a) && OneLine(b) && OneLine(secret)
    ensures forall l | l in ["client " + ShortName(1) + " {", Setting("ipaddr", a), b]
                            + ClientLines(1, a, secret)[2..] :: OneLine(l)
  {
    var lines := ClientLines(1, a, secret);
    ClientOneLine(1, a, secret);
    assert lines[0] in lines && lines[1] in lines && forall l | l in lines[2..] :: l in lines;
  }

  /** The file of a subnet whose second line is no setting cannot be read. */
  lemma FeedUnread(a: string, b: string, secret: string)
    requires OneLine(a) && OneLine(b) && Stray(b) && !BadSecretText(secret)
    ensures ReadClients(ClientsConf([a + "\n" + b], secret).value).None?
  {
    var block := ["client " + ShortName(1) + " {", Setting("ipaddr", a), b] + ClientLines(1, a, secret)[2..];
    ConfText([a + "\n" + b], secret);
    BrokenBlock(a, b, secret);
    UnlinesSnoc(ClientsHeader, BlockLines([a + "\n" + b], secret));
    UnlinesSnoc(ClientsHeader, block);
    HeaderOneLine();
    BrokenBlockLines(a, b, secret);
    LinesUnlines(ClientsHeader + [""] + block);
    HeaderRead(block);
    BrokenBlockUnread(a, b, secret);
  }

  /** Whatever passes it as a network off loopback, a subnet with a line feed in its zone. */
  lemma AcceptedButNotReadBack(secret: string, read: string -> Option<Cidr>)
    requires PassesTest("fe80::%a\nb/64", read) && !BadSecretText(secret)
    ensures AcceptableUpTo(["fe80::%a\nb/64"], 1, read)
    ensures ReadClients(ClientsConf(["fe80::%a\nb/64"], secret).value).None?
  {
    var a, b := "fe80::%a", "b/64";
    assert a + "\n" + b == "fe80::%a\nb/64";
    TestDecides("fe80::%a\nb/64", read);
    FeedUnread(a, b, secret);
  }

  // ------------------------------------------------------------------ the ranges

  lemma ShortNamesDistinct(m: nat, n: nat)
    requires ShortName(m) == ShortName(n)
    ensures m == n
  {
    assert ShortName(m)[3..] == Natural(m) && ShortName(n)[3..] == Natural(n);
    NaturalValue(m);
    NaturalValue(n);
  }

  /** The range that a client serves. */
  function Range(c: Client, read: string -> Option<Cidr>): Option<Cidr> {
    if c.settings != [] && c.settings[0].0 == "ipaddr" then read(c.settings[0].1) else None
  }

  /** `ap-` and the number. */
  ghost predicate IsShortName(name: string, index: nat) {
    StartsWith(name, "ap-") && Numeral(name[3..], index)
  }

  lemma ShortNameIs(index: nat)
    ensures IsShortName(ShortName(index), index)
  {
    DecimalWrites(index);
    assert ShortName(index)[..3] == "ap-" && ShortName(index)[3..] == Decimal(index);
  }

  /** One client per subnet, under pairwise different names, each serving the range of its subnet,
      and no range with a loopback address. */
  ghost predicate ServesOff(clients: seq<Client>, cidrs: seq<string>, read: string -> Option<Cidr>) {
    && |clients| == |cidrs|
    && (forall i | 0 <= i < |cidrs| :: IsShortName(clients[i].name, i + 1))
    && (forall i | 0 <= i < |cidrs| ::
          var range := Range(clients[i], read);
          range.Some? && range == read(cidrs[i]) && AvoidsLoopback(range.value))
    && (forall i, j | 0 <= i < j < |cidrs| :: clients[i].name != clients[j].name)
  }

  /** For every list that passes the validator's tests a file is rendered, and what is to be declared
      in it is one client per subnet, none of them on loopback. The file declares this, as its reader
      sees it, if and only if no subnet holds a line feed. */
  lemma ClientsAvoidLoopback(cidrs: seq<string>, secret: string, read: string -> Option<Cidr>)
    requires cidrs != [] && forall i | 0 <= i < |cidrs| :: PassesTest(cidrs[i], read)
    requires !BadSecretText(secret)
    ensures ClientsConf(cidrs, secret).Ok?
    ensures ServesOff(Declared(cidrs, secret), cidrs, read)
    ensures ReadClients(ClientsConf(cidrs, secret).value) == Some(Declared(cidrs, secret)) <==> AllOneLine(cidrs)
  {
    ClientsReadBack(cidrs, secret);
    DeclaredServes(cidrs, secret, read);
  }

  lemma DeclaredServes(cidrs: seq<string>, secret: string, read: string -> Option<Cidr>)
    requires forall i | 0 <= i < |cidrs| :: PassesTest(cidrs[i], read)
    ensures ServesOff(Declared(cidrs, secret), cidrs, read)
  {
    var clients := Declared(cidrs, secret);
    forall i | 0 <= i < |cidrs| ensures IsShortName(clients[i].name, i + 1) {
      ShortNameIs(i + 1);
    }
    forall i | 0 <= i < |cidrs|
      ensures var range := Range(clients[i], read);
              range.Some? && range == read(cidrs[i]) && AvoidsLoopback(range.value)
    {
      TestDecides(cidrs[i], read);
    }
    NamesDiffer(cidrs, secret);
  }

  lemma NamesDiffer(cidrs: seq<string>, secret: string)
    ensures var clients := Declared(cidrs, secret);
            forall i, j | 0 <= i < j < |cidrs| :: clients[i].name != clients[j].name
  {
    var clients := Declared(cidrs, secret);
    forall i, j | 0 <= i < j < |cidrs| ensures clients[i].name != clients[j].name {
      if clients[i].name == clients[j].name {
        ShortNamesDistinct(i + 1, j + 1);
      }
    }
  }

  /** What a rendered file of accepted subnets is read as. */
  lemma RenderedServes(cidrs: seq<string>, secret: string, text: string, read: string -> Option<Cidr>)
    requires AllOneLine(cidrs) && forall i | 0 <= i < |cidrs| :: PassesTest(cidrs[i], read)
    requires ClientsConf(cidrs, secret) == Ok(text)
    ensures var clients := ReadClients(text);
            && clients.Some? && ServesOff(clients.value, cidrs, read)
            && forall i | 0 <= i < |clients.value| :: HasSecret(clients.value[i], secret)
  {
    ClientsReadBack(cidrs, secret);
    DeclaredServes(cidrs, secret, read);
    DeclaredSecret(cidrs, secret);
  }

  lemma DeclaredSecret(cidrs: seq<string>, secret: string)
    ensures forall i | 0 <= i < |cidrs| :: HasSecret(Declared(cidrs, secret)[i], secret)
  {
    forall i | 0 <= i < |cidrs| ensures HasSecret(Declared(cidrs, secret)[i], secret) {
      assert Settings(ShortName(i + 1), cidrs[i], secret)[1] == ("secret", secret);
    }
  }

  predicate HasSecret(c: Client, secret: string) {
    |c.settings| > 1 && c.settings[1] == ("secret", secret)
  }
}
