/** What a rendered `ssid-policy` means: reading the text back and evaluating it decides every
    request as the list of SSIDs says. */
module SsidPolicy {
  import opened Text
  import opened Decimals
  import opened Records
  import opened Render
  import opened Unlang

  // ------------------------------------------------------------------ specification

  /** The RADIUS attributes of a dynamic VLAN (RFC 3580, section 3.31). */
  function VlanAttributes(vlan: Option<int>): seq<Attribute> {
    match vlan
    case None => []
    case Some(v) =>
      [Attribute("Tunnel-Type", "VLAN"), Attribute("Tunnel-Medium-Type", "IEEE-802"),
       Attribute("Tunnel-Private-Group-Id", Decimal(v))]
  }

  /** The first entry with the requested name accepts, with exactly its VLAN, the members of
      its group; everything else is rejected. */
  function Decide(ssids: seq<Ssid>, req: Request): Verdict {
    if ssids == [] then Reject
    else if ssids[0].name != req.ssid then Decide(ssids[1..], req)
    else if ssids[0].allowedGroup in req.groups then Accept(VlanAttributes(ssids[0].vlan))
    else Reject
  }

  /** No name or group holds a line feed. */
  predicate SingleLine(ssids: seq<Ssid>) {
    forall i | 0 <= i < |ssids| :: OneLine(ssids[i].name) && OneLine(ssids[i].allowedGroup)
  }

  // ------------------------------------------------------------------ quoting

  /** Scanning an escaped string from its opening quote stops exactly at its closing quote and
      gives the string back. */
  lemma ScanEscaped(value: string, rest: string)
    ensures ScanQuoted(Escape(value) + "\"" + rest) == Some(Quoted(value, rest))
  {
    EscapeIsMap(value);
    ScanMapped(value, rest);
  }

  lemma {:induction false} ScanMapped(value: string, rest: string)
    ensures ScanQuoted(EscapeMap(value) + "\"" + rest) == Some(Quoted(value, rest))
  {
    var quote := "\"";
    if value == "" {
      assert EscapeMap(value) + quote + rest == quote + rest;
      assert (quote + rest)[0] == '"' && (quote + rest)[1..] == rest;
    } else {
      var head := if value[0] == '\\' || value[0] == '"' then ['\\', value[0]] else [value[0]];
      var tail := EscapeMap(value[1..]) + quote + rest;
      ScanMapped(value[1..], rest);
      Associate(head, EscapeMap(value[1..]), quote, rest);
      ScanStep(value[0], tail, value[1..], rest);
      assert [value[0]] + value[1..] == value;
    }
  }

  lemma ScanStep(c: char, tail: string, value: string, rest: string)
    requires ScanQuoted(tail) == Some(Quoted(value, rest))
    ensures var head := if c == '\\' || c == '"' then ['\\', c] else [c];
            ScanQuoted(head + tail) == Some(Quoted([c] + value, rest))
  {
    if c == '\\' || c == '"' {
      assert (['\\', c] + tail)[2..] == tail;
    } else {
      assert ([c] + tail)[1..] == tail;
    }
  }

  /** Without a closing quote the scan finds none. */
  lemma {:induction false} ScanUnclosed(value: string)
    ensures ScanQuoted(EscapeMap(value)) == None
  {
    if value != "" {
      ScanUnclosed(value[1..]);
      var tail := EscapeMap(value[1..]);
      if value[0] == '\\' || value[0] == '"' {
        assert EscapeMap(value) == ['\\', value[0]] + tail && EscapeMap(value)[2..] == tail;
      } else {
        assert EscapeMap(value)[1..] == tail;
      }
    }
  }

  /** Different strings are escaped differently. */
  lemma EscapeInjective(a: string, b: string)
    requires Escape(a) == Escape(b)
    ensures a == b
  {
    ScanEscaped(a, "");
    ScanEscaped(b, "");
  }

  lemma {:induction false} ScanPlain(value: string, rest: string)
    requires !Has(value, '"') && !Has(value, '\\')
    ensures ScanQuoted(value + "\"" + rest) == Some(Quoted(value, rest))
  {
    var s := value + "\"" + rest;
    if value == "" {
      assert s[0] == '"' && s[1..] == rest;
    } else {
      assert value[0] != '"' && value[0] != '\\';
      assert forall i | 0 <= i < |value[1..]| :: value[1..][i] == value[i + 1];
      ScanPlain(value[1..], rest);
      assert s[1..] == value[1..] + "\"" + rest;
      assert [value[0]] + value[1..] == value;
    }
  }

  lemma {:induction false} EscapeMapOneLine(value: string)
    ensures OneLine(EscapeMap(value)) <==> OneLine(value)
  {
    if value != "" {
      EscapeMapOneLine(value[1..]);
      var tail := EscapeMap(value[1..]);
      var head := if value[0] == '\\' || value[0] == '"' then ['\\', value[0]] else [value[0]];
      HasConcat(head, tail, '\n');
      HasConcat([value[0]], value[1..], '\n');
      assert [value[0]] + value[1..] == value;
      assert Has(head, '\n') <==> value[0] == '\n' by {
        assert head[|head| - 1] == value[0];
      }
      assert Has([value[0]], '\n') <==> value[0] == '\n' by {
        assert [value[0]][0] == value[0];
      }
    }
  }

  lemma HasConcat(a: string, b: string, c: char)
    ensures Has(a + b, c) <==> Has(a, c) || Has(b, c)
  {
    if i :| 0 <= i < |a| && a[i] == c {
      assert (a + b)[i] == c;
    }
    if i :| 0 <= i < |b| && b[i] == c {
      assert (a + b)[|a| + i] == c;
    }
  }

  lemma {:induction false} EscapeMapConcat(a: string, b: string)
    ensures EscapeMap(a + b) == EscapeMap(a) + EscapeMap(b)
  {
    if a == "" {
      assert a + b == b;
    } else {
      assert (a + b)[1..] == a[1..] + b;
      EscapeMapConcat(a[1..], b);
    }
  }

  // ------------------------------------------------------------------ the lines as tokens

  lemma {:induction false} Unindent(pad: string, s: string)
    requires forall i | 0 <= i < |pad| :: pad[i] == ' '
    requires s != "" && !IsSpace(s[0])
    ensures StripLeft(pad + s) == s
  {
    if pad == "" {
      assert pad + s == s;
    } else {
      assert (pad + s)[1..] == pad[1..] + s;
      Unindent(pad[1..], s);
    }
  }

  lemma ConditionRead(attribute: string, value: string)
    requires !Has(attribute, ' ')
    ensures ReadCondition(ConditionText(attribute, Escape(value))) == Some(Condition(attribute, value))
  {
    var s := attribute + " == \"" + Escape(value) + "\") {";
    var n := |attribute|;
    assert forall k | 0 <= k < n :: s[k] == attribute[k] && attribute[k] != ' ';
    assert s[n] == ' ';
    FindIs(s, ' ', n);
    assert s[..n] == attribute;
    assert s[n..][..5] == " == \"";
    assert s[n + 5..] == Escape(value) + "\"" + ") {";
    ScanEscaped(value, ") {");
  }

  lemma ConditionUnread(attribute: string, value: string)
    requires !Has(attribute, ' ')
    ensures ReadCondition(attribute + " == \"" + EscapeMap(value)) == None
  {
    var s := attribute + " == \"" + EscapeMap(value);
    var n := |attribute|;
    assert forall k | 0 <= k < n :: s[k] == attribute[k] && attribute[k] != ' ';
    assert s[n] == ' ';
    FindIs(s, ' ', n);
    assert s[n + 5..] == EscapeMap(value);
    ScanUnclosed(value);
  }

  const OuterAttribute := "Called-Station-SSID"
  const GateAttribute := "LDAP-Group"

  lemma AttributesPlain()
    ensures !Has(OuterAttribute, ' ') && !Has(GateAttribute, ' ')
  {
  }

  lemma IfLine(condition: string)
    ensures LineTokens("if (&" + condition)
            == [match ReadCondition(condition) case Some(c) => If(c) case None => Bad]
  {
    var s := "if (&" + condition;
    assert s[0] == 'i' && s[2] == ' ';
    assert s[..5] == "if (&" && s[5..] == condition;
  }

  lemma ElsifLine(condition: string)
    ensures LineTokens("elsif (&" + condition)
            == [match ReadCondition(condition) case Some(c) => Elsif(c) case None => Bad]
  {
    var s := "elsif (&" + condition;
    assert s[0] == 'e' && s[1] == 'l' && s[2] == 's' && s[3] == 'i' && s[5] == ' ';
    assert StripLeft(s) == s && !BareWord(s);
    assert s != "}" && s != "else {" && s != "update reply {" && !StartsWith(s, "if (&");
    assert s[..8] == "elsif (&" && s[8..] == condition;
  }

  /** The part of a condition line after `(&`. */
  function ConditionText(attribute: string, escaped: string): string {
    attribute + " == \"" + escaped + "\") {"
  }

  lemma IfText(attribute: string, escaped: string)
    ensures "if" + " (&" + attribute + " == \"" + escaped + "\") {"
            == "if (&" + ConditionText(attribute, escaped)
  {
    assert "if" + " (&" == "if (&";
    Regroup("if (&", attribute, " == \"", escaped, "\") {");
  }

  lemma ElsifText(attribute: string, escaped: string)
    ensures "elsif" + " (&" + attribute + " == \"" + escaped + "\") {"
            == "elsif (&" + ConditionText(attribute, escaped)
  {
    assert "elsif" + " (&" == "elsif (&";
    Regroup("elsif (&", attribute, " == \"", escaped, "\") {");
  }

  lemma Regroup<T>(a: seq<T>, b: seq<T>, c: seq<T>, d: seq<T>, e: seq<T>)
    ensures a + b + c + d + e == a + (b + c + d + e)
  {
  }

  lemma Regroup4<T>(a: seq<T>, b: seq<T>, c: seq<T>, d: seq<T>, e: seq<T>)
    ensures a + b + c + d + e == a + (b + (c + d + e))
  {
  }

  lemma OuterLineToken(first: bool, name: string)
    ensures var c := Condition(OuterAttribute, name);
            LineTokens(OuterLine(first, name)) == [if first then If(c) else Elsif(c)]
  {
    AttributesPlain();
    ConditionRead(OuterAttribute, name);
    if first {
      IfText(OuterAttribute, Escape(name));
      IfLine(ConditionText(OuterAttribute, Escape(name)));
    } else {
      ElsifText(OuterAttribute, Escape(name));
      ElsifLine(ConditionText(OuterAttribute, Escape(name)));
    }
  }

  lemma IndentedTokens(pad: string, s: string)
    requires forall i | 0 <= i < |pad| :: pad[i] == ' '
    requires s != "" && !IsSpace(s[0])
    ensures LineTokens(pad + s) == LineTokens(s)
  {
    Unindent(pad, s);
  }

  lemma GateLineToken(group: string)
    ensures LineTokens(GateLine(group)) == [If(Condition(GateAttribute, group))]
  {
    AttributesPlain();
    ConditionRead(GateAttribute, group);
    IfText(GateAttribute, Escape(group));
    IndentedIf(ConditionText(GateAttribute, Escape(group)));
  }

  lemma IndentedIf(condition: string)
    ensures LineTokens("    " + ("if (&" + condition))
            == [match ReadCondition(condition) case Some(c) => If(c) case None => Bad]
  {
    IfLine(condition);
    assert ("if (&" + condition)[0] == 'i';
    IndentedTokens("    ", "if (&" + condition);
  }

  lemma WordLine(pad: string, w: string)
    requires forall i | 0 <= i < |pad| :: pad[i] == ' '
    requires w != "" && BareWord(w)
    ensures LineTokens(pad + w) == [Word(w)]
  {
    assert 'a' <= w[0] <= 'z';
    Unindent(pad, w);
  }

  lemma CloseLine(pad: string)
    requires forall i | 0 <= i < |pad| :: pad[i] == ' '
    ensures LineTokens(pad + "}") == [Close]
  {
    var s := "}";
    assert s[0] == '}';
    Unindent(pad, s);
  }

  lemma ElseLine(pad: string)
    requires forall i | 0 <= i < |pad| :: pad[i] == ' '
    ensures LineTokens(pad + "else {") == [Else]
  {
    var s := "else {";
    assert s[4] == ' ';
    Unindent(pad, s);
  }

  lemma UpdateLine(pad: string)
    requires forall i | 0 <= i < |pad| :: pad[i] == ' '
    ensures LineTokens(pad + "update reply {") == [UpdateReply]
  {
    var s := "update reply {";
    assert s[6] == ' ';
    Unindent(pad, s);
  }

  lemma AssignmentRead(attribute: string, value: string, text: string)
    requires !Has(attribute, ' ') && !Has(value, ' ') && !Has(value, '"') && !Has(value, '\\')
    requires value != "" && (text == value || text == "\"" + value + "\"")
    ensures ReadAssignment(attribute + " := " + text) == Assign(attribute, value)
  {
    var u, n := attribute + " := " + text, |attribute|;
    assert forall k | 0 <= k < n :: u[k] == attribute[k] && attribute[k] != ' ';
    assert u[n] == ' ';
    FindIs(u, ' ', n);
    assert u[..n] == attribute;
    assert u[n..][..4] == " := ";
    assert u[n + 4..] == text;
    if text == value {
      assert value[0] != '"';
    } else {
      assert text[1..] == value + "\"" + "";
      ScanPlain(value, "");
    }
  }

  lemma AssignLine(pad: string, attribute: string, value: string, text: string)
    requires forall i | 0 <= i < |pad| :: pad[i] == ' '
    requires !Has(attribute, ' ') && !Has(value, ' ') && !Has(value, '"') && !Has(value, '\\')
    requires value != "" && (text == value || text == "\"" + value + "\"")
    ensures LineTokens(pad + "&" + attribute + " := " + text) == [Assign(attribute, value)]
  {
    Regroup4(pad, "&", attribute, " := ", text);
    AssignmentRead(attribute, value, text);
    AmpersandLine(attribute + " := " + text);
    IndentedTokens(pad, "&" + (attribute + " := " + text));
  }

  lemma AmpersandLine(assignment: string)
    ensures LineTokens("&" + assignment) == [ReadAssignment(assignment)]
  {
    var s := "&" + assignment;
    assert s[0] == '&' && s[..1] == "&" && s[1..] == assignment;
  }

  lemma DecimalPlain(v: int)
    ensures var s := Decimal(v); !Has(s, ' ') && !Has(s, '"') && !Has(s, '\\') && !Has(s, '\n')
  {
  }

  function InnerTokens(vlan: Option<int>): seq<Token> {
    match vlan
    case Some(v) =>
      [UpdateReply, Assign("Tunnel-Type", "VLAN"), Assign("Tunnel-Medium-Type", "IEEE-802"),
       Assign("Tunnel-Private-Group-Id", Decimal(v)), Close]
    case None => [Word("noop")]
  }

  const GateEndTokens := [Close, Else, Word("reject"), Close, Close]

  const PolicyEndTokens := [Else, Word("reject"), Close]

  function SsidTokens(first: bool, ssid: Ssid): seq<Token> {
    HeadTokens(first, ssid) + InnerTokens(ssid.vlan) + GateEndTokens
  }

  function HeadTokens(first: bool, ssid: Ssid): seq<Token> {
    var c := Condition(OuterAttribute, ssid.name);
    [if first then If(c) else Elsif(c), If(Condition(GateAttribute, ssid.allowedGroup))]
  }

  lemma {:induction false} OneTokenEach(lines: seq<string>, tokens: seq<Token>)
    requires |lines| == |tokens|
    requires forall i | 0 <= i < |lines| :: LineTokens(lines[i]) == [tokens[i]]
    ensures Tokens(lines) == tokens
  {
    if lines != [] {
      assert forall i | 0 <= i < |lines[1..]| :: lines[1..][i] == lines[i + 1] && tokens[1..][i] == tokens[i + 1];
      OneTokenEach(lines[1..], tokens[1..]);
      assert [tokens[0]] + tokens[1..] == tokens;
    }
  }

  lemma Spaces()
    ensures forall i | 0 <= i < |Pad| :: Pad[i] == ' '
    ensures forall i | 0 <= i < |Pad + Pad| :: (Pad + Pad)[i] == ' '
    ensures forall i | 0 <= i < |Pad + Pad + Pad| :: (Pad + Pad + Pad)[i] == ' '
  {
  }

  lemma NoSpaces()
    ensures !Has("Tunnel-Type", ' ') && !Has("Tunnel-Medium-Type", ' ') && !Has("Tunnel-Private-Group-Id", ' ')
    ensures !Has("VLAN", ' ') && !Has("VLAN", '"') && !Has("VLAN", '\\')
    ensures !Has("IEEE-802", ' ') && !Has("IEEE-802", '"') && !Has("IEEE-802", '\\')
  {
  }

  lemma AssignmentToken(attribute: string, value: string, text: string)
    requires !Has(attribute, ' ') && !Has(value, ' ') && !Has(value, '"') && !Has(value, '\\')
    requires value != "" && (text == value || text == "\"" + value + "\"")
    ensures LineTokens(Assignment(attribute, text)) == [Assign(attribute, value)]
  {
    Spaces();
    AssignLine(Pad + Pad + Pad, attribute, value, text);
  }

  lemma FiveLines(a: string, b: string, c: string, d: string, e: string, tokens: seq<Token>)
    requires |tokens| == 5
    requires LineTokens(a) == [tokens[0]] && LineTokens(b) == [tokens[1]] && LineTokens(c) == [tokens[2]]
    requires LineTokens(d) == [tokens[3]] && LineTokens(e) == [tokens[4]]
    ensures Tokens([a, b, c, d, e]) == tokens
  {
    OneTokenEach([a, b, c, d, e], tokens);
  }

  lemma InnerLinesTokens(vlan: Option<int>)
    ensures Tokens(InnerLines(vlan)) == InnerTokens(vlan)
  {
    Spaces();
    match vlan
    case None =>
      WordLine(Pad + Pad, "noop");
      OneTokenEach([Pad + Pad + "noop"], [Word("noop")]);
    case Some(v) =>
      UpdateLine(Pad + Pad);
      VlanAssignments(v);
      CloseLine(Pad + Pad);
      FiveLines(Pad + Pad + "update reply {", Assignment("Tunnel-Type", "VLAN"),
        Assignment("Tunnel-Medium-Type", "IEEE-802"),
        Assignment("Tunnel-Private-Group-Id", "\"" + Decimal(v) + "\""), Pad + Pad + "}", InnerTokens(vlan));
  }

  lemma VlanAssignments(v: int)
    ensures LineTokens(Assignment("Tunnel-Type", "VLAN")) == [Assign("Tunnel-Type", "VLAN")]
    ensures LineTokens(Assignment("Tunnel-Medium-Type", "IEEE-802")) == [Assign("Tunnel-Medium-Type", "IEEE-802")]
    ensures LineTokens(Assignment("Tunnel-Private-Group-Id", "\"" + Decimal(v) + "\""))
            == [Assign("Tunnel-Private-Group-Id", Decimal(v))]
  {
    NoSpaces();
    DecimalPlain(v);
    AssignmentToken("Tunnel-Type", "VLAN", "VLAN");
    AssignmentToken("Tunnel-Medium-Type", "IEEE-802", "IEEE-802");
    AssignmentToken("Tunnel-Private-Group-Id", Decimal(v), "\"" + Decimal(v) + "\"");
  }

  lemma EndLines()
    ensures Tokens(GateEnd) == GateEndTokens && Tokens(PolicyEnd) == PolicyEndTokens
  {
    GateEndLines();
    PolicyEndLines();
  }

  lemma GateEndLines()
    ensures Tokens(GateEnd) == GateEndTokens
  {
    Spaces();
    CloseLine(Pad);
    ElseLine(Pad);
    WordLine(Pad + Pad, "reject");
    CloseLine("");
    assert "" + "}" == "}";
    OneTokenEach(GateEnd, GateEndTokens);
  }

  lemma PolicyEndLines()
    ensures Tokens(PolicyEnd) == PolicyEndTokens
  {
    Spaces();
    ElseLine("");
    WordLine(Pad, "reject");
    CloseLine("");
    assert "" + "}" == "}" && "" + "else {" == "else {";
    OneTokenEach(PolicyEnd, PolicyEndTokens);
  }

  lemma HeadLinesTokens(first: bool, ssid: Ssid)
    ensures Tokens([OuterLine(first, ssid.name), GateLine(ssid.allowedGroup)]) == HeadTokens(first, ssid)
  {
    OuterLineToken(first, ssid.name);
    GateLineToken(ssid.allowedGroup);
    OneTokenEach([OuterLine(first, ssid.name), GateLine(ssid.allowedGroup)], HeadTokens(first, ssid));
  }

  lemma SsidLinesTokens(first: bool, ssid: Ssid)
    ensures Tokens(SsidLines(first, ssid)) == SsidTokens(first, ssid)
  {
    var head := [OuterLine(first, ssid.name), GateLine(ssid.allowedGroup)];
    HeadLinesTokens(first, ssid);
    InnerLinesTokens(ssid.vlan);
    EndLines();
    TokensConcat(head, InnerLines(ssid.vlan));
    TokensConcat(head + InnerLines(ssid.vlan), GateEnd);
  }

  // ------------------------------------------------------------------ the whole text

  /** The branches from the front. */
  function BranchesFrom(first: bool, ssids: seq<Ssid>): seq<string> {
    if ssids == [] then [] else SsidLines(first, ssids[0]) + BranchesFrom(false, ssids[1..])
  }

  lemma {:induction false} BranchesFromSnoc(first: bool, ssids: seq<Ssid>, ssid: Ssid)
    ensures BranchesFrom(first, ssids + [ssid])
            == BranchesFrom(first, ssids) + SsidLines(first && ssids == [], ssid)
  {
    if ssids == [] {
      assert ssids + [ssid] == [ssid];
      NothingMore(first, ssid);
    } else {
      assert (ssids + [ssid])[1..] == ssids[1..] + [ssid];
      BranchesFromSnoc(false, ssids[1..], ssid);
      Grouping(SsidLines(first, ssids[0]), BranchesFrom(false, ssids[1..]), SsidLines(false, ssid));
    }
  }

  lemma NothingMore(first: bool, ssid: Ssid)
    ensures BranchesFrom(first, [ssid]) == SsidLines(first, ssid)
    ensures [] + SsidLines(first, ssid) == SsidLines(first, ssid)
  {
    assert [ssid][1..] == [];
    assert SsidLines(first, ssid) + [] == SsidLines(first, ssid);
  }

  lemma BranchesSnoc(ssids: seq<Ssid>, ssid: Ssid)
    ensures Branches(ssids + [ssid]) == Branches(ssids) + SsidLines(ssids == [], ssid)
  {
    assert (ssids + [ssid])[..|ssids|] == ssids;
  }

  lemma AgreeSnoc(ssids: seq<Ssid>, ssid: Ssid)
    requires Branches(ssids) == BranchesFrom(true, ssids)
    ensures Branches(ssids + [ssid]) == BranchesFrom(true, ssids + [ssid])
  {
    BranchesSnoc(ssids, ssid);
    BranchesFromSnoc(true, ssids, ssid);
    assert (true && ssids == []) == (ssids == []);
  }

  lemma {:induction false} BranchesAgree(ssids: seq<Ssid>)
    ensures Branches(ssids) == BranchesFrom(true, ssids)
    decreases |ssids|
  {
    if ssids != [] {
      var init, last := LastApart(ssids);
      BranchesAgree(init);
      AgreeSnoc(init, last);
    }
  }

  lemma LastApart<T>(s: seq<T>) returns (init: seq<T>, last: T)
    requires s != []
    ensures init + [last] == s && |init| < |s|
  {
    init, last := s[..|s| - 1], s[|s| - 1];
  }

  function BranchTokens(first: bool, ssids: seq<Ssid>): seq<Token> {
    if ssids == [] then [] else SsidTokens(first, ssids[0]) + BranchTokens(false, ssids[1..])
  }

  lemma {:induction false} BranchesTokens(first: bool, ssids: seq<Ssid>)
    ensures Tokens(BranchesFrom(first, ssids)) == BranchTokens(first, ssids)
  {
    if ssids != [] {
      SsidLinesTokens(first, ssids[0]);
      BranchesTokens(false, ssids[1..]);
      TokensConcat(SsidLines(first, ssids[0]), BranchesFrom(false, ssids[1..]));
    }
  }

  lemma {:induction false} CommentsSkipped(lines: seq<string>)
    requires forall i | 0 <= i < |lines| :: lines[i] != "" && lines[i][0] == '#'
    ensures Tokens(lines) == []
  {
    if lines != [] {
      assert forall i | 0 <= i < |lines[1..]| :: lines[1..][i] == lines[i + 1];
      CommentsSkipped(lines[1..]);
    }
  }

  lemma PolicyText(ssids: seq<Ssid>)
    ensures Policy(ssids) == Unlines(PolicyHeader + PolicyLines(ssids))
  {
    UnlinesConcat(PolicyHeader, PolicyLines(ssids));
  }

  lemma PolicyLinesTokens(ssids: seq<Ssid>)
    ensures Tokens(PolicyHeader + PolicyLines(ssids)) == BranchTokens(true, ssids) + PolicyEndTokens
  {
    HeaderSkipped(PolicyLines(ssids));
    BodyTokens(ssids);
  }

  lemma HeaderSkipped(lines: seq<string>)
    ensures Tokens(PolicyHeader + lines) == Tokens(lines)
  {
    var h := PolicyHeader;
    assert h[0][0] == '#' && h[1][0] == '#' && h[2][0] == '#';
    CommentsSkipped(h);
    TokensConcat(h, lines);
  }

  lemma BodyTokens(ssids: seq<Ssid>)
    ensures Tokens(PolicyLines(ssids)) == BranchTokens(true, ssids) + PolicyEndTokens
  {
    BranchesAgree(ssids);
    BranchesTokens(true, ssids);
    EndLines();
    TokensConcat(Branches(ssids), PolicyEnd);
  }

  // ------------------------------------------------------------------ the code of a policy

  const RejectAll := Plain(Word("reject"), End)

  function InnerCode(vlan: Option<int>): Code {
    match vlan
    case Some(v) =>
      Section(UpdateReply,
        Plain(Assign("Tunnel-Type", "VLAN"), Plain(Assign("Tunnel-Medium-Type", "IEEE-802"),
          Plain(Assign("Tunnel-Private-Group-Id", Decimal(v)), End))), End)
    case None => Plain(Word("noop"), End)
  }

  function GateCode(ssid: Ssid): Code {
    Section(If(Condition(GateAttribute, ssid.allowedGroup)), InnerCode(ssid.vlan),
      Section(Else, RejectAll, End))
  }

  function PolicyCode(first: bool, ssids: seq<Ssid>): Code {
    if ssids == [] then Section(Else, RejectAll, End)
    else
      var c := Condition(OuterAttribute, ssids[0].name);
      Section(if first then If(c) else Elsif(c), GateCode(ssids[0]), PolicyCode(false, ssids[1..]))
  }

  lemma ParseElse(rest: seq<Token>, next: Parsed)
    requires Parse(rest) == Some(next)
    ensures Parse([Else, Word("reject"), Close] + rest)
            == Some(Parsed(Section(Else, RejectAll, next.code), next.rest))
  {
    var close := [Close] + rest;
    ParsePlain(Word("reject"), close, Parsed(End, close));
    ParseSection(Else, [Word("reject")] + close, RejectAll, rest, next);
    assert [Else] + ([Word("reject")] + ([Close] + rest)) == [Else, Word("reject"), Close] + rest;
  }

  lemma ParseInner(vlan: Option<int>, rest: seq<Token>)
    ensures Parse(InnerTokens(vlan) + ([Close] + rest)) == Some(Parsed(InnerCode(vlan), [Close] + rest))
  {
    var close := [Close] + rest;
    match vlan
    case None =>
      assert Parse(close) == Some(Parsed(End, close));
      ParsePlain(Word("noop"), close, Parsed(End, close));
    case Some(v) =>
      var a, b := Assign("Tunnel-Type", "VLAN"), Assign("Tunnel-Medium-Type", "IEEE-802");
      ParseUpdate(a, b, Assign("Tunnel-Private-Group-Id", Decimal(v)), close);
  }

  lemma ParseUpdate(a: Token, b: Token, c: Token, rest: seq<Token>)
    requires a.Assign? && b.Assign? && c.Assign? && rest != [] && rest[0] == Close
    ensures Parse([UpdateReply, a, b, c, Close] + rest)
            == Some(Parsed(Section(UpdateReply, Plain(a, Plain(b, Plain(c, End))), End), rest))
  {
    var inner := [Close] + rest;
    ParsePlain(c, inner, Parsed(End, inner));
    ParsePlain(b, [c] + inner, Parsed(Plain(c, End), inner));
    ParsePlain(a, [b] + ([c] + inner), Parsed(Plain(b, Plain(c, End)), inner));
    ParseSection(UpdateReply, [a] + ([b] + ([c] + inner)), Plain(a, Plain(b, Plain(c, End))), rest,
      Parsed(End, rest));
    FiveTokens(UpdateReply, a, b, c, Close, rest);
  }

  lemma FiveTokens<T>(a: T, b: T, c: T, d: T, e: T, rest: seq<T>)
    ensures [a] + ([b] + ([c] + ([d] + ([e] + rest)))) == [a, b, c, d, e] + rest
  {
  }

  lemma ParseSsid(first: bool, ssid: Ssid, rest: seq<Token>, next: Parsed)
    requires Parse(rest) == Some(next)
    ensures var c := Condition(OuterAttribute, ssid.name);
            Parse(SsidTokens(first, ssid) + rest)
            == Some(Parsed(Section(if first then If(c) else Elsif(c), GateCode(ssid), next.code), next.rest))
  {
    var c := Condition(OuterAttribute, ssid.name);
    var outer, gate := if first then If(c) else Elsif(c), If(Condition(GateAttribute, ssid.allowedGroup));
    var close := [Close] + rest;
    assert Parse(close) == Some(Parsed(End, close));
    ParseElse(close, Parsed(End, close));
    var orElse := [Else, Word("reject"), Close] + close;
    ParseInner(ssid.vlan, orElse);
    var inner := InnerTokens(ssid.vlan) + ([Close] + orElse);
    ParseSection(gate, inner, InnerCode(ssid.vlan), orElse, Parsed(Section(Else, RejectAll, End), close));
    ParseSection(outer, [gate] + inner, GateCode(ssid), rest, next);
    SsidGrouping(outer, gate, InnerTokens(ssid.vlan), rest);
  }

  lemma SsidGrouping(outer: Token, gate: Token, inner: seq<Token>, rest: seq<Token>)
    ensures [outer] + ([gate] + (inner + ([Close] + ([Else, Word("reject"), Close] + ([Close] + rest)))))
            == [outer, gate] + inner + GateEndTokens + rest
  {
    assert [Close] + ([Else, Word("reject"), Close] + ([Close] + rest)) == GateEndTokens + rest;
    Grouping([outer, gate], inner, GateEndTokens + rest);
    Grouping([outer, gate] + inner, GateEndTokens, rest);
  }

  lemma {:induction false} ParseBranches(first: bool, ssids: seq<Ssid>)
    ensures Parse(BranchTokens(first, ssids) + PolicyEndTokens) == Some(Parsed(PolicyCode(first, ssids), []))
  {
    if ssids == [] {
      ParseElse([], Parsed(End, []));
      assert BranchTokens(first, ssids) + PolicyEndTokens == [Else, Word("reject"), Close] + [];
    } else {
      ParseBranches(false, ssids[1..]);
      var rest := BranchTokens(false, ssids[1..]) + PolicyEndTokens;
      ParseSsid(first, ssids[0], rest, Parsed(PolicyCode(false, ssids[1..]), []));
      Grouping(SsidTokens(first, ssids[0]), BranchTokens(false, ssids[1..]), PolicyEndTokens);
    }
  }

  // ------------------------------------------------------------------ what the code decides

  lemma InnerAccepts(vlan: Option<int>, req: Request)
    ensures Evaluate(InnerCode(vlan), req, NoIf, []) == Accept(VlanAttributes(vlan))
  {
    match vlan
    case None =>
    case Some(v) =>
      var id, medium := Attribute("Tunnel-Private-Group-Id", Decimal(v)), Attribute("Tunnel-Medium-Type", "IEEE-802");
      var c := AssignmentsCons(id, End, []);
      var b := AssignmentsCons(medium, c, [id] + []);
      var a := AssignmentsCons(Attribute("Tunnel-Type", "VLAN"), b, [medium] + ([id] + []));
      assert InnerCode(vlan) == Section(UpdateReply, a, End);
      assert [] + VlanAttributes(vlan) == VlanAttributes(vlan);
  }

  lemma AssignmentsCons(a: Attribute, next: Code, rest: seq<Attribute>) returns (code: Code)
    requires Assignments(next) == Some(rest)
    ensures code == Plain(Assign(a.name, a.value), next) && Assignments(code) == Some([a] + rest)
  {
    code := Plain(Assign(a.name, a.value), next);
  }

  lemma GateDecides(ssid: Ssid, req: Request)
    ensures Evaluate(GateCode(ssid), req, NoIf, [])
            == if ssid.allowedGroup in req.groups then Accept(VlanAttributes(ssid.vlan)) else Reject
  {
    InnerAccepts(ssid.vlan, req);
    RejectsAll(req);
  }

  lemma RejectsAll(req: Request)
    ensures Evaluate(RejectAll, req, NoIf, []) == Reject
  {
  }

  /** Once a branch was taken the rest of the chain changes nothing. */
  lemma {:induction false} RestSkipped(ssids: seq<Ssid>, req: Request, reply: seq<Attribute>)
    ensures Evaluate(PolicyCode(false, ssids), req, Taken, reply) == Accept(reply)
  {
    if ssids != [] {
      RestSkipped(ssids[1..], req, reply);
    }
  }

  lemma {:induction false} CodeDecides(first: bool, ssids: seq<Ssid>, req: Request)
    requires first ==> ssids != []
    ensures Evaluate(PolicyCode(first, ssids), req, if first then NoIf else Untaken, []) == Decide(ssids, req)
  {
    if ssids != [] {
      GateDecides(ssids[0], req);
      CodeDecides(false, ssids[1..], req);
      RestSkipped(ssids[1..], req, VlanAttributes(ssids[0].vlan));
    }
  }

  // ------------------------------------------------------------------ line feeds

  lemma LinesSingle(ssids: seq<Ssid>)
    requires SingleLine(ssids)
    ensures forall l | l in PolicyHeader + PolicyLines(ssids) :: OneLine(l)
  {
    BranchesSingle(ssids);
    FixedLinesSingle();
    HeaderSingle();
  }

  lemma HeaderSingle()
    ensures forall l | l in PolicyHeader :: OneLine(l)
  {
    JoinOneLine("# Generated by lmnradius \U{2014} ", "per-SSID group gate + ");
    JoinOneLine("# Generated by lmnradius \U{2014} " + "per-SSID group gate + ", "optional dynamic VLAN.");
    JoinOneLine("# Included into sites/inner-tunnel ", "post-auth via $-INCLUDE.");
    JoinOneLine("# Do not edit by hand; ", "it is overwritten on every reconcile.");
  }

  lemma FixedLinesSingle()
    ensures forall l | l in PolicyEnd :: OneLine(l)
    ensures forall l | l in GateEnd :: OneLine(l)
  {
    var e, g := PolicyEnd, GateEnd;
    assert OneLine(e[0]) && OneLine(e[1]) && OneLine(e[2]);
    assert OneLine(g[0]) && OneLine(g[1]) && OneLine(g[2]) && OneLine(g[4]);
  }

  lemma {:induction false} BranchesSingle(ssids: seq<Ssid>)
    requires SingleLine(ssids)
    ensures forall l | l in Branches(ssids) :: OneLine(l)
  {
    if ssids != [] {
      var n := |ssids| - 1;
      BranchesSingle(ssids[..n]);
      SsidSingle(n == 0, ssids[n]);
    }
  }

  lemma ConditionalSingle(keyword: string, attribute: string, value: string)
    requires OneLine(keyword) && OneLine(attribute)
    ensures OneLine(Conditional(keyword, attribute, value)) <==> OneLine(value)
  {
    EscapeIsMap(value);
    EscapeMapOneLine(value);
    HasConcat(keyword, " (&", '\n');
    HasConcat(keyword + " (&", attribute, '\n');
    HasConcat(keyword + " (&" + attribute, " == \"", '\n');
    HasConcat(keyword + " (&" + attribute + " == \"", Escape(value), '\n');
    HasConcat(keyword + " (&" + attribute + " == \"" + Escape(value), "\") {", '\n');
  }

  lemma SsidSingle(first: bool, ssid: Ssid)
    requires OneLine(ssid.name) && OneLine(ssid.allowedGroup)
    ensures forall l | l in SsidLines(first, ssid) :: OneLine(l)
  {
    ConditionalSingle(if first then "if" else "elsif", OuterAttribute, ssid.name);
    ConditionalSingle("if", GateAttribute, ssid.allowedGroup);
    HasConcat(Pad, Conditional("if", GateAttribute, ssid.allowedGroup), '\n');
    FixedLinesSingle();
    InnerSingle(ssid.vlan);
  }

  lemma InnerSingle(vlan: Option<int>)
    ensures forall l | l in InnerLines(vlan) :: OneLine(l)
  {
    if vlan.Some? {
      DecimalPlain(vlan.value);
      HasConcat("\"", Decimal(vlan.value), '\n');
      HasConcat("\"" + Decimal(vlan.value), "\"", '\n');
      AssignmentSingle("Tunnel-Type", "VLAN");
      AssignmentSingle("Tunnel-Medium-Type", "IEEE-802");
      AssignmentSingle("Tunnel-Private-Group-Id", "\"" + Decimal(vlan.value) + "\"");
    }
  }

  lemma AssignmentSingle(attribute: string, text: string)
    requires OneLine(attribute) && OneLine(text)
    ensures OneLine(Assignment(attribute, text))
  {
    HasConcat(Pad + Pad + Pad + "&", attribute, '\n');
    HasConcat(Pad + Pad + Pad + "&" + attribute, " := ", '\n');
    HasConcat(Pad + Pad + Pad + "&" + attribute + " := ", text, '\n');
  }

  /** The line up to the first line feed of the quoted string. */
  function BrokenHead(keyword: string, attribute: string, before: string): string {
    keyword + " (&" + attribute + " == \"" + EscapeMap(before)
  }

  lemma EscapeSplits(before: string, after: string)
    ensures Escape(before + "\n" + after) == EscapeMap(before) + "\n" + EscapeMap(after)
  {
    var tail := "\n" + after;
    assert before + "\n" + after == before + tail;
    EscapeIsMap(before + tail);
    EscapeMapConcat(before, tail);
    assert tail[1..] == after;
    assert EscapeMap(before) + ("\n" + EscapeMap(after)) == EscapeMap(before) + "\n" + EscapeMap(after);
  }

  lemma BrokenConditional(keyword: string, attribute: string, before: string, after: string)
    ensures Conditional(keyword, attribute, before + "\n" + after)
            == BrokenHead(keyword, attribute, before) + "\n" + (EscapeMap(after) + "\") {")
  {
    EscapeSplits(before, after);
    Broken(keyword + " (&" + attribute + " == \"", EscapeMap(before), EscapeMap(after), "\") {");
  }

  lemma Broken(head: string, a: string, b: string, tail: string)
    ensures head + (a + "\n" + b) + tail == head + a + "\n" + (b + tail)
  {
  }

  lemma BrokenHeadUnread(first: bool, attribute: string, before: string)
    requires !Has(attribute, ' ')
    ensures LineTokens(BrokenHead(if first then "if" else "elsif", attribute, before)) == [Bad]
  {
    ConditionUnread(attribute, before);
    var condition := attribute + " == \"" + EscapeMap(before);
    if first {
      assert "if" + " (&" == "if (&";
      NoTail("if (&", attribute, " == \"", EscapeMap(before));
      IfLine(condition);
    } else {
      assert "elsif" + " (&" == "elsif (&";
      NoTail("elsif (&", attribute, " == \"", EscapeMap(before));
      ElsifLine(condition);
    }
  }

  lemma NoTail(a: string, b: string, c: string, d: string)
    ensures a + b + c + d == a + (b + c + d)
  {
  }

  lemma BrokenHeadSingle(keyword: string, attribute: string, before: string)
    requires OneLine(keyword) && OneLine(attribute) && OneLine(before)
    ensures OneLine(BrokenHead(keyword, attribute, before))
  {
    EscapeMapOneLine(before);
    HasConcat(keyword, " (&", '\n');
    HasConcat(keyword + " (&", attribute, '\n');
    HasConcat(keyword + " (&" + attribute, " == \"", '\n');
    HasConcat(keyword + " (&" + attribute + " == \"", EscapeMap(before), '\n');
  }

  /** The part of a value before its first line feed, and the part after. */
  lemma CutAtFeed(value: string) returns (before: string, after: string)
    requires !OneLine(value)
    ensures value == before + "\n" + after && OneLine(before)
  {
    var k := Find(value, '\n');
    var i :| 0 <= i < |value| && value[i] == '\n';
    assert k < |value|;
    before, after := value[..k], value[k + 1..];
  }

  lemma BrokenPiece(first: bool, attribute: string, value: string) returns (piece: string, tail: string)
    requires !Has(attribute, ' ') && OneLine(attribute) && !OneLine(value)
    ensures Conditional(if first then "if" else "elsif", attribute, value) == piece + "\n" + tail
    ensures OneLine(piece) && LineTokens(piece) == [Bad] && piece != "" && !IsSpace(piece[0])
  {
    var before, after := CutAtFeed(value);
    var keyword := if first then "if" else "elsif";
    BrokenConditional(keyword, attribute, before, after);
    BrokenHeadUnread(first, attribute, before);
    BrokenHeadSingle(keyword, attribute, before);
    piece, tail := BrokenHead(keyword, attribute, before), EscapeMap(after) + "\") {";
    assert piece[0] == keyword[0];
  }

  lemma BrokenOuter(first: bool, name: string) returns (piece: string)
    requires !OneLine(name)
    ensures piece in Split(OuterLine(first, name)) && LineTokens(piece) == [Bad]
  {
    AttributesPlain();
    var tail;
    piece, tail := BrokenPiece(first, OuterAttribute, name);
    SplitPrefix(piece, tail);
  }

  lemma BrokenGate(group: string) returns (piece: string)
    requires !OneLine(group)
    ensures piece in Split(GateLine(group)) && LineTokens(piece) == [Bad]
  {
    AttributesPlain();
    Spaces();
    var head, tail := BrokenPiece(true, GateAttribute, group);
    piece := Pad + head;
    HasConcat(Pad, head, '\n');
    Indented(head, tail);
    SplitPrefix(piece, tail);
    IndentedTokens(Pad, head);
  }

  lemma Indented(head: string, tail: string)
    ensures Pad + (head + "\n" + tail) == Pad + head + "\n" + tail
  {
  }

  lemma BranchLines(ssids: seq<Ssid>, i: nat)
    requires i < |ssids|
    ensures OuterLine(i == 0, ssids[i].name) in Branches(ssids)
    ensures GateLine(ssids[i].allowedGroup) in Branches(ssids)
  {
    HeadLines(i == 0, ssids[i]);
    BranchLine(ssids, i, OuterLine(i == 0, ssids[i].name));
    BranchLine(ssids, i, GateLine(ssids[i].allowedGroup));
  }

  lemma {:induction false} BranchLine(ssids: seq<Ssid>, i: nat, line: string)
    requires i < |ssids| && line in SsidLines(i == 0, ssids[i])
    ensures line in Branches(ssids)
  {
    var n := |ssids| - 1;
    if i < n {
      BranchLine(ssids[..n], i, line);
    }
    assert ssids[..n] + [ssids[n]] == ssids;
    BranchesSnoc(ssids[..n], ssids[n]);
  }

  lemma HeadLines(first: bool, ssid: Ssid)
    ensures OuterLine(first, ssid.name) in SsidLines(first, ssid)
    ensures GateLine(ssid.allowedGroup) in SsidLines(first, ssid)
  {
    var head := [OuterLine(first, ssid.name), GateLine(ssid.allowedGroup)];
    assert head[0] in head && head[1] in head;
  }

  lemma {:induction false} TokenIn(lines: seq<string>, line: string, token: Token)
    requires line in lines && token in LineTokens(line)
    ensures token in Tokens(lines)
  {
    if line != lines[0] {
      TokenIn(lines[1..], line, token);
    }
  }

  /** A line feed in a name or a group leaves a line whose quote does not end, and the text
      cannot be read. */
  lemma FeedUnread(ssids: seq<Ssid>)
    requires !SingleLine(ssids)
    ensures Read(Policy(ssids)).None?
  {
    var i :| 0 <= i < |ssids| && !(OneLine(ssids[i].name) && OneLine(ssids[i].allowedGroup));
    var line, piece;
    BranchLines(ssids, i);
    if !OneLine(ssids[i].name) {
      line := OuterLine(i == 0, ssids[i].name);
      piece := BrokenOuter(i == 0, ssids[i].name);
    } else {
      line := GateLine(ssids[i].allowedGroup);
      piece := BrokenGate(ssids[i].allowedGroup);
    }
    PolicyText(ssids);
    BrokenLineUnread(PolicyHeader + PolicyLines(ssids), line, piece);
  }

  lemma BrokenLineUnread(lines: seq<string>, line: string, piece: string)
    requires line in lines && piece in Split(line) && LineTokens(piece) == [Bad]
    ensures Read(Unlines(lines)).None?
  {
    var k :| 0 <= k < |lines| && lines[k] == line;
    PieceWritten(lines, k, piece);
    assert Bad in LineTokens(piece);
    TokenIn(Lines(Unlines(lines)), piece, Bad);
    BadLineUnread(Lines(Unlines(lines)));
  }

  // ------------------------------------------------------------------ main results

  /** For every list of SSIDs without line feeds, reading the rendered text back and evaluating
      it on any request gives the verdict of the list. */
  lemma PolicyDecides(ssids: seq<Ssid>, req: Request)
    requires ssids != [] && SingleLine(ssids)
    ensures var code := Read(Policy(ssids));
            code.Some? && Evaluate(code.value, req, NoIf, []) == Decide(ssids, req)
  {
    PolicyText(ssids);
    LinesSingle(ssids);
    LinesUnlines(PolicyHeader + PolicyLines(ssids));
    PolicyLinesTokens(ssids);
    ParseBranches(true, ssids);
    CodeDecides(true, ssids, req);
  }

  /** Entry `i` is the first with this name. */
  ghost predicate FirstNamed(ssids: seq<Ssid>, name: string, i: nat) {
    i < |ssids| && ssids[i].name == name && forall j | 0 <= j < i :: ssids[j].name != name
  }

  /** The reply of an entry: nothing, or the three attributes of section 3.31 of RFC 3580, the last of
      them the numeral of its VLAN. */
  ghost predicate PutsInto(reply: seq<Attribute>, vlan: Option<int>) {
    match vlan
    case None => reply == []
    case Some(n) =>
      && |reply| == 3
      && reply[0].name == "Tunnel-Type" && reply[0].value == "VLAN"
      && reply[1].name == "Tunnel-Medium-Type" && reply[1].value == "IEEE-802"
      && reply[2].name == "Tunnel-Private-Group-Id" && Numeral(reply[2].value, n)
  }

  /** The verdict on a request: accepted exactly if the first entry with the requested name has a
      group that is held, and then put into the VLAN of that entry. */
  ghost predicate Answers(ssids: seq<Ssid>, req: Request, v: Verdict) {
    && !v.Malformed?
    && (v.Accept? <==> exists i: nat :: FirstNamed(ssids, req.ssid, i) && ssids[i].allowedGroup in req.groups)
    && forall i: nat | FirstNamed(ssids, req.ssid, i) && v.Accept? :: PutsInto(v.reply, ssids[i].vlan)
  }

  lemma {:induction false} DecideAnswers(ssids: seq<Ssid>, req: Request)
    ensures Answers(ssids, req, Decide(ssids, req))
  {
    if ssids != [] {
      if ssids[0].name != req.ssid {
        var rest := ssids[1..];
        DecideAnswers(rest, req);
        forall i: nat ensures FirstNamed(ssids, req.ssid, i) <==> i > 0 && FirstNamed(rest, req.ssid, i - 1) {
          LaterNamed(ssids, req.ssid, i);
        }
        forall i: nat ensures FirstNamed(rest, req.ssid, i) <==> FirstNamed(ssids, req.ssid, i + 1) {
        }
      } else {
        assert FirstNamed(ssids, req.ssid, 0);
        VlanPutsInto(ssids[0].vlan);
      }
    }
  }

  lemma LaterNamed(ssids: seq<Ssid>, name: string, i: nat)
    requires ssids != [] && ssids[0].name != name
    ensures FirstNamed(ssids, name, i) <==> i > 0 && FirstNamed(ssids[1..], name, i - 1)
  {
    if i > 0 && FirstNamed(ssids[1..], name, i - 1) {
      forall j | 0 <= j < i ensures ssids[j].name != name {
        assert j > 0 ==> ssids[1..][j - 1] == ssids[j];
      }
    }
  }

  lemma VlanPutsInto(vlan: Option<int>)
    ensures PutsInto(VlanAttributes(vlan), vlan)
  {
    if vlan.Some? {
      DecimalWrites(vlan.value);
    }
  }

  /** For every list of SSIDs without line feeds and every request, in terms of the list alone: the
      text can be read back, and what it answers is the group test and the VLAN of the first entry
      with the requested name. */
  lemma PolicyAnswers(ssids: seq<Ssid>, req: Request)
    requires ssids != [] && SingleLine(ssids)
    ensures var code := Read(Policy(ssids));
            code.Some? && Answers(ssids, req, Evaluate(code.value, req, NoIf, []))
  {
    PolicyDecides(ssids, req);
    DecideAnswers(ssids, req);
  }

  /** The rendered text of a non-empty list can be read back exactly when no name and no group
      holds a line feed. */
  lemma PolicyReadableIff(ssids: seq<Ssid>)
    requires ssids != []
    ensures Read(Policy(ssids)).Some? <==> SingleLine(ssids)
  {
    if SingleLine(ssids) {
      PolicyDecides(ssids, Request("", {}));
    } else {
      FeedUnread(ssids);
    }
  }
}
