/** The fragment of FreeRADIUS's unlang that the control plane renders: a reader of its text
    and an evaluator of what was read.

    The text is read line by line; a double-quoted string ends at the first quote that no
    backslash escapes, and must end on its line. */
module Unlang {
  import opened Text

  datatype Condition = Condition(attribute: string, value: string)

  datatype Token =
    | If(cond: Condition)
    | Elsif(cond: Condition)
    | Else
    | UpdateReply
    | Close
    | Assign(attribute: string, value: string)
    | Word(word: string)
    | Bad

  predicate Opens(t: Token) {
    t.If? || t.Elsif? || t.Else? || t.UpdateReply?
  }

  // ------------------------------------------------------------------ lines to tokens

  datatype Quoted = Quoted(value: string, rest: string)

  /** The string after an opening quote, unescaped, and what follows its closing quote. */
  function ScanQuoted(s: string): Option<Quoted> {
    if s == "" then None
    else if s[0] == '"' then Some(Quoted("", s[1..]))
    else if s[0] == '\\' then
      if |s| < 2 then None
      else
        match ScanQuoted(s[2..])
        case None => None
        case Some(q) => Some(Quoted([s[1]] + q.value, q.rest))
    else
      match ScanQuoted(s[1..])
      case None => None
      case Some(q) => Some(Quoted([s[0]] + q.value, q.rest))
  }

  /** `attribute == "value") {` */
  function ReadCondition(s: string): Option<Condition> {
    var k := Find(s, ' ');
    if !StartsWith(s[k..], " == \"") then None
    else
      match ScanQuoted(s[k + 5..])
      case Some(q) => if q.rest == ") {" then Some(Condition(s[..k], q.value)) else None
      case None => None
  }

  /** `attribute := "value"` or `attribute := word` */
  function ReadAssignment(s: string): Token {
    var k := Find(s, ' ');
    if !StartsWith(s[k..], " := ") then Bad
    else
      var v := s[k + 4..];
      if v != "" && v[0] == '"' then
        match ScanQuoted(v[1..])
        case Some(q) => if q.rest == "" then Assign(s[..k], q.value) else Bad
        case None => Bad
      else if v == "" || Has(v, ' ') || Has(v, '"') then Bad
      else Assign(s[..k], v)
  }

  predicate BareWord(s: string) {
    forall i | 0 <= i < |s| :: 'a' <= s[i] <= 'z'
  }

  /** A line without its indentation. */
  function ReadLine(s: string): Token
    requires s != ""
  {
    if BareWord(s) then Word(s)
    else if s[0] == '&' then ReadAssignment(s[1..])
    else if s == "}" then Close
    else if s == "else {" then Else
    else if s == "update reply {" then UpdateReply
    else if StartsWith(s, "if (&") then
      match ReadCondition(s[5..])
      case Some(c) => If(c)
      case None => Bad
    else if StartsWith(s, "elsif (&") then
      match ReadCondition(s[8..])
      case Some(c) => Elsif(c)
      case None => Bad
    else Bad
  }

  /** Blank lines and comments are skipped. */
  function LineTokens(line: string): seq<Token> {
    var s := StripLeft(line);
    if s == "" || s[0] == '#' then [] else [ReadLine(s)]
  }

  function Tokens(lines: seq<string>): seq<Token> {
    if lines == [] then [] else LineTokens(lines[0]) + Tokens(lines[1..])
  }

  lemma {:induction false} TokensConcat(a: seq<string>, b: seq<string>)
    ensures Tokens(a + b) == Tokens(a) + Tokens(b)
  {
    if a == [] {
      assert a + b == b;
    } else {
      assert (a + b)[1..] == a[1..] + b;
      TokensConcat(a[1..], b);
      Grouping(LineTokens(a[0]), Tokens(a[1..]), Tokens(b));
    }
  }

  lemma Grouping<T>(a: seq<T>, b: seq<T>, c: seq<T>)
    ensures a + (b + c) == a + b + c
  {
  }

  // ------------------------------------------------------------------ tokens to code

  /** A sequence of statements. */
  datatype Code =
    | End
    | Plain(token: Token, next: Code)
    | Section(head: Token, body: Code, next: Code)

  datatype Parsed = Parsed(code: Code, rest: seq<Token>)

  /** The statements up to a closing brace or the end. */
  function Parse(tokens: seq<Token>): (r: Option<Parsed>)
    ensures r.Some? ==> |r.value.rest| <= |tokens|
    ensures r.Some? && r.value.rest != [] ==> r.value.rest[0].Close?
    decreases |tokens|
  {
    if tokens == [] || tokens[0].Close? then Some(Parsed(End, tokens))
    else if tokens[0].Bad? then None
    else if Opens(tokens[0]) then
      var body := Parse(tokens[1..]);
      if body.None? || body.value.rest == [] then None
      else
        var next := Parse(body.value.rest[1..]);
        if next.None? then None
        else Some(Parsed(Section(tokens[0], body.value.code, next.value.code), next.value.rest))
    else
      var next := Parse(tokens[1..]);
      if next.None? then None else Some(Parsed(Plain(tokens[0], next.value.code), next.value.rest))
  }

  /** The code of a text, if all of it can be read. */
  function Read(text: string): Option<Code> {
    match Parse(Tokens(Lines(text)))
    case Some(p) => if p.rest == [] then Some(p.code) else None
    case None => None
  }

  lemma ParseSection(head: Token, tokens: seq<Token>, body: Code, rest: seq<Token>, next: Parsed)
    requires Opens(head)
    requires Parse(tokens) == Some(Parsed(body, [Close] + rest))
    requires Parse(rest) == Some(next)
    ensures Parse([head] + tokens) == Some(Parsed(Section(head, body, next.code), next.rest))
  {
    assert ([head] + tokens)[1..] == tokens;
    assert ([Close] + rest)[1..] == rest;
  }

  lemma ParsePlain(token: Token, tokens: seq<Token>, next: Parsed)
    requires !Opens(token) && !token.Close? && !token.Bad?
    requires Parse(tokens) == Some(next)
    ensures Parse([token] + tokens) == Some(Parsed(Plain(token, next.code), next.rest))
  {
    assert ([token] + tokens)[1..] == tokens;
  }

  /** Whatever is parsed is free of lines that could not be read. */
  lemma {:induction false} ParsedIsGood(tokens: seq<Token>)
    requires Parse(tokens).Some?
    ensures var rest := Parse(tokens).value.rest;
            forall t | t in tokens :: t.Bad? ==> t in rest
    decreases |tokens|
  {
    if tokens != [] && !tokens[0].Close? {
      var tail := tokens[1..];
      ParsedIsGood(tail);
      assert tokens == [tokens[0]] + tail;
      if Opens(tokens[0]) {
        var after := Parse(tail).value.rest;
        ParsedIsGood(after[1..]);
        assert after == [after[0]] + after[1..];
      }
    }
  }

  lemma BadLineUnread(lines: seq<string>)
    requires Bad in Tokens(lines)
    ensures Parse(Tokens(lines)).None? || Parse(Tokens(lines)).value.rest != []
  {
    if Parse(Tokens(lines)).Some? {
      ParsedIsGood(Tokens(lines));
    }
  }

  // ------------------------------------------------------------------ evaluation

  datatype Request = Request(ssid: string, groups: set<string>)

  datatype Attribute = Attribute(name: string, value: string)

  datatype Verdict =
    | Reject
    | Accept(reply: seq<Attribute>)
    | Malformed

  /** Where an `if` chain stands: none before, all conditions false so far, or one taken. */
  datatype Chain = NoIf | Untaken | Taken

  predicate Holds(c: Condition, req: Request) {
    (c.attribute == "Called-Station-SSID" && req.ssid == c.value)
    || (c.attribute == "LDAP-Group" && c.value in req.groups)
  }

  function Assignments(code: Code): Option<seq<Attribute>> {
    match code
    case End => Some([])
    case Plain(Assign(a, v), next) =>
      (match Assignments(next)
       case Some(rest) => Some([Attribute(a, v)] + rest)
       case None => None)
    case _ => None
  }

  function Evaluate(code: Code, req: Request, chain: Chain, reply: seq<Attribute>): Verdict {
    match code
    case End => Accept(reply)
    case Plain(Word(w), next) =>
      if w == "reject" then Reject
      else if w == "noop" then Evaluate(next, req, NoIf, reply)
      else Malformed
    case Section(If(c), body, next) =>
      if Holds(c, req) then
        var v := Evaluate(body, req, NoIf, reply);
        if v.Accept? then Evaluate(next, req, Taken, v.reply) else v
      else Evaluate(next, req, Untaken, reply)
    case Section(Elsif(c), body, next) =>
      if chain.NoIf? then Malformed
      else if chain.Untaken? && Holds(c, req) then
        var v := Evaluate(body, req, NoIf, reply);
        if v.Accept? then Evaluate(next, req, Taken, v.reply) else v
      else Evaluate(next, req, chain, reply)
    case Section(Else, body, next) =>
      if chain.NoIf? then Malformed
      else if chain.Untaken? then
        var v := Evaluate(body, req, NoIf, reply);
        if v.Accept? then Evaluate(next, req, NoIf, v.reply) else v
      else Evaluate(next, req, NoIf, reply)
    case Section(UpdateReply, body, next) =>
      (match Assignments(body)
       case Some(a) => Evaluate(next, req, NoIf, reply + a)
       case None => Malformed)
    case _ => Malformed
  }
}
