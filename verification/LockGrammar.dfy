/** The lines uv writes into a hash-pinned lockfile, and the lockfiles made of them. */
module LockGrammar {
  import opened Text

  predicate LowerAlnum(c: char) {
    'a' <= c <= 'z' || Digit(c)
  }

  predicate VersionChar(c: char) {
    Digit(c) || 'A' <= c <= 'Z' || 'a' <= c <= 'z' || c == '.' || c == '+' || c == '!'
  }

  predicate HexChar(c: char) {
    Digit(c) || 'a' <= c <= 'f'
  }

  /** `[a-z0-9](?:[a-z0-9-]*[a-z0-9])?` */
  predicate IsName(s: string) {
    s != "" && LowerAlnum(s[0]) && LowerAlnum(s[|s| - 1])
    && forall i | 0 <= i < |s| :: LowerAlnum(s[i]) || s[i] == '-'
  }

  /** `[0-9][0-9A-Za-z.+!]*` */
  predicate IsVersion(s: string) {
    s != "" && Digit(s[0]) && forall i | 0 <= i < |s| :: VersionChar(s[i])
  }

  /** `[0-9a-f]{64}` */
  predicate IsHash(s: string) {
    |s| == 64 && forall i | 0 <= i < |s| :: HexChar(s[i])
  }

  /** By the ASCII codes: a small letter or a digit. */
  predicate NameCode(c: char) {
    0x61 <= c as int <= 0x7A || 0x30 <= c as int <= 0x39
  }

  /** Digits, letters, a dot, a plus sign or an exclamation mark. */
  predicate VersionCode(c: char) {
    var code := c as int;
    NameCode(c) || 0x41 <= code <= 0x5A || code == 0x2E || code == 0x2B || code == 0x21
  }

  /** Which characters a name, a version and a hash can have, and where: a name has dashes only inside,
      a version starts with a digit, and a hash has 64 digits. */
  lemma ShapesExact(c: char, s: string)
    ensures IsName([c]) <==> NameCode(c)
    ensures IsName(['a', c]) <==> NameCode(c)
    ensures IsName(['a', c, 'b']) <==> NameCode(c) || c == '-'
    ensures IsVersion([c]) <==> 0x30 <= c as int <= 0x39
    ensures IsVersion(['1', c]) <==> VersionCode(c)
    ensures IsHash(s) <==> |s| == 64 && forall i | 0 <= i < |s| :: 0x30 <= s[i] as int <= 0x39 || 0x61 <= s[i] as int <= 0x66
  {
    assert [c][0] == c && ['a', c][1] == c && ['a', c, 'b'][1] == c && ['1', c][1] == c;
  }

  const HashPrefix := "    --hash=sha256:"

  function PinLine(name: string, version: string): string {
    name + "==" + version + " \\"
  }

  /** A hash line; `more` says that another one continues it. */
  function HashLine(hash: string, more: bool): string {
    HashPrefix + hash + if more then " \\" else ""
  }

  /** ` *#.*` */
  predicate IsComment(line: string) {
    exists k | 0 <= k < |line| :: line[k] == '#' && forall i | 0 <= i < k :: line[i] == ' '
  }

  /** A comment is a hash mark behind any number of spaces, and what follows it. */
  lemma CommentExact(line: string)
    ensures IsComment(line)
            <==> exists pad, text :: line == pad + "#" + text && forall i | 0 <= i < |pad| :: pad[i] == ' '
  {
    if IsComment(line) {
      var k :| 0 <= k < |line| && line[k] == '#' && forall i | 0 <= i < k :: line[i] == ' ';
      assert line == line[..k] + "#" + line[k + 1..];
    }
    if pad, text :| line == pad + "#" + text && forall i | 0 <= i < |pad| :: pad[i] == ' ' {
      assert line[|pad|] == '#' && forall i | 0 <= i < |pad| :: line[i] == pad[i];
    }
  }

  // ------------------------------------------------------------------ the matchers

  datatype PinHead = PinHead(name: string, version: string)
  datatype HashHead = HashHead(hash: string, more: bool)

  /** `PIN.fullmatch(line)` with its two groups. */
  function MatchPin(line: string): Option<PinHead> {
    var i := Find(line, '=');
    if i + 4 <= |line| && line[i..i + 2] == "==" && EndsWith(line, " \\")
       && IsName(line[..i]) && IsVersion(line[i + 2..|line| - 2])
    then Some(PinHead(line[..i], line[i + 2..|line| - 2]))
    else None
  }

  /** `HASH.fullmatch(line)` with its two groups. */
  function MatchHash(line: string): Option<HashHead> {
    if |line| < 82 || !StartsWith(line, HashPrefix) || !IsHash(line[18..82]) then None
    else if |line| == 82 then Some(HashHead(line[18..82], false))
    else if line[82..] == " \\" then Some(HashHead(line[18..82], true))
    else None
  }

  /** The pin matcher accepts exactly the lines a name and a version print to, and gives
      that name and version back. */
  lemma PinMatcherExact(line: string, name: string, version: string)
    ensures MatchPin(line) == Some(PinHead(name, version))
            <==> IsName(name) && IsVersion(version) && line == PinLine(name, version)
  {
    if IsName(name) && IsVersion(version) && line == PinLine(name, version) {
      PinLineParts(name, "==", version, " \\");
      assert forall k | 0 <= k < |name| :: name[k] != '=';
      FindIs(line, '=', |name|);
    }
    if MatchPin(line) == Some(PinHead(name, version)) {
      LineOfParts(line, Find(line, '='), |line| - 2);
    }
  }

  lemma PinLineParts(name: string, equals: string, version: string, end: string)
    requires |equals| == 2
    ensures var line, n := name + equals + version + end, |name|;
            && (forall k | 0 <= k < n :: line[k] == name[k]) && line[n] == equals[0]
            && line[..n] == name && line[n..n + 2] == equals
            && line[n + 2..|line| - |end|] == version && EndsWith(line, end)
  {
    var line, n := name + equals + version + end, |name|;
    assert line == name + (equals + (version + end));
    assert line[n + 2..] == version + end;
  }

  lemma LineOfParts(line: string, i: nat, j: nat)
    requires i + 2 <= j <= |line|
    ensures line == line[..i] + line[i..i + 2] + line[i + 2..j] + line[j..]
  {
  }

  /** The hash matcher accepts exactly the lines a hash prints to. */
  lemma HashMatcherExact(line: string, hash: string, more: bool)
    ensures MatchHash(line) == Some(HashHead(hash, more))
            <==> IsHash(hash) && line == HashLine(hash, more)
  {
    if IsHash(hash) && line == HashLine(hash, more) {
      assert line[..18] == HashPrefix && line[18..82] == hash;
    }
    if MatchHash(line) == Some(HashHead(hash, more)) {
      assert line == line[..18] + line[18..82] + line[82..];
    }
  }

  // ------------------------------------------------------------------ kinds of lines

  /** What a line is, wherever it stands. */
  datatype Kind =
    | Broken                                  // a byte outside printable ASCII
    | Skip(text: string)                      // empty or a comment
    | Head(name: string, version: string)
    | Hash(hash: string, more: bool)
    | Other

  function Classify(line: string): Kind {
    if !AllPrintable(line) then Broken
    else
      match MatchHash(line)
      case Some(m) => Hash(m.hash, m.more)
      case None =>
        if line == "" || IsComment(line) then Skip(line)
        else
          match MatchPin(line)
          case Some(m) => Head(m.name, m.version)
          case None => Other
  }

  ghost predicate KindOk(kind: Kind) {
    match kind
    case Skip(text) => (text == "" || IsComment(text)) && AllPrintable(text)
    case Head(name, version) => IsName(name) && IsVersion(version)
    case Hash(hash, _) => IsHash(hash)
    case _ => false
  }

  /** The line of a kind. */
  function LineOf(kind: Kind): string {
    match kind
    case Skip(text) => text
    case Head(name, version) => PinLine(name, version)
    case Hash(hash, more) => HashLine(hash, more)
    case _ => ""
  }

  /** A hash line is neither blank, nor a comment, nor a pin. */
  lemma HashIsNothingElse(line: string)
    requires MatchHash(line).Some?
    ensures line != "" && !IsComment(line) && MatchPin(line).None?
  {
    var m := MatchHash(line).value;
    HashMatcherExact(line, m.hash, m.more);
    assert line[..4] == "    " && line[4] == '-';
    if MatchPin(line).Some? {
      var p := MatchPin(line).value;
      PinMatcherExact(line, p.name, p.version);
      PrintedLineOk(p.name, p.version);
    }
  }

  lemma PrintedLineOk(name: string, version: string)
    requires IsName(name) && IsVersion(version)
    ensures AllPrintable(PinLine(name, version)) && OneLine(PinLine(name, version))
    ensures var line := PinLine(name, version);
            line != "" && LowerAlnum(line[0]) && !IsComment(line)
  {
    assert PinLine(name, version)[0] == name[0];
    var line := PinLine(name, version);
    assert forall i | 0 <= i < |line| :: Printable(line[i]) && line[i] != '\n';
  }

  lemma PrintedHashOk(hash: string, more: bool)
    requires IsHash(hash)
    ensures AllPrintable(HashLine(hash, more)) && OneLine(HashLine(hash, more))
  {
    var line := HashLine(hash, more);
    assert forall i | 0 <= i < |line| :: Printable(line[i]) && line[i] != '\n';
  }

  lemma CommentIsNothingElse(line: string)
    requires line == "" || IsComment(line)
    ensures MatchHash(line).None?
  {
    if MatchHash(line).Some? {
      HashIsNothingElse(line);
    }
  }

  /** Classifying and printing lines are inverse to each other. */
  lemma ClassifyExact(line: string, kind: Kind)
    requires KindOk(kind)
    ensures Classify(line) == kind <==> line == LineOf(kind)
  {
    match kind
    case Skip(text) =>
      CommentIsNothingElse(text);
    case Head(name, version) =>
      PinMatcherExact(line, name, version);
      PrintedLineOk(name, version);
      if line == LineOf(kind) && MatchHash(line).Some? {
        HashIsNothingElse(line);
      }
    case Hash(hash, more) =>
      HashMatcherExact(line, hash, more);
      PrintedHashOk(hash, more);
  }

  lemma ClassifyOk(line: string)
    ensures var kind := Classify(line);
            kind.Broken? || kind.Other? || (KindOk(kind) && LineOf(kind) == line)
  {
    var kind := Classify(line);
    if kind.Head? {
      PinMatcherExact(line, kind.name, kind.version);
    } else if kind.Hash? {
      HashMatcherExact(line, kind.hash, kind.more);
    }
  }

  function Kinds(lines: seq<string>): (kinds: seq<Kind>)
    ensures |kinds| == |lines|
    ensures forall i | 0 <= i < |lines| :: kinds[i] == Classify(lines[i])
  {
    if lines == [] then []
    else
      var n := |lines| - 1;
      Kinds(lines[..n]) + [Classify(lines[n])]
  }

  // ------------------------------------------------------------------ whole files

  /** What a lockfile consists of. */
  datatype Item =
    | Blank
    | Comment(text: string)
    | Block(name: string, version: string, hashes: seq<string>)

  ghost predicate ItemOk(item: Item) {
    match item
    case Blank => true
    case Comment(text) => IsComment(text) && AllPrintable(text)
    case Block(name, version, hashes) =>
      IsName(name) && IsVersion(version) && hashes != [] && AllHashes(hashes)
  }

  ghost predicate AllHashes(hashes: seq<string>) {
    forall i | 0 <= i < |hashes| :: IsHash(hashes[i])
  }

  ghost predicate AllOk(items: seq<Item>) {
    forall i | 0 <= i < |items| :: ItemOk(items[i])
  }

  /** The hash lines of a block: each but the last is continued. */
  function HashLines(hashes: seq<string>): seq<string> {
    if hashes == [] then []
    else
      var n := |hashes| - 1;
      OpenHashLines(hashes[..n]) + [HashLine(hashes[n], false)]
  }

  function OpenHashLines(hashes: seq<string>): seq<string> {
    if hashes == [] then []
    else
      var n := |hashes| - 1;
      OpenHashLines(hashes[..n]) + [HashLine(hashes[n], true)]
  }

  function ItemLines(item: Item): seq<string> {
    match item
    case Blank => [""]
    case Comment(text) => [text]
    case Block(name, version, hashes) => [PinLine(name, version)] + HashLines(hashes)
  }

  function FileLines(items: seq<Item>): seq<string> {
    if items == [] then []
    else FileLines(items[..|items| - 1]) + ItemLines(items[|items| - 1])
  }

  /** A pin as the gate reports it; `line` is the line it starts on, from 1. */
  datatype Pin = Pin(name: string, version: string, line: nat, hashes: seq<string>)

  function ItemPins(items: seq<Item>): seq<Pin> {
    if items == [] then []
    else
      var init, item := items[..|items| - 1], items[|items| - 1];
      if item.Block?
      then ItemPins(init) + [Pin(item.name, item.version, |FileLines(init)| + 1, item.hashes)]
      else ItemPins(init)
  }

  ghost predicate DistinctNames(pins: seq<Pin>) {
    forall i, j | 0 <= i < j < |pins| :: pins[i].name != pins[j].name
  }

  /** `lines` are the lines of a lockfile in uv's layout with these items. */
  ghost predicate Lays(lines: seq<string>, items: seq<Item>) {
    && lines == FileLines(items)
    && AllOk(items)
    && DistinctNames(ItemPins(items))
  }

  /** The whole file is a lockfile in uv's layout. */
  ghost predicate UvLayout(file: string, items: seq<Item>) {
    && (forall k | 0 <= k < |file| :: Printable(file[k]) || file[k] == '\n')
    && Lays(Lines(file), items)
  }

  lemma AllHashesSnoc(hashes: seq<string>, hash: string)
    requires AllHashes(hashes) && IsHash(hash)
    ensures AllHashes(hashes + [hash])
  {
  }

  lemma AllOkSnoc(items: seq<Item>, item: Item)
    ensures AllOk(items + [item]) <==> AllOk(items) && ItemOk(item)
  {
    var more := items + [item];
    assert more[|items|] == item && forall i | 0 <= i < |items| :: items[i] == more[i];
  }

  lemma FileLinesSnoc(items: seq<Item>, item: Item)
    ensures FileLines(items + [item]) == FileLines(items) + ItemLines(item)
    ensures ItemPins(items + [item])
            == if item.Block?
               then ItemPins(items) + [Pin(item.name, item.version, |FileLines(items)| + 1, item.hashes)]
               else ItemPins(items)
  {
    assert (items + [item])[..|items|] == items;
  }

  lemma {:induction false} OpenHashLinesOk(hashes: seq<string>)
    requires AllHashes(hashes)
    ensures forall i | 0 <= i < |OpenHashLines(hashes)| ::
              AllPrintable(OpenHashLines(hashes)[i]) && OneLine(OpenHashLines(hashes)[i])
  {
    if hashes != [] {
      var n := |hashes| - 1;
      OpenHashLinesOk(hashes[..n]);
      PrintedHashOk(hashes[n], true);
    }
  }

  lemma HashLinesOk(hashes: seq<string>)
    requires AllHashes(hashes)
    ensures forall i | 0 <= i < |HashLines(hashes)| ::
              AllPrintable(HashLines(hashes)[i]) && OneLine(HashLines(hashes)[i])
  {
    if hashes != [] {
      var n := |hashes| - 1;
      OpenHashLinesOk(hashes[..n]);
      PrintedHashOk(hashes[n], false);
    }
  }

  /** Every line of a lockfile in uv's layout is one line of printable ASCII. */
  lemma {:induction false} LaidLinesOk(items: seq<Item>)
    requires AllOk(items)
    ensures forall i | 0 <= i < |FileLines(items)| ::
              AllPrintable(FileLines(items)[i]) && OneLine(FileLines(items)[i])
  {
    if items != [] {
      var init, item := items[..|items| - 1], items[|items| - 1];
      assert ItemOk(item);
      LaidLinesOk(init);
      if item.Block? {
        PrintedLineOk(item.name, item.version);
        HashLinesOk(item.hashes);
      }
    }
  }

  /** Writing the lines of items gives a lockfile with these items. */
  lemma WrittenIsLaid(items: seq<Item>)
    requires AllOk(items) && DistinctNames(ItemPins(items))
    ensures UvLayout(Unlines(FileLines(items)), items)
  {
    LaidLinesOk(items);
    LinesUnlines(FileLines(items));
    LineChars(Unlines(FileLines(items)));
  }

  // ------------------------------------------------------------------ items as kinds

  function HashKinds(hashes: seq<string>): seq<Kind> {
    if hashes == [] then []
    else
      var n := |hashes| - 1;
      OpenHashKinds(hashes[..n]) + [Hash(hashes[n], false)]
  }

  /** The kinds of the hash lines of a block that is not finished yet. */
  function OpenHashKinds(hashes: seq<string>): seq<Kind> {
    if hashes == [] then []
    else
      var n := |hashes| - 1;
      OpenHashKinds(hashes[..n]) + [Hash(hashes[n], true)]
  }

  function ItemKinds(item: Item): seq<Kind> {
    match item
    case Blank => [Skip("")]
    case Comment(text) => [Skip(text)]
    case Block(name, version, hashes) => [Head(name, version)] + HashKinds(hashes)
  }

  function FileKinds(items: seq<Item>): seq<Kind> {
    if items == [] then []
    else FileKinds(items[..|items| - 1]) + ItemKinds(items[|items| - 1])
  }

  lemma FileKindsSnoc(items: seq<Item>, item: Item)
    ensures FileKinds(items + [item]) == FileKinds(items) + ItemKinds(item)
  {
    assert (items + [item])[..|items|] == items;
  }

  /** The lines are, one by one, the lines of these kinds. */
  ghost predicate Exact(kinds: seq<Kind>, lines: seq<string>) {
    && |kinds| == |lines|
    && forall i | 0 <= i < |kinds| :: KindOk(kinds[i]) && lines[i] == LineOf(kinds[i])
  }

  lemma ExactConcat(kinds: seq<Kind>, lines: seq<string>, kinds': seq<Kind>, lines': seq<string>)
    requires Exact(kinds, lines) && Exact(kinds', lines')
    ensures Exact(kinds + kinds', lines + lines')
  {
    var k, l := kinds + kinds', lines + lines';
    forall i | 0 <= i < |k| ensures KindOk(k[i]) && l[i] == LineOf(k[i]) {
      if i >= |kinds| {
        assert k[i] == kinds'[i - |kinds|] && l[i] == lines'[i - |kinds|];
      }
    }
  }

  lemma ItemKindsExact(item: Item)
    requires ItemOk(item)
    ensures Exact(ItemKinds(item), ItemLines(item))
  {
    if item.Block? {
      var head := Head(item.name, item.version);
      HashKindsExact(item.hashes);
      ExactConcat([head], [LineOf(head)], HashKinds(item.hashes), HashLines(item.hashes));
    }
  }

  lemma HashKindsExact(hashes: seq<string>)
    requires AllHashes(hashes)
    ensures Exact(HashKinds(hashes), HashLines(hashes))
  {
    if hashes != [] {
      var n := |hashes| - 1;
      var last := Hash(hashes[n], false);
      OpenKindsExact(hashes[..n]);
      ExactConcat(OpenHashKinds(hashes[..n]), OpenHashLines(hashes[..n]), [last], [LineOf(last)]);
    }
  }

  lemma {:induction false} OpenKindsExact(hashes: seq<string>)
    requires AllHashes(hashes)
    ensures Exact(OpenHashKinds(hashes), OpenHashLines(hashes))
  {
    if hashes != [] {
      var n := |hashes| - 1;
      var last := Hash(hashes[n], true);
      OpenKindsExact(hashes[..n]);
      ExactConcat(OpenHashKinds(hashes[..n]), OpenHashLines(hashes[..n]), [last], [LineOf(last)]);
    }
  }

  /** The lines of items, line by line. */
  lemma {:induction false} FileKindsExact(items: seq<Item>)
    requires AllOk(items)
    ensures Exact(FileKinds(items), FileLines(items))
  {
    if items != [] {
      var init, item := items[..|items| - 1], items[|items| - 1];
      assert ItemOk(item);
      FileKindsExact(init);
      ItemKindsExact(item);
      ExactConcat(FileKinds(init), FileLines(init), ItemKinds(item), ItemLines(item));
    }
  }

  lemma FileKindsLength(items: seq<Item>)
    requires AllOk(items)
    ensures |FileKinds(items)| == |FileLines(items)|
  {
    FileKindsExact(items);
  }

  /** Lines are laid out as items exactly when their kinds are those of the items. */
  lemma LaidByKinds(lines: seq<string>, items: seq<Item>)
    requires AllOk(items)
    ensures lines == FileLines(items) <==> Kinds(lines) == FileKinds(items)
  {
    FileKindsExact(items);
    var kinds := FileKinds(items);
    forall i | 0 <= i < |lines| && i < |kinds|
      ensures lines[i] == FileLines(items)[i] <==> Kinds(lines)[i] == kinds[i]
    {
      ClassifyExact(lines[i], kinds[i]);
    }
    if Kinds(lines) == kinds {
      assert |lines| == |Kinds(lines)|;
      assert forall i | 0 <= i < |lines| :: lines[i] == FileLines(items)[i];
    }
  }
}
