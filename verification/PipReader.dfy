/** How pip reads a requirements file, as the docstring of `scripts/lockfile_gate.py` puts it:
    it splits the text at every separator of `str.splitlines`, ignores white space around a
    line, drops comments, joins backslash continuations, and honours option lines and URL
    requirements.

    On the files the gate accepts this permissive reader sees the pins the gate reports and
    nothing else. */
module PipReader {
  import opened Text
  import opened LockGrammar
  import LockParse

  // ------------------------------------------------------------------ physical lines

  /** `\n \r \v \f`, `\x1c`-`\x1e`, `\x85`, U+2028 and U+2029. */
  predicate LineBreak(c: char) {
    '\n' <= c <= '\r' || '\U{1C}' <= c <= '\U{1E}' || c == '\U{85}' || c == '\U{2028}' || c == '\U{2029}'
  }

  /** `str.splitlines()`; `\r\n` is one separator. */
  function SplitLines(s: string): (lines: seq<string>)
    ensures s != "" ==> lines != []
  {
    if s == "" then []
    else if LineBreak(s[0]) then
      var skip := if s[0] == '\r' && |s| > 1 && s[1] == '\n' then 2 else 1;
      [""] + SplitLines(s[skip..])
    else
      var rest := SplitLines(s[1..]);
      if rest == [] then [[s[0]]] else [[s[0]] + rest[0]] + rest[1..]
  }

  // ------------------------------------------------------------------ logical lines

  /** A line that is nothing but a comment is never continued. */
  predicate CommentLine(line: string) {
    exists k | 0 <= k < |line| :: line[k] == '#' && forall i | 0 <= i < k :: IsSpace(line[i])
  }

  function StripBackslashes(s: string): string {
    if s == "" then ""
    else if s[0] == '\\' then StripBackslashes(s[1..])
    else if s[|s| - 1] == '\\' then StripBackslashes(s[..|s| - 1])
    else s
  }

  function Concat(parts: seq<string>): string {
    if parts == [] then "" else Concat(parts[..|parts| - 1]) + parts[|parts| - 1]
  }

  /** The logical lines so far, and the parts of the one being continued. */
  datatype Joining = Joining(out: seq<string>, parts: seq<string>)

  function JoinStep(st: Joining, line: string): Joining {
    if EndsWith(line, "\\") && !CommentLine(line) then
      st.(parts := st.parts + [StripBackslashes(line)])
    else
      var text := if CommentLine(line) then " " + line else line;
      Joining(st.out + [if st.parts == [] then text else Concat(st.parts + [text])], [])
  }

  function JoinRun(lines: seq<string>): Joining {
    if lines == [] then Joining([], [])
    else JoinStep(JoinRun(lines[..|lines| - 1]), lines[|lines| - 1])
  }

  function LogicalLines(lines: seq<string>): seq<string> {
    var st := JoinRun(lines);
    st.out + if st.parts == [] then [] else [Concat(st.parts)]
  }

  /** Where a comment starts: a `#` at the start or after white space. */
  function CommentStart(s: string, from: nat): (k: nat)
    requires from <= |s|
    ensures from <= k <= |s|
    decreases |s| - from
  {
    if from == |s| || (s[from] == '#' && (from == 0 || IsSpace(s[from - 1]))) then from
    else CommentStart(s, from + 1)
  }

  function Content(line: string): string {
    Strip(line[..CommentStart(line, 0)])
  }

  // ------------------------------------------------------------------ requirements

  datatype Requirement =
    | Named(spec: string, options: seq<string>)
    | Url(words: seq<string>)
    | GlobalOption(words: seq<string>)

  predicate IsOption(word: string) {
    StartsWith(word, "-")
  }

  /** A direct reference: `name @ url`, or a bare URL or path. */
  predicate IsDirect(word: string) {
    Has(word, '@') || Has(word, '/')
  }

  /** How many leading words are not options. */
  function Arguments(words: seq<string>): (n: nat)
    ensures n <= |words|
  {
    if words == [] || IsOption(words[0]) then 0 else 1 + Arguments(words[1..])
  }

  function Spaced(words: seq<string>): string {
    if words == [] then "" else if |words| == 1 then words[0] else words[0] + " " + Spaced(words[1..])
  }

  function ReadRequirement(content: string): Requirement {
    var words := Words(content);
    var n := Arguments(words);
    if n == 0 then GlobalOption(words)
    else if exists i | 0 <= i < n :: IsDirect(words[i]) then Url(words)
    else Named(Spaced(words[..n]), words[n..])
  }

  function Requirements(lines: seq<string>): seq<Requirement> {
    if lines == [] then []
    else
      var n := |lines| - 1;
      var content := Content(lines[n]);
      if content == "" then Requirements(lines[..n])
      else Requirements(lines[..n]) + [ReadRequirement(content)]
  }

  /** Everything pip takes from the text. */
  function PipReads(text: string): seq<Requirement> {
    Requirements(LogicalLines(SplitLines(text)))
  }

  // ------------------------------------------------------------------ what is expected

  function HashOptions(hashes: seq<string>): seq<string> {
    if hashes == [] then []
    else
      var n := |hashes| - 1;
      HashOptions(hashes[..n]) + ["--hash=sha256:" + hashes[n]]
  }

  /** A pin as a requirement: exactly this version, with exactly these hashes. */
  function PinRequirement(pin: Pin): Requirement {
    Named(pin.name + "==" + pin.version, HashOptions(pin.hashes))
  }

  function PinRequirements(pins: seq<Pin>): seq<Requirement> {
    if pins == [] then []
    else
      var n := |pins| - 1;
      PinRequirements(pins[..n]) + [PinRequirement(pins[n])]
  }

  // ------------------------------------------------------------------ the lines agree

  /** On printable ASCII and line feeds, pip's lines are the gate's lines. */
  lemma {:induction false} SameLines(s: string)
    requires forall k | 0 <= k < |s| :: Printable(s[k]) || s[k] == '\n'
    ensures SplitLines(s) == Lines(s)
  {
    if s != "" {
      var t := s[1..];
      assert forall k | 0 <= k < |t| :: t[k] == s[k + 1];
      SameLines(t);
      assert Printable(s[0]) || s[0] == '\n';
      var pieces := Split(t);
      assert pieces == [""] <==> t == "";
      if s[0] == '\n' {
        assert Split(s) == [""] + pieces;
        assert Lines(s) == [""] + Lines(t);
      } else {
        assert Split(s) == [[s[0]] + pieces[0]] + pieces[1..];
        assert [s[0]] + "" == [s[0]];
        if t != "" {
          assert Lines(t)[0] == pieces[0];
          assert Lines(s) == [[s[0]] + Lines(t)[0]] + Lines(t)[1..];
        }
      }
    }
  }

  // ------------------------------------------------------------------ one block

  function PinPart(name: string, version: string): string {
    name + "==" + version + " "
  }

  function HashPart(hash: string): string {
    HashPrefix + hash
  }

  /** The parts of a pin line and of hash lines that are continued. */
  function BlockParts(name: string, version: string, hashes: seq<string>): seq<string> {
    if hashes == [] then [PinPart(name, version)]
    else
      var n := |hashes| - 1;
      BlockParts(name, version, hashes[..n]) + [HashPart(hashes[n]) + " "]
  }

  lemma BackslashStripped(body: string)
    requires body != "" && body[0] != '\\' && body[|body| - 1] != '\\'
    ensures StripBackslashes(body + "\\") == body
  {
    assert (body + "\\")[..|body|] == body;
    assert StripBackslashes(body) == body;
  }

  lemma ContinuedPin(name: string, version: string)
    requires IsName(name) && IsVersion(version)
    ensures var line := PinLine(name, version);
            EndsWith(line, "\\") && !CommentLine(line) && StripBackslashes(line) == PinPart(name, version)
  {
    var line := PinLine(name, version);
    assert line == PinPart(name, version) + "\\";
    assert line[0] == name[0];
    BackslashStripped(PinPart(name, version));
  }

  lemma ContinuedHash(hash: string, more: bool)
    requires IsHash(hash)
    ensures var line := HashLine(hash, more);
            && !CommentLine(line)
            && (more ==> EndsWith(line, "\\") && StripBackslashes(line) == HashPart(hash) + " ")
            && (!more ==> !EndsWith(line, "\\") && line == HashPart(hash))
  {
    var line := HashLine(hash, more);
    assert line[4] == '-';
    if more {
      assert line == (HashPart(hash) + " ") + "\\";
      BackslashStripped(HashPart(hash) + " ");
    } else {
      assert line == HashPart(hash);
      assert HexChar(hash[63]);
      assert line[|line| - 1..] == [hash[63]];
    }
  }

  lemma JoinSnoc(lines: seq<string>, line: string)
    ensures JoinRun(lines + [line]) == JoinStep(JoinRun(lines), line)
  {
    assert (lines + [line])[..|lines|] == lines;
  }

  lemma {:induction false} JoinHashes(lines: seq<string>, name: string, version: string, hashes: seq<string>)
    requires AllHashes(hashes)
    requires JoinRun(lines).parts == BlockParts(name, version, [])
    ensures JoinRun(lines + OpenHashLines(hashes))
            == Joining(JoinRun(lines).out, BlockParts(name, version, hashes))
  {
    if hashes == [] {
      assert lines + OpenHashLines(hashes) == lines;
    } else {
      var n := |hashes| - 1;
      JoinHashes(lines, name, version, hashes[..n]);
      var before := lines + OpenHashLines(hashes[..n]);
      assert lines + OpenHashLines(hashes) == before + [HashLine(hashes[n], true)];
      JoinSnoc(before, HashLine(hashes[n], true));
      ContinuedHash(hashes[n], true);
    }
  }

  /** The logical line a block is joined to. */
  function BlockText(name: string, version: string, hashes: seq<string>): string
    requires hashes != []
  {
    var n := |hashes| - 1;
    Concat(BlockParts(name, version, hashes[..n]) + [HashPart(hashes[n])])
  }

  lemma JoinBlock(lines: seq<string>, name: string, version: string, hashes: seq<string>)
    requires IsName(name) && IsVersion(version) && AllHashes(hashes) && hashes != []
    requires JoinRun(lines).parts == []
    ensures JoinRun(lines + ItemLines(Block(name, version, hashes)))
            == Joining(JoinRun(lines).out + [BlockText(name, version, hashes)], [])
  {
    var n := |hashes| - 1;
    var head, last := PinLine(name, version), HashLine(hashes[n], false);
    JoinSnoc(lines, head);
    ContinuedPin(name, version);
    JoinHashes(lines + [head], name, version, hashes[..n]);
    var before := lines + [head] + OpenHashLines(hashes[..n]);
    assert lines + ItemLines(Block(name, version, hashes)) == before + [last] by {
      LockParse.Regroup(lines, [head], OpenHashLines(hashes[..n]), [last]);
      assert ItemLines(Block(name, version, hashes)) == [head] + (OpenHashLines(hashes[..n]) + [last]);
    }
    JoinSnoc(before, last);
    ContinuedHash(hashes[n], false);
    PartsNonempty(name, version, hashes[..n]);
  }

  lemma {:induction false} PartsNonempty(name: string, version: string, hashes: seq<string>)
    ensures BlockParts(name, version, hashes) != []
  {
  }

  // ------------------------------------------------------------------ the words of a block

  lemma ConcatSnoc(parts: seq<string>, part: string)
    ensures Concat(parts + [part]) == Concat(parts) + part
  {
    assert (parts + [part])[..|parts|] == parts;
  }

  ghost predicate BlockChars(s: string) {
    forall i | 0 <= i < |s| :: Printable(s[i]) && s[i] != '#'
  }

  lemma SpecIsWord(name: string, version: string)
    requires IsName(name) && IsVersion(version)
    ensures var spec := name + "==" + version;
            IsWord(spec) && !IsOption(spec) && !IsDirect(spec) && BlockChars(spec)
  {
    var spec := name + "==" + version;
    assert spec[0] == name[0];
    forall i | 0 <= i < |spec|
      ensures !IsSpace(spec[i]) && spec[i] != '@' && spec[i] != '/' && Printable(spec[i]) && spec[i] != '#'
    {
      if i < |name| {
        assert spec[i] == name[i];
      } else if i >= |name| + 2 {
        assert spec[i] == version[i - |name| - 2];
      }
    }
  }

  lemma HashIsWord(hash: string)
    requires IsHash(hash)
    ensures var word := "--hash=sha256:" + hash;
            IsWord(word) && IsOption(word) && HashPart(hash) == "    " + word && BlockChars(HashPart(hash))
  {
    var word := "--hash=sha256:" + hash;
    assert forall i | 0 <= i < |hash| :: HexChar(hash[i]);
    assert forall i | 14 <= i < |word| :: word[i] == hash[i - 14];
    assert forall i | 0 <= i < |word| :: !IsSpace(word[i]) && Printable(word[i]) && word[i] != '#';
  }

  /** Appending a hash part to a text appends one word. */
  lemma WordsHashPart(s: string, hash: string)
    requires IsHash(hash)
    ensures Words(s + HashPart(hash)) == Words(s) + ["--hash=sha256:" + hash]
  {
    HashIsWord(hash);
    var word := "--hash=sha256:" + hash;
    assert s + HashPart(hash) == s + "    " + word;
    WordsPadWord(s, "    ", word, s + HashPart(hash));
  }

  lemma {:induction false} WordsOfParts(name: string, version: string, hashes: seq<string>)
    requires IsName(name) && IsVersion(version) && AllHashes(hashes)
    ensures var s := Concat(BlockParts(name, version, hashes));
            && s != "" && s[0] == name[0] && s[|s| - 1] == ' '
            && Words(s) == [name + "==" + version] + HashOptions(hashes)
            && BlockChars(s)
  {
    if hashes == [] {
      WordsOfPinPart(name, version);
      assert [] + [PinPart(name, version)] == [PinPart(name, version)];
      ConcatSnoc([], PinPart(name, version));
      assert "" + PinPart(name, version) == PinPart(name, version);
    } else {
      var n := |hashes| - 1;
      var before := Concat(BlockParts(name, version, hashes[..n]));
      WordsOfParts(name, version, hashes[..n]);
      ConcatSnoc(BlockParts(name, version, hashes[..n]), HashPart(hashes[n]) + " ");
      WordsOfHashPart(before, hashes[n], before + (HashPart(hashes[n]) + " "));
    }
  }

  lemma WordsOfPinPart(name: string, version: string)
    requires IsName(name) && IsVersion(version)
    ensures var s := PinPart(name, version);
            && s != "" && s[0] == name[0] && s[|s| - 1] == ' '
            && Words(s) == [name + "==" + version] && BlockChars(s)
  {
    var spec := name + "==" + version;
    SpecIsWord(name, version);
    WordsTrailing(spec);
    WordsCons(spec, "");
    assert spec + "" == spec;
  }

  lemma WordsOfHashPart(before: string, hash: string, whole: string)
    requires IsHash(hash) && BlockChars(before) && whole == before + (HashPart(hash) + " ")
    ensures whole != "" && whole[|whole| - 1] == ' ' && BlockChars(whole)
    ensures Words(whole) == Words(before) + ["--hash=sha256:" + hash]
  {
    HashIsWord(hash);
    WordsHashPart(before, hash);
    WordsTrailing(before + HashPart(hash));
    assert whole == before + HashPart(hash) + " ";
  }

  lemma WordsOfBlock(name: string, version: string, hashes: seq<string>)
    requires IsName(name) && IsVersion(version) && AllHashes(hashes) && hashes != []
    ensures var s := BlockText(name, version, hashes);
            && s != "" && Stripped(s) && BlockChars(s)
            && Words(s) == [name + "==" + version] + HashOptions(hashes)
  {
    var n := |hashes| - 1;
    var before := Concat(BlockParts(name, version, hashes[..n]));
    WordsOfParts(name, version, hashes[..n]);
    WordsHashPart(before, hashes[n]);
    ConcatSnoc(BlockParts(name, version, hashes[..n]), HashPart(hashes[n]));
    NameStartsBlock(before, name, hashes[n]);
  }

  lemma NameStartsBlock(before: string, name: string, hash: string)
    requires before != "" && IsName(name) && before[0] == name[0] && IsHash(hash) && BlockChars(before)
    ensures var s := before + HashPart(hash); s != "" && Stripped(s) && BlockChars(s)
  {
    var s := before + HashPart(hash);
    HashIsWord(hash);
    assert HexChar(hash[63]) && s[|s| - 1] == hash[63];
    assert LowerAlnum(name[0]) && s[0] == name[0];
  }

  lemma {:induction false} NoComment(s: string, from: nat)
    requires from <= |s| && BlockChars(s)
    ensures CommentStart(s, from) == |s|
    decreases |s| - from
  {
    if from < |s| {
      NoComment(s, from + 1);
    }
  }

  lemma {:induction false} OptionsOnly(hashes: seq<string>)
    requires AllHashes(hashes)
    ensures forall i | 0 <= i < |HashOptions(hashes)| :: IsOption(HashOptions(hashes)[i])
  {
    if hashes != [] {
      var n := |hashes| - 1;
      OptionsOnly(hashes[..n]);
      HashIsWord(hashes[n]);
    }
  }

  /** pip takes a block for the one requirement its pin stands for. */
  lemma BlockRead(name: string, version: string, hashes: seq<string>)
    requires IsName(name) && IsVersion(version) && AllHashes(hashes) && hashes != []
    ensures var content := Content(BlockText(name, version, hashes));
            && content != ""
            && ReadRequirement(content) == Named(name + "==" + version, HashOptions(hashes))
  {
    var s := BlockText(name, version, hashes);
    WordsOfBlock(name, version, hashes);
    NoComment(s, 0);
    assert s[..|s|] == s;
    StripIdentity(s);
    SpecIsWord(name, version);
    OptionsOnly(hashes);
    SpecAndOptions(Words(s), name + "==" + version, HashOptions(hashes));
  }

  lemma SpecAndOptions(words: seq<string>, spec: string, options: seq<string>)
    requires words == [spec] + options
    requires !IsOption(spec) && !IsDirect(spec)
    requires forall i | 0 <= i < |options| :: IsOption(options[i])
    ensures Arguments(words) == 1 && words[..1] == [spec] && words[1..] == options
  {
    assert words[1..] == options;
    assert Arguments(options) == 0;
  }

  // ------------------------------------------------------------------ blanks and comments

  lemma {:induction false} CommentFound(s: string, from: nat, k: nat)
    requires from <= k < |s| && s[k] == '#'
    requires k == 0 || IsSpace(s[k - 1])
    requires forall i | from <= i < k :: s[i] != '#'
    ensures CommentStart(s, from) == k
    decreases k - from
  {
    if from < k {
      CommentFound(s, from + 1, k);
    }
  }

  lemma CommentDropped(text: string)
    requires IsComment(text)
    ensures CommentLine(text) && Content(" " + text) == ""
  {
    var k :| 0 <= k < |text| && text[k] == '#' && forall i | 0 <= i < k :: text[i] == ' ';
    var s := " " + text;
    assert s[k + 1] == '#' && forall i | 0 <= i < k + 1 :: s[i] == ' ';
    CommentFound(s, 0, k + 1);
    SpacesStripped(s[..k + 1]);
  }

  lemma JoinSkip(lines: seq<string>, item: Item)
    requires ItemOk(item) && !item.Block? && JoinRun(lines).parts == []
    ensures var st := JoinRun(lines + ItemLines(item));
            && st.parts == []
            && st.out == JoinRun(lines).out + [if item.Blank? then "" else " " + item.text]
  {
    JoinSnoc(lines, ItemLines(item)[0]);
    if item.Comment? {
      CommentDropped(item.text);
    }
  }

  // ------------------------------------------------------------------ what pip would notice

  /** The separators of `str.splitlines`, by their codes. */
  predicate BreakCode(c: char) {
    var code := c as int;
    0x0A <= code <= 0x0D || 0x1C <= code <= 0x1E || code == 0x85 || code == 0x2028 || code == 0x2029
  }

  predicate Unbroken(line: string) {
    forall i | 0 <= i < |line| :: !BreakCode(line[i])
  }

  /** At each of them a line ends, once for a carriage return with its line feed. */
  lemma {:induction false} EveryBreakSplits(line: string, c: char, rest: string)
    requires Unbroken(line) && BreakCode(c)
    ensures !(c == '\r' && rest != "" && rest[0] == '\n') ==> SplitLines(line + [c] + rest) == [line] + SplitLines(rest)
    ensures c == '\r' && rest != "" && rest[0] == '\n' ==> SplitLines(line + [c] + rest) == [line] + SplitLines(rest[1..])
  {
    var s := line + [c] + rest;
    if line == "" {
      assert s == [c] + rest && s[1..] == rest;
      assert s[0] == '\r' && |s| > 1 ==> s[1] == rest[0];
      assert rest != "" ==> s[2..] == rest[1..];
    } else {
      assert forall i | 0 <= i < |line[1..]| :: line[1..][i] == line[i + 1];
      assert !BreakCode(line[0]) && s[0] == line[0];
      EveryBreakSplits(line[1..], c, rest);
      assert s[1..] == line[1..] + [c] + rest;
      assert [line[0]] + line[1..] == line;
    }
  }

  lemma {:induction false} NoBreakNoSplit(line: string)
    requires Unbroken(line) && line != ""
    ensures SplitLines(line) == [line]
  {
    assert !BreakCode(line[0]);
    if |line| == 1 {
      assert line[1..] == "" && [line[0]] == line;
    } else {
      assert forall i | 0 <= i < |line[1..]| :: line[1..][i] == line[i + 1];
      NoBreakNoSplit(line[1..]);
      assert [line[0]] + line[1..] == line;
    }
  }

  /** A line that starts with a dash is an option of the whole file, and one whose first word holds a
      slash or an at sign names no version. */
  lemma OptionsAndUrlsNoticed(content: string)
    requires content != "" && !IsSpace(content[0])
    ensures content[0] == '-' ==> ReadRequirement(content).GlobalOption?
    ensures var word := FirstWord(content);
            content[0] != '-' && ('/' in word || '@' in word) ==> ReadRequirement(content).Url?
  {
    var words, i := Words(content), WordEnd(content);
    assert i > 0 && words == [content[..i]] + Words(content[i..]);
    assert content[..i][0] == content[0];
    assert IsOption(words[0]) <==> words[0][0] == '-' by {
      assert StartsWith(words[0], "-") <==> words[0][..1] == "-";
      assert words[0][..1] == [words[0][0]];
    }
    if content[0] != '-' && ('/' in words[0] || '@' in words[0]) {
      assert IsDirect(words[0]) && Arguments(words) > 0;
    }
  }

  // ------------------------------------------------------------------ the files agree

  lemma RequirementsSnoc(lines: seq<string>, line: string)
    ensures Requirements(lines + [line])
            == if Content(line) == "" then Requirements(lines)
               else Requirements(lines) + [ReadRequirement(Content(line))]
  {
    assert (lines + [line])[..|lines|] == lines;
  }

  lemma PinRequirementsSnoc(pins: seq<Pin>, pin: Pin)
    ensures PinRequirements(pins + [pin]) == PinRequirements(pins) + [PinRequirement(pin)]
  {
    assert (pins + [pin])[..|pins|] == pins;
  }

  /** After any number of items pip is between two logical lines and has seen their pins. */
  ghost predicate ReadAs(items: seq<Item>) {
    var st := JoinRun(FileLines(items));
    st.parts == [] && Requirements(st.out) == PinRequirements(ItemPins(items))
  }

  lemma ReadItem(items: seq<Item>, item: Item)
    requires ReadAs(items) && ItemOk(item)
    ensures ReadAs(items + [item])
  {
    var lines := FileLines(items);
    var out := JoinRun(lines).out;
    FileLinesSnoc(items, item);
    if item.Block? {
      JoinBlock(lines, item.name, item.version, item.hashes);
      BlockRead(item.name, item.version, item.hashes);
      RequirementsSnoc(out, BlockText(item.name, item.version, item.hashes));
      PinRequirementsSnoc(ItemPins(items), Pin(item.name, item.version, |lines| + 1, item.hashes));
    } else {
      JoinSkip(lines, item);
      RequirementsSnoc(out, if item.Blank? then "" else " " + item.text);
      if item.Comment? {
        CommentDropped(item.text);
      }
    }
  }

  lemma {:induction false} ReadItems(items: seq<Item>)
    requires AllOk(items)
    ensures ReadAs(items)
  {
    if items != [] {
      var init, item := items[..|items| - 1], items[|items| - 1];
      assert init + [item] == items && ItemOk(item);
      ReadItems(init);
      ReadItem(init, item);
    }
  }

  /** The gate's claim: on a file it accepts, pip sees exactly one requirement for each pin,
      in order, with exactly that pin's version and hashes, and no option or URL line. */
  lemma TwoReadersAgree(file: string)
    requires LockParse.Accepts(file)
    ensures PipReads(file) == PinRequirements(LockParse.ParsedPins(file))
  {
    var items := LockParse.AcceptedItems(file);
    SameLines(file);
    ReadItems(items);
    var out := JoinRun(Lines(file)).out;
    assert out + [] == out;
  }
}
