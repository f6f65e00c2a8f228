/** `scripts/check-lockfiles.sh`, `pins()` and `hashes()`: the readers that look at column 1,
    which the script calls exact once the gate has accepted the file. Both end in `sort`, so
    what counts is their output as a multiset. */
module ShellReader {
  import opened Text
  import opened LockGrammar
  import LockParse
  import PipReader

  /** `^[A-Za-z0-9]` */
  predicate ColumnOne(line: string) {
    line != "" && (LowerAlnum(line[0]) || 'A' <= line[0] <= 'Z')
  }

  /** `grep -E '^[A-Za-z0-9]' | cut -d' ' -f1` */
  function PinColumn(lines: seq<string>): seq<string> {
    if lines == [] then []
    else
      var n := |lines| - 1;
      if ColumnOne(lines[n]) then PinColumn(lines[..n]) + [lines[n][..Find(lines[n], ' ')]]
      else PinColumn(lines[..n])
  }

  datatype Hit = Hit(pin: string, word: string)

  /** awk's variable `pin` and what it has printed. */
  datatype Awk = Awk(pin: string, out: seq<Hit>)

  /** `/^[A-Za-z0-9]/ { pin = $1 } /--hash=/ { print pin, $1 }` */
  function AwkStep(st: Awk, line: string): Awk {
    var pin := if ColumnOne(line) then FirstWord(line) else st.pin;
    Awk(pin, if Contains(line, "--hash=") then st.out + [Hit(pin, FirstWord(line))] else st.out)
  }

  function AwkRun(lines: seq<string>): Awk {
    if lines == [] then Awk("", [])
    else AwkStep(AwkRun(lines[..|lines| - 1]), lines[|lines| - 1])
  }

  // ------------------------------------------------------------------ what is expected

  function Spec(name: string, version: string): string {
    name + "==" + version
  }

  function Specs(pins: seq<Pin>): seq<string> {
    if pins == [] then []
    else
      var n := |pins| - 1;
      Specs(pins[..n]) + [Spec(pins[n].name, pins[n].version)]
  }

  function Hits(spec: string, hashes: seq<string>): seq<Hit> {
    if hashes == [] then []
    else
      var n := |hashes| - 1;
      Hits(spec, hashes[..n]) + [Hit(spec, "--hash=sha256:" + hashes[n])]
  }

  /** Every hash of every pin, once for each time it is listed. */
  function PinHits(pins: seq<Pin>): multiset<Hit> {
    if pins == [] then multiset{}
    else
      var n := |pins| - 1;
      PinHits(pins[..n]) + multiset(Hits(Spec(pins[n].name, pins[n].version), pins[n].hashes))
  }

  /** An item with a line that awk takes for a hash line although it is none: a comment that
      mentions a hash option, or a pin whose name ends in `--hash`. */
  predicate Misread(item: Item) {
    match item
    case Blank => false
    case Comment(text) => Contains(text, "--hash=")
    case Block(name, _, _) => EndsWith(name, "--hash")
  }

  // ------------------------------------------------------------------ single lines

  lemma ContainsNeedsHash(name: string, version: string)
    requires IsName(name) && IsVersion(version)
    ensures Contains(PinLine(name, version), "--hash=") <==> EndsWith(name, "--hash")
  {
    var line := PinLine(name, version);
    if EndsWith(name, "--hash") {
      NameGivesOption(name, "==" + version + " \\");
      assert line == name + ("==" + version + " \\");
    }
    if i :| 0 <= i <= |line| && StartsWith(line[i..], "--hash=") {
      OptionNeedsName(name, version, i);
    }
  }

  lemma NameGivesOption(name: string, rest: string)
    requires EndsWith(name, "--hash") && rest != "" && rest[0] == '='
    ensures Contains(name + rest, "--hash=")
  {
    var i := |name| - 6;
    var tail := (name + rest)[i..];
    assert tail[..6] == name[i..];
    assert tail[..7] == tail[..6] + [tail[6]];
    assert StartsWith(tail, "--hash=");
  }

  lemma OptionNeedsName(name: string, version: string, i: nat)
    requires IsName(name) && IsVersion(version)
    requires i <= |PinLine(name, version)| && StartsWith(PinLine(name, version)[i..], "--hash=")
    ensures EndsWith(name, "--hash")
  {
    var line := PinLine(name, version);
    var tail := line[i..];
    assert tail[..7][6] == '=' && tail[..7][5] == 'h';
    assert line[i + 6] == '=' && line[i + 5] == 'h';
    EqualsOnlyInTheMiddle(name, version, i + 6);
    assert line[|name|] == '=';
    assert name[i..] == tail[..6] == tail[..7][..6];
  }

  lemma EqualsOnlyInTheMiddle(name: string, version: string, k: nat)
    requires IsName(name) && IsVersion(version)
    requires k < |PinLine(name, version)| && PinLine(name, version)[k] == '='
    ensures k == |name| || k == |name| + 1
  {
    var line, n := PinLine(name, version), |name|;
    assert forall j | 0 <= j < n :: line[j] == name[j];
    assert forall j | 0 <= j < |version| :: line[n + 2 + j] == version[j];
  }

  lemma PinLineRead(name: string, version: string)
    requires IsName(name) && IsVersion(version)
    ensures var line := PinLine(name, version);
            && ColumnOne(line) && FirstWord(line) == Spec(name, version)
            && line[..Find(line, ' ')] == Spec(name, version)
  {
    var line, spec := PinLine(name, version), Spec(name, version);
    PipReader.SpecIsWord(name, version);
    PrintedLineOk(name, version);
    assert line == spec + " \\";
    WordsCons(spec, " \\");
    assert forall k | 0 <= k < |spec| :: line[k] == spec[k] && !IsSpace(spec[k]);
    FindIs(line, ' ', |spec|);
  }

  lemma HashLineRead(hash: string, more: bool)
    requires IsHash(hash)
    ensures var line := HashLine(hash, more);
            && !ColumnOne(line) && Contains(line, "--hash=")
            && FirstWord(line) == "--hash=sha256:" + hash
  {
    var line, word := HashLine(hash, more), "--hash=sha256:" + hash;
    var tail := if more then " \\" else "";
    PipReader.HashIsWord(hash);
    assert line == "    " + (word + tail);
    WordsLeading("    ", word + tail);
    WordsCons(word, tail);
    assert line[4..][..7] == "--hash=";
    assert StartsWith(line[4..], "--hash=");
  }

  lemma SkippedLine(text: string)
    requires text == "" || IsComment(text)
    ensures !ColumnOne(text)
    ensures text == "" ==> !Contains(text, "--hash=")
  {
  }

  // ------------------------------------------------------------------ whole files

  lemma ColumnSnoc(lines: seq<string>, line: string)
    ensures PinColumn(lines + [line])
            == if ColumnOne(line) then PinColumn(lines) + [line[..Find(line, ' ')]] else PinColumn(lines)
  {
    assert (lines + [line])[..|lines|] == lines;
  }

  lemma AwkSnoc(lines: seq<string>, line: string)
    ensures AwkRun(lines + [line]) == AwkStep(AwkRun(lines), line)
  {
    assert (lines + [line])[..|lines|] == lines;
  }

  /** A hash line adds nothing to the pin column and one hit to awk's output. */
  lemma HashLineStep(lines: seq<string>, hash: string, more: bool)
    requires IsHash(hash)
    ensures PinColumn(lines + [HashLine(hash, more)]) == PinColumn(lines)
    ensures var st, st' := AwkRun(lines), AwkRun(lines + [HashLine(hash, more)]);
            st'.pin == st.pin && st'.out == st.out + [Hit(st.pin, "--hash=sha256:" + hash)]
  {
    ColumnSnoc(lines, HashLine(hash, more));
    AwkSnoc(lines, HashLine(hash, more));
    HashLineRead(hash, more);
  }

  lemma {:induction false} OpenHashSteps(lines: seq<string>, hashes: seq<string>)
    requires AllHashes(hashes)
    ensures PinColumn(lines + OpenHashLines(hashes)) == PinColumn(lines)
    ensures var st, st' := AwkRun(lines), AwkRun(lines + OpenHashLines(hashes));
            st'.pin == st.pin && st'.out == st.out + Hits(st.pin, hashes)
  {
    if hashes == [] {
      assert lines + OpenHashLines(hashes) == lines;
    } else {
      var init, last := hashes[..|hashes| - 1], hashes[|hashes| - 1];
      OpenHashSteps(lines, init);
      HashLineStep(lines + OpenHashLines(init), last, true);
      assert init + [last] == hashes;
      OpenHashSnoc(lines, init, last);
      HitsSnoc(AwkRun(lines), init, last);
    }
  }

  lemma OpenHashSnoc(lines: seq<string>, hashes: seq<string>, hash: string)
    ensures lines + OpenHashLines(hashes + [hash]) == lines + OpenHashLines(hashes) + [HashLine(hash, true)]
  {
    assert (hashes + [hash])[..|hashes|] == hashes;
  }

  lemma HitsSnoc(st: Awk, hashes: seq<string>, hash: string)
    ensures st.out + Hits(st.pin, hashes + [hash])
            == st.out + Hits(st.pin, hashes) + [Hit(st.pin, "--hash=sha256:" + hash)]
  {
    assert (hashes + [hash])[..|hashes|] == hashes;
  }

  lemma HashSteps(lines: seq<string>, hashes: seq<string>)
    requires AllHashes(hashes) && hashes != []
    ensures PinColumn(lines + HashLines(hashes)) == PinColumn(lines)
    ensures var st, st' := AwkRun(lines), AwkRun(lines + HashLines(hashes));
            st'.pin == st.pin && st'.out == st.out + Hits(st.pin, hashes)
  {
    var n := |hashes| - 1;
    OpenHashSteps(lines, hashes[..n]);
    var open, last := OpenHashLines(hashes[..n]), [HashLine(hashes[n], false)];
    LockParse.Regroup(lines, [], open, last);
    assert lines + HashLines(hashes) == lines + open + last;
    HashLineStep(lines + open, hashes[n], false);
    var st := AwkRun(lines);
    LockParse.Regroup(st.out, [], Hits(st.pin, hashes[..n]), [Hit(st.pin, "--hash=sha256:" + hashes[n])]);
  }

  /** What an item adds to awk's output besides the hashes of its pin. */
  function Noise(pin: string, item: Item): seq<Hit> {
    if !Misread(item) then []
    else
      match item
      case Blank => []
      case Comment(text) => [Hit(pin, FirstWord(text))]
      case Block(name, version, _) => [Hit(Spec(name, version), Spec(name, version))]
  }

  lemma PinLineStep(lines: seq<string>, item: Item)
    requires ItemOk(item) && item.Block?
    ensures var line, spec := PinLine(item.name, item.version), Spec(item.name, item.version);
            && PinColumn(lines + [line]) == PinColumn(lines) + [spec]
            && AwkRun(lines + [line]).pin == spec
            && AwkRun(lines + [line]).out == AwkRun(lines).out + Noise(AwkRun(lines).pin, item)
  {
    var line := PinLine(item.name, item.version);
    ColumnSnoc(lines, line);
    AwkSnoc(lines, line);
    PinLineRead(item.name, item.version);
    ContainsNeedsHash(item.name, item.version);
  }

  lemma BlockStep(lines: seq<string>, item: Item)
    requires ItemOk(item) && item.Block?
    ensures PinColumn(lines + ItemLines(item)) == PinColumn(lines) + [Spec(item.name, item.version)]
    ensures var st, st' := AwkRun(lines), AwkRun(lines + ItemLines(item));
            st'.out == st.out + Noise(st.pin, item) + Hits(Spec(item.name, item.version), item.hashes)
  {
    var head := lines + [PinLine(item.name, item.version)];
    PinLineStep(lines, item);
    HashSteps(head, item.hashes);
    BlockLines(lines, item);
  }

  lemma BlockLines(lines: seq<string>, item: Item)
    requires item.Block?
    ensures lines + ItemLines(item) == lines + [PinLine(item.name, item.version)] + HashLines(item.hashes)
  {
    LockParse.Regroup(lines, [], [PinLine(item.name, item.version)], HashLines(item.hashes));
  }

  lemma SkipStep(lines: seq<string>, item: Item)
    requires ItemOk(item) && !item.Block?
    ensures PinColumn(lines + ItemLines(item)) == PinColumn(lines)
    ensures var st, st' := AwkRun(lines), AwkRun(lines + ItemLines(item));
            st'.out == st.out + Noise(st.pin, item)
  {
    var line := if item.Blank? then "" else item.text;
    assert ItemLines(item) == [line];
    ColumnSnoc(lines, line);
    AwkSnoc(lines, line);
    SkippedLine(line);
    assert Noise(AwkRun(lines).pin, item)
        == if Misread(item) then [Hit(AwkRun(lines).pin, FirstWord(line))] else [];
  }

  lemma SpecsSnoc(pins: seq<Pin>, pin: Pin)
    ensures Specs(pins + [pin]) == Specs(pins) + [Spec(pin.name, pin.version)]
    ensures PinHits(pins + [pin]) == PinHits(pins) + multiset(Hits(Spec(pin.name, pin.version), pin.hashes))
  {
    assert (pins + [pin])[..|pins|] == pins;
  }

  /** awk's output is the hits of the pins and some noise, which is empty exactly when no
      item is misread. */
  lemma {:induction false} ItemsRead(items: seq<Item>) returns (noise: multiset<Hit>)
    requires AllOk(items)
    ensures PinColumn(FileLines(items)) == Specs(ItemPins(items))
    ensures multiset(AwkRun(FileLines(items)).out) == PinHits(ItemPins(items)) + noise
    ensures noise == multiset{} <==> NoneMisread(items)
  {
    if items == [] {
      noise := multiset{};
    } else {
      var init, item := items[..|items| - 1], items[|items| - 1];
      assert init + [item] == items && ItemOk(item);
      var before := ItemsRead(init);
      noise := ReadOne(init, item, before);
    }
  }

  lemma ReadOne(items: seq<Item>, item: Item, before: multiset<Hit>) returns (noise: multiset<Hit>)
    requires ItemOk(item)
    requires PinColumn(FileLines(items)) == Specs(ItemPins(items))
    requires multiset(AwkRun(FileLines(items)).out) == PinHits(ItemPins(items)) + before
    requires before == multiset{} <==> NoneMisread(items)
    ensures var more := items + [item];
            && PinColumn(FileLines(more)) == Specs(ItemPins(more))
            && multiset(AwkRun(FileLines(more)).out) == PinHits(ItemPins(more)) + noise
            && (noise == multiset{} <==> NoneMisread(more))
  {
    var st := AwkRun(FileLines(items));
    var added := Noise(st.pin, item);
    var pins := PinHits(ItemPins(items));
    noise := before + multiset(added);
    NoneMisreadSnoc(items, item);
    NoiseIff(st.pin, item);
    if item.Block? {
      ReadBlock(items, item);
      Tally(st.out, added, Hits(Spec(item.name, item.version), item.hashes), pins, before);
    } else {
      ReadSkipped(items, item);
      Tally(st.out, added, [], pins, before);
    }
  }

  lemma NoiseIff(pin: string, item: Item)
    ensures Noise(pin, item) == [] <==> !Misread(item)
  {
  }

  lemma ReadSkipped(items: seq<Item>, item: Item)
    requires ItemOk(item) && !item.Block?
    ensures var more, st := items + [item], AwkRun(FileLines(items));
            && PinColumn(FileLines(more)) == PinColumn(FileLines(items))
            && ItemPins(more) == ItemPins(items)
            && AwkRun(FileLines(more)).out == st.out + Noise(st.pin, item) + []
  {
    FileLinesSnoc(items, item);
    SkipStep(FileLines(items), item);
  }

  lemma Tally<T>(out: seq<T>, added: seq<T>, hits: seq<T>, pins: multiset<T>, before: multiset<T>)
    requires multiset(out) == pins + before
    ensures multiset(out + added + hits) == pins + multiset(hits) + (before + multiset(added))
    ensures before + multiset(added) == multiset{} <==> before == multiset{} && added == []
  {
    assert multiset(out + added + hits) == multiset(out) + multiset(added) + multiset(hits);
    assert added != [] ==> added[0] in before + multiset(added);
  }

  lemma ReadBlock(items: seq<Item>, item: Item)
    requires ItemOk(item) && item.Block?
    ensures var more, st := items + [item], AwkRun(FileLines(items));
            && PinColumn(FileLines(more)) == PinColumn(FileLines(items)) + [Spec(item.name, item.version)]
            && Specs(ItemPins(more)) == Specs(ItemPins(items)) + [Spec(item.name, item.version)]
            && AwkRun(FileLines(more)).out
               == st.out + Noise(st.pin, item) + Hits(Spec(item.name, item.version), item.hashes)
            && PinHits(ItemPins(more))
               == PinHits(ItemPins(items)) + multiset(Hits(Spec(item.name, item.version), item.hashes))
  {
    FileLinesSnoc(items, item);
    BlockStep(FileLines(items), item);
    SpecsSnoc(ItemPins(items), Pin(item.name, item.version, |FileLines(items)| + 1, item.hashes));
  }

  ghost predicate NoneMisread(items: seq<Item>) {
    forall i | 0 <= i < |items| :: !Misread(items[i])
  }

  lemma NoneMisreadSnoc(items: seq<Item>, item: Item)
    ensures NoneMisread(items + [item]) <==> NoneMisread(items) && !Misread(item)
  {
    var more := items + [item];
    assert more[|items|] == item && forall i | 0 <= i < |items| :: more[i] == items[i];
  }

  // ------------------------------------------------------------------ main results

  /** `pins()` of an accepted file is its list of pins. */
  lemma PinsExact(file: string)
    requires LockParse.Accepts(file)
    ensures PinColumn(Lines(file)) == Specs(LockParse.ParsedPins(file))
  {
    var items := LockParse.AcceptedItems(file);
    var _ := ItemsRead(items);
  }

  /** `hashes()` of an accepted file misses no hash of any pin, and it is exact if and only if
      no comment mentions a hash option and no pinned name ends in `--hash`. */
  lemma HashesExactIff(file: string, items: seq<Item>)
    requires UvLayout(file, items)
    ensures var got, want := multiset(AwkRun(Lines(file)).out), PinHits(LockParse.ParsedPins(file));
            && want <= got
            && (got == want <==> NoneMisread(items))
  {
    LockParse.LaidIsAccepted(Lines(file), items);
    var noise := ItemsRead(items);
    var want := PinHits(LockParse.ParsedPins(file));
    if want + noise == want {
      assert forall h :: (want + noise)[h] == want[h] + noise[h];
      assert noise == multiset{};
    }
  }
}
