/** `scripts/lockfile_gate.py`, `ascii_lines` and `parse`: the line-by-line reader of the
    lockfile gate, and the grammar it decides. */
module LockParse {
  import opened Text
  import opened LockGrammar

  datatype Error =
    | NonAscii(line: nat)
    | ExpectedHash(line: nat, pin: Pin)
    | NotALine(line: nat)
    | PinnedTwice(line: nat, name: string, first: nat)
    | EndsInside(pin: Pin)

  // ------------------------------------------------------------------ specification

  /** The reader's variables. `pending` says that the last pin is continued by the next line. */
  datatype ParseState = ParseState(
    pins: seq<Pin>,
    pending: bool,
    seen: map<string, nat>,
    errors: seq<Error>)
  {
    ghost predicate Valid() {
      pending ==> pins != []
    }

    function Last(): Pin
      requires pins != []
    {
      pins[|pins| - 1]
    }
  }

  const Start := ParseState([], false, map[], [])

  /** The pins with these hashes appended to the last one. */
  function AddHashes(pins: seq<Pin>, hashes: seq<string>): seq<Pin>
    requires pins != []
  {
    var last := pins[|pins| - 1];
    pins[..|pins| - 1] + [last.(hashes := last.hashes + hashes)]
  }

  /** One line of the file, of this kind; `n` is its number. */
  function Feed(st: ParseState, n: nat, kind: Kind): (st': ParseState)
    requires st.Valid()
    ensures st'.Valid()
  {
    match kind
    case Broken => st.(pending := false)
    case Hash(hash, more) =>
      if st.pending then st.(pending := more, pins := AddHashes(st.pins, [hash]))
      else st.(errors := st.errors + [NotALine(n)])
    case Skip(_) => if st.pending then Unfinished(st, n) else st
    case Other =>
      if st.pending then Unfinished(st, n) else st.(errors := st.errors + [NotALine(n)])
    case Head(name, version) =>
      if st.pending then Unfinished(st, n)
      else
        ParseState(st.pins + [Pin(name, version, n, [])], true, st.seen[name := n],
          if name in st.seen then st.errors + [PinnedTwice(n, name, st.seen[name])] else st.errors)
  }

  /** A pending pin whose next line is no hash line: that line is dropped. */
  function Unfinished(st: ParseState, n: nat): ParseState
    requires st.Valid() && st.pending
  {
    st.(pending := false, errors := st.errors + [ExpectedHash(n, st.Last())])
  }

  /** The reader after lines of these kinds. */
  function RunKinds(kinds: seq<Kind>): (st: ParseState)
    ensures st.Valid()
  {
    if kinds == [] then Start
    else
      var n := |kinds|;
      Feed(RunKinds(kinds[..n - 1]), n, kinds[n - 1])
  }

  function Run(lines: seq<string>): ParseState {
    RunKinds(Kinds(lines))
  }

  function Decoded(line: string): Option<string> {
    if AllPrintable(line) then Some(line) else None
  }

  function NonAsciiErrors(lines: seq<string>): (errors: seq<Error>)
    ensures forall e | e in errors :: e.NonAscii?
  {
    if lines == [] then []
    else
      var n := |lines|;
      NonAsciiErrors(lines[..n - 1]) + if AllPrintable(lines[n - 1]) then [] else [NonAscii(n)]
  }

  /** All the errors of a file: bytes first, then lines, then an unfinished last pin. */
  function Errors(lines: seq<string>): seq<Error> {
    var st := Run(lines);
    NonAsciiErrors(lines) + st.errors + if st.pending then [EndsInside(st.Last())] else []
  }

  /** The gate accepts the file. */
  predicate Accepts(file: string) {
    Errors(Lines(file)) == []
  }

  function ParsedPins(file: string): seq<Pin> {
    Run(Lines(file)).pins
  }

  /** One error for each line that is not printable ASCII, with its number, in the order of the lines. */
  lemma {:induction false} NonAsciiExact(lines: seq<string>)
    ensures var errors := NonAsciiErrors(lines);
            && (forall n: nat :: NonAscii(n) in errors <==> 1 <= n <= |lines| && !AllPrintable(lines[n - 1]))
            && (forall i, j | 0 <= i < j < |errors| :: errors[i].line < errors[j].line)
  {
    if lines != [] {
      var init := lines[..|lines| - 1];
      NonAsciiExact(init);
      forall e | e in NonAsciiErrors(init) ensures e.line < |lines| {
        assert e == NonAscii(e.line);
      }
      assert forall i | 0 <= i < |init| :: init[i] == lines[i];
    }
  }

  // ------------------------------------------------------------------ the two loops

  method AsciiLines(file: string) returns (out: seq<Option<string>>, errors: seq<Error>)
    ensures |out| == |Lines(file)|
    ensures forall i | 0 <= i < |out| :: out[i] == Decoded(Lines(file)[i])
    ensures errors == NonAsciiErrors(Lines(file))
  {
    var lines := Split(file);
    if lines[|lines| - 1] == "" {
      lines := lines[..|lines| - 1];
    }
    out, errors := [], [];
    for i := 0 to |lines|
      invariant |out| == i && forall k | 0 <= k < i :: out[k] == Decoded(lines[k])
      invariant errors == NonAsciiErrors(lines[..i])
    {
      assert lines[..i + 1][..i] == lines[..i];
      if AllPrintable(lines[i]) {
        out := out + [Some(lines[i])];
      } else {
        errors := errors + [NonAscii(i + 1)];
        out := out + [None];
      }
    }
    assert lines[..|lines|] == lines;
  }

  lemma AppendOne<T>(a: seq<T>, b: seq<T>)
    ensures forall x :: a + (b + [x]) == a + b + [x]
  {
  }

  /** `Feed` on the kind of a line, by the tests the loop makes on the line itself. */
  lemma FeedAsWritten(st: ParseState, n: nat, line: string)
    requires st.Valid()
    ensures var st' := Feed(st, n, Classify(line));
            if !AllPrintable(line) then
              st'.pins == st.pins && !st'.pending && st'.seen == st.seen && st'.errors == st.errors
            else if st.pending then
              var m := MatchHash(line);
              && st'.seen == st.seen
              && (m.None? ==>
                    && st'.pins == st.pins && !st'.pending
                    && st'.errors == st.errors + [ExpectedHash(n, st.Last())])
              && (m.Some? ==>
                    && st'.pins == AddHashes(st.pins, [m.value.hash]) && st'.pending == m.value.more
                    && st'.errors == st.errors)
            else if line == "" || IsComment(line) then
              st' == st
            else
              var m := MatchPin(line);
              && (m.None? ==>
                    && st'.pins == st.pins && !st'.pending && st'.seen == st.seen
                    && st'.errors == st.errors + [NotALine(n)])
              && (m.Some? ==>
                    && st'.pins == st.pins + [Pin(m.value.name, m.value.version, n, [])]
                    && st'.pending && st'.seen == st.seen[m.value.name := n]
                    && st'.errors == if m.value.name in st.seen
                                     then st.errors + [PinnedTwice(n, m.value.name, st.seen[m.value.name])]
                                     else st.errors)
  {
    if MatchHash(line).Some? {
      HashIsNothingElse(line);
    }
  }

  /** The pins of a lockfile, and every line that is not one uv writes. */
  method Parse(file: string) returns (pins: seq<Pin>, errors: seq<Error>)
    ensures pins == ParsedPins(file) && errors == Errors(Lines(file))
    ensures errors == [] <==> exists items :: UvLayout(file, items)
    ensures forall items :: UvLayout(file, items) ==> pins == ItemPins(items)
  {
    pins, errors := ReadLines(file);
    GateDecidesUvLayout(file);
    LayoutGivesPins(file);
  }

  /** The loop over the lines. */
  method ReadLines(file: string) returns (pins: seq<Pin>, errors: seq<Error>)
    ensures pins == ParsedPins(file) && errors == Errors(Lines(file))
  {
    ghost var kinds := Kinds(Lines(file));
    ghost var st := Start;
    ghost var bytes := NonAsciiErrors(Lines(file));
    var lines;
    lines, errors := AsciiLines(file);
    pins := [];
    var seen: map<string, nat> := map[];
    var cont := false;
    for i := 0 to |lines|
      invariant st == RunKinds(kinds[..i])
      invariant pins == st.pins && cont == st.pending && seen == st.seen
      invariant errors == bytes + st.errors
    {
      var n := i + 1;
      RunNext(kinds, i);
      FeedAsWritten(st, n, Lines(file)[i]);
      AppendOne(bytes, st.errors);
      st := Feed(st, n, kinds[i]);
      if lines[i].None? {
        cont := false;
        continue;
      }
      var line := lines[i].value;
      if cont {
        var m := MatchHash(line);
        if m.None? {
          errors := errors + [ExpectedHash(n, pins[|pins| - 1])];
          cont := false;
          continue;
        }
        pins := AddHashes(pins, [m.value.hash]);
        if !m.value.more {
          cont := false;
        }
        continue;
      }
      if line == "" || IsComment(line) {
        continue;
      }
      var m := MatchPin(line);
      if m.None? {
        errors := errors + [NotALine(n)];
        continue;
      }
      if m.value.name in seen {
        errors := errors + [PinnedTwice(n, m.value.name, seen[m.value.name])];
      }
      seen := seen[m.value.name := n];
      cont := true;
      pins := pins + [Pin(m.value.name, m.value.version, n, [])];
    }
    assert kinds[..|kinds|] == kinds;
    if cont {
      errors := errors + [EndsInside(pins[|pins| - 1])];
    }
  }

  // ------------------------------------------------------------------ soundness

  /** What the reader has understood when it reports no error: finished items and, while a
      pin is pending, the block it is in. */
  datatype Reading =
    | Between(items: seq<Item>)
    | Inside(items: seq<Item>, name: string, version: string, hashes: seq<string>)

  function Names(pins: seq<Pin>): set<string> {
    set i | 0 <= i < |pins| :: pins[i].name
  }

  ghost predicate Understood(kinds: seq<Kind>, r: Reading) {
    var st := RunKinds(kinds);
    && AllOk(r.items)
    && match r
       case Between(items) =>
         && kinds == FileKinds(items)
         && st.pins == ItemPins(items)
         && !st.pending
       case Inside(items, name, version, hashes) =>
         && IsName(name) && IsVersion(version) && AllHashes(hashes)
         && kinds == FileKinds(items) + [Head(name, version)] + OpenHashKinds(hashes)
         && st.pins == ItemPins(items) + [Pin(name, version, |FileLines(items)| + 1, hashes)]
         && st.pending
  }

  lemma CloseBlock(hashes: seq<string>, hash: string)
    ensures HashKinds(hashes + [hash]) == OpenHashKinds(hashes) + [Hash(hash, false)]
    ensures OpenHashKinds(hashes + [hash]) == OpenHashKinds(hashes) + [Hash(hash, true)]
  {
    assert (hashes + [hash])[..|hashes|] == hashes;
  }

  lemma RunSnoc(kinds: seq<Kind>, kind: Kind)
    ensures RunKinds(kinds + [kind]) == Feed(RunKinds(kinds), |kinds| + 1, kind)
  {
    assert (kinds + [kind])[..|kinds|] == kinds;
  }

  lemma RunNext(kinds: seq<Kind>, i: nat)
    requires i < |kinds|
    ensures RunKinds(kinds[..i + 1]) == Feed(RunKinds(kinds[..i]), i + 1, kinds[i])
  {
    assert kinds[..i + 1] == kinds[..i] + [kinds[i]];
    RunSnoc(kinds[..i], kinds[i]);
  }

  lemma RunHash(kinds: seq<Kind>, hash: string, more: bool)
    requires RunKinds(kinds).pending
    ensures var st, st' := RunKinds(kinds), RunKinds(kinds + [Hash(hash, more)]);
            && st'.pins == AddHashes(st.pins, [hash]) && st'.pending == more
            && st'.seen == st.seen && st'.errors == st.errors
  {
    RunSnoc(kinds, Hash(hash, more));
  }

  lemma RunHead(kinds: seq<Kind>, name: string, version: string)
    requires !RunKinds(kinds).pending
    ensures var st, st', n := RunKinds(kinds), RunKinds(kinds + [Head(name, version)]), |kinds| + 1;
            && st'.pins == st.pins + [Pin(name, version, n, [])] && st'.pending
            && st'.seen == st.seen[name := n] && (name !in st.seen ==> st'.errors == st.errors)
  {
    RunSnoc(kinds, Head(name, version));
  }

  lemma NamesSnoc(pins: seq<Pin>, pin: Pin)
    ensures Names(pins + [pin]) == Names(pins) + {pin.name}
    ensures DistinctNames(pins + [pin]) <==> DistinctNames(pins) && pin.name !in Names(pins)
  {
    var more := pins + [pin];
    assert forall i | 0 <= i < |pins| :: more[i] == pins[i];
    assert more[|pins|] == pin;
    assert forall n | n in Names(pins) :: n in Names(more);
    assert pin.name in Names(more);
    if DistinctNames(more) {
      forall i, j | 0 <= i < j < |pins| ensures pins[i].name != pins[j].name {
        assert more[i].name != more[j].name;
      }
      forall i | 0 <= i < |pins| ensures pins[i].name != pin.name {
        assert more[i].name != more[|pins|].name;
      }
    }
  }

  lemma AddHashesNames(pins: seq<Pin>, hashes: seq<string>)
    requires pins != []
    ensures Names(AddHashes(pins, hashes)) == Names(pins)
    ensures DistinctNames(AddHashes(pins, hashes)) <==> DistinctNames(pins)
  {
    var more := AddHashes(pins, hashes);
    assert |more| == |pins| && forall i | 0 <= i < |pins| :: more[i].name == pins[i].name;
  }

  lemma Regroup<T>(a: seq<T>, b: seq<T>, c: seq<T>, d: seq<T>)
    ensures a + (b + (c + d)) == a + b + c + d
    ensures a + b + (c + d) == a + b + c + d
  {
  }

  /** Appending a hash line to an open block keeps it open or makes it an item. */
  lemma BlockGrows(items: seq<Item>, name: string, version: string, hashes: seq<string>, hash: string)
    ensures var open, longer := FileKinds(items) + [Head(name, version)] + OpenHashKinds(hashes), hashes + [hash];
            && open + [Hash(hash, true)] == FileKinds(items) + [Head(name, version)] + OpenHashKinds(longer)
            && open + [Hash(hash, false)] == FileKinds(items + [Block(name, version, longer)])
  {
    CloseBlock(hashes, hash);
    FileKindsSnoc(items, Block(name, version, hashes + [hash]));
    Regroup(FileKinds(items), [Head(name, version)], OpenHashKinds(hashes), [Hash(hash, true)]);
    Regroup(FileKinds(items), [Head(name, version)], OpenHashKinds(hashes), [Hash(hash, false)]);
  }

  /** The next-to-last hash line of a pending block, or an earlier one. */
  lemma ReadHashLine(kinds: seq<Kind>, hash: string, r: Reading) returns (r': Reading)
    requires Understood(kinds, r) && r.Inside? && IsHash(hash)
    ensures Understood(kinds + [Hash(hash, true)], r')
  {
    RunHash(kinds, hash, true);
    BlockGrows(r.items, r.name, r.version, r.hashes, hash);
    AddHashesToLast(ItemPins(r.items), r.name, r.version, |FileLines(r.items)| + 1, r.hashes, hash);
    AllHashesSnoc(r.hashes, hash);
    r' := r.(hashes := r.hashes + [hash]);
  }

  /** The last hash line of a pending block. */
  lemma ReadLastHashLine(kinds: seq<Kind>, hash: string, r: Reading) returns (r': Reading)
    requires Understood(kinds, r) && r.Inside? && IsHash(hash)
    ensures Understood(kinds + [Hash(hash, false)], r')
  {
    RunHash(kinds, hash, false);
    BlockGrows(r.items, r.name, r.version, r.hashes, hash);
    AddHashesToLast(ItemPins(r.items), r.name, r.version, |FileLines(r.items)| + 1, r.hashes, hash);
    var block := Block(r.name, r.version, r.hashes + [hash]);
    FileLinesSnoc(r.items, block);
    AllHashesSnoc(r.hashes, hash);
    AllOkSnoc(r.items, block);
    r' := Between(r.items + [block]);
  }

  lemma AddHashesToLast(pins: seq<Pin>, name: string, version: string, line: nat,
                        hashes: seq<string>, hash: string)
    ensures AddHashes(pins + [Pin(name, version, line, hashes)], [hash])
            == pins + [Pin(name, version, line, hashes + [hash])]
  {
  }

  lemma NothingAfter(kinds: seq<Kind>)
    ensures kinds + OpenHashKinds([]) == kinds
  {
  }

  lemma ReadHead(kinds: seq<Kind>, name: string, version: string, r: Reading) returns (r': Reading)
    requires Understood(kinds, r) && r.Between? && IsName(name) && IsVersion(version)
    ensures Understood(kinds + [Head(name, version)], r')
  {
    RunHead(kinds, name, version);
    LengthOf(kinds, r.items);
    r' := Inside(r.items, name, version, []);
    NothingAfter(kinds + [Head(name, version)]);
  }

  lemma LengthOf(kinds: seq<Kind>, items: seq<Item>)
    requires AllOk(items) && kinds == FileKinds(items)
    ensures |kinds| == |FileLines(items)|
  {
    FileKindsLength(items);
  }

  lemma ReadSkip(kinds: seq<Kind>, text: string, r: Reading) returns (r': Reading)
    requires Understood(kinds, r) && r.Between? && KindOk(Skip(text))
    ensures Understood(kinds + [Skip(text)], r')
  {
    RunSnoc(kinds, Skip(text));
    var item := if text == "" then Blank else Comment(text);
    AllOkSnoc(r.items, item);
    r' := Between(r.items + [item]);
    FileLinesSnoc(r.items, item);
    FileKindsSnoc(r.items, item);
  }

  /** As long as no error is reported, `seen` holds the names of the pins, which are distinct. */
  lemma {:induction false} NamesSeen(kinds: seq<Kind>)
    requires RunKinds(kinds).errors == []
    ensures var st := RunKinds(kinds); st.seen.Keys == Names(st.pins) && DistinctNames(st.pins)
  {
    if kinds != [] {
      var n := |kinds|;
      var st := RunKinds(kinds[..n - 1]);
      NamesSeen(kinds[..n - 1]);
      match kinds[n - 1]
      case Hash(hash, more) => AddHashesNames(st.pins, [hash]);
      case Head(name, version) => NamesSnoc(st.pins, Pin(name, version, n, []));
      case _ =>
    }
  }

  lemma {:induction false} NonAsciiNone(lines: seq<string>)
    ensures NonAsciiErrors(lines) == [] <==> forall i | 0 <= i < |lines| :: AllPrintable(lines[i])
  {
    if lines != [] {
      var n := |lines|;
      NonAsciiNone(lines[..n - 1]);
      assert forall i | 0 <= i < n :: lines[i] == if i < n - 1 then lines[..n - 1][i] else lines[n - 1];
    }
  }

  /** Lines read without an error so far are finished items and at most one open block. */
  lemma {:induction false} ReadingExists(kinds: seq<Kind>) returns (r: Reading)
    requires forall i | 0 <= i < |kinds| :: KindOk(kinds[i]) || kinds[i].Other?
    requires RunKinds(kinds).errors == []
    ensures Understood(kinds, r)
  {
    if kinds == [] {
      r := Between([]);
    } else {
      var init, kind := kinds[..|kinds| - 1], kinds[|kinds| - 1];
      assert init + [kind] == kinds;
      r := ReadingExists(init);
      match kind
      case Hash(hash, more) =>
        if more {
          r := ReadHashLine(init, hash, r);
        } else {
          r := ReadLastHashLine(init, hash, r);
        }
      case Head(name, version) => r := ReadHead(init, name, version, r);
      case Skip(text) => r := ReadSkip(init, text, r);
    }
  }

  // ------------------------------------------------------------------ completeness

  lemma AddHashesTwice(pins: seq<Pin>, hashes: seq<string>)
    requires pins != []
    ensures AddHashes(pins, []) == pins
    ensures hashes != [] ==>
              var n := |hashes| - 1;
              AddHashes(AddHashes(pins, hashes[..n]), [hashes[n]]) == AddHashes(pins, hashes)
  {
    var last := pins[|pins| - 1];
    assert last.hashes + [] == last.hashes;
    if hashes != [] {
      var n := |hashes| - 1;
      assert last.hashes + hashes[..n] + [hashes[n]] == last.hashes + hashes;
    }
  }

  lemma {:induction false} FeedHashes(kinds: seq<Kind>, hashes: seq<string>)
    requires RunKinds(kinds).pending
    ensures var st := RunKinds(kinds);
            var st' := RunKinds(kinds + OpenHashKinds(hashes));
            && st'.pins == AddHashes(st.pins, hashes) && st'.pending
            && st'.seen == st.seen && st'.errors == st.errors
  {
    AddHashesTwice(RunKinds(kinds).pins, hashes);
    if hashes == [] {
      assert kinds + OpenHashKinds(hashes) == kinds;
    } else {
      var init, hash := hashes[..|hashes| - 1], hashes[|hashes| - 1];
      assert init + [hash] == hashes;
      FeedHashes(kinds, init);
      CloseBlock(init, hash);
      assert kinds + OpenHashKinds(hashes) == kinds + OpenHashKinds(init) + [Hash(hash, true)];
      RunHash(kinds + OpenHashKinds(init), hash, true);
    }
  }

  lemma BlockOpened(kinds: seq<Kind>, name: string, version: string, hashes: seq<string>)
    requires hashes != []
    ensures var n := |hashes| - 1;
            kinds + ItemKinds(Block(name, version, hashes))
            == kinds + [Head(name, version)] + OpenHashKinds(hashes[..n]) + [Hash(hashes[n], false)]
  {
    var n := |hashes| - 1;
    var open, last := OpenHashKinds(hashes[..n]), [Hash(hashes[n], false)];
    assert ItemKinds(Block(name, version, hashes)) == [Head(name, version)] + (open + last);
    Regroup(kinds, [Head(name, version)], open, last);
  }

  /** A complete block of a new name, read from between two items. */
  lemma FeedBlock(kinds: seq<Kind>, name: string, version: string, hashes: seq<string>)
    requires hashes != []
    requires !RunKinds(kinds).pending && name !in RunKinds(kinds).seen
    ensures var st, n := RunKinds(kinds), |kinds| + 1;
            var st' := RunKinds(kinds + ItemKinds(Block(name, version, hashes)));
            && st'.pins == st.pins + [Pin(name, version, n, hashes)] && !st'.pending
            && st'.seen == st.seen[name := n] && st'.errors == st.errors
  {
    var headed := kinds + [Head(name, version)];
    var init, hash := hashes[..|hashes| - 1], hashes[|hashes| - 1];
    BlockOpened(kinds, name, version, hashes);
    RunHead(kinds, name, version);
    FeedHashes(headed, init);
    RunHash(headed + OpenHashKinds(init), hash, false);
    AddHashesToHead(RunKinds(kinds).pins, name, version, |kinds| + 1, hashes);
  }

  lemma AddHashesToHead(pins: seq<Pin>, name: string, version: string, line: nat, hashes: seq<string>)
    requires hashes != []
    ensures var n, headed := |hashes| - 1, pins + [Pin(name, version, line, [])];
            AddHashes(AddHashes(headed, hashes[..n]), [hashes[n]])
            == pins + [Pin(name, version, line, hashes)]
  {
    AddHashesTwice(pins + [Pin(name, version, line, [])], hashes);
    assert [] + hashes == hashes;
  }

  /** The reader's result on a lockfile with these items. */
  ghost predicate ReadAs(items: seq<Item>) {
    var st := RunKinds(FileKinds(items));
    && st.errors == [] && !st.pending
    && st.pins == ItemPins(items) && st.seen.Keys == Names(st.pins)
  }

  lemma BlockIsParsed(items: seq<Item>, item: Item)
    requires AllOk(items) && ItemOk(item) && ReadAs(items)
    requires item.Block? && item.name !in Names(ItemPins(items))
    ensures ReadAs(items + [item])
  {
    FileKindsSnoc(items, item);
    BlockPins(items, item);
    FeedBlock(FileKinds(items), item.name, item.version, item.hashes);
  }

  lemma BlockPins(items: seq<Item>, item: Item)
    requires AllOk(items) && item.Block?
    ensures ItemPins(items + [item])
            == ItemPins(items) + [Pin(item.name, item.version, |FileKinds(items)| + 1, item.hashes)]
    ensures Names(ItemPins(items + [item])) == Names(ItemPins(items)) + {item.name}
  {
    var pin := Pin(item.name, item.version, |FileLines(items)| + 1, item.hashes);
    FileKindsLength(items);
    FileLinesSnoc(items, item);
    NamesSnoc(ItemPins(items), pin);
  }

  lemma SkipIsParsed(items: seq<Item>, item: Item)
    requires ReadAs(items) && !item.Block?
    ensures ReadAs(items + [item])
  {
    FileLinesSnoc(items, item);
    FileKindsSnoc(items, item);
    RunSnoc(FileKinds(items), ItemKinds(item)[0]);
  }

  lemma DistinctPrefix(items: seq<Item>, item: Item)
    requires DistinctNames(ItemPins(items + [item]))
    ensures DistinctNames(ItemPins(items))
    ensures item.Block? ==> item.name !in Names(ItemPins(items))
  {
    FileLinesSnoc(items, item);
    if item.Block? {
      NamesSnoc(ItemPins(items), Pin(item.name, item.version, |FileLines(items)| + 1, item.hashes));
    }
  }

  /** The reader understands every lockfile in uv's layout as its items. */
  lemma {:induction false} LaidIsParsed(items: seq<Item>)
    requires AllOk(items) && DistinctNames(ItemPins(items))
    ensures ReadAs(items)
  {
    if items != [] {
      var init, item := items[..|items| - 1], items[|items| - 1];
      assert init + [item] == items;
      DistinctPrefix(init, item);
      LaidIsParsed(init);
      if item.Block? {
        BlockIsParsed(init, item);
      } else {
        SkipIsParsed(init, item);
      }
    }
  }

  lemma LaidIsAccepted(lines: seq<string>, items: seq<Item>)
    requires Lays(lines, items)
    ensures Errors(lines) == [] && Run(lines).pins == ItemPins(items)
  {
    LaidByKinds(lines, items);
    LaidIsParsed(items);
    LaidLinesOk(items);
    NonAsciiNone(lines);
  }

  // ------------------------------------------------------------------ main results

  /** The gate reports no error exactly on the lockfiles in uv's layout: printable ASCII,
      blanks, comments and complete blocks, every name pinned once. */
  lemma GateDecidesUvLayout(file: string)
    ensures Accepts(file) <==> exists items :: UvLayout(file, items)
  {
    if Accepts(file) {
      var items := AcceptedItems(file);
    }
    if items :| UvLayout(file, items) {
      LaidIsAccepted(Lines(file), items);
    }
  }

  lemma LayoutGivesPins(file: string)
    ensures forall items :: UvLayout(file, items) ==> ParsedPins(file) == ItemPins(items)
  {
    forall items | UvLayout(file, items) ensures ParsedPins(file) == ItemPins(items) {
      LaidIsAccepted(Lines(file), items);
    }
  }

  /** The items of an accepted file, whose pins are the ones reported. */
  lemma AcceptedItems(file: string) returns (items: seq<Item>)
    requires Accepts(file)
    ensures UvLayout(file, items) && ParsedPins(file) == ItemPins(items)
  {
    var lines := Lines(file);
    LineChars(file);
    NonAsciiNone(lines);
    forall i | 0 <= i < |lines| ensures var k := Classify(lines[i]); KindOk(k) || k.Other? {
      ClassifyOk(lines[i]);
    }
    items := ItemsOf(Kinds(lines));
    LaidByKinds(lines, items);
  }

  lemma ItemsOf(kinds: seq<Kind>) returns (items: seq<Item>)
    requires forall i | 0 <= i < |kinds| :: KindOk(kinds[i]) || kinds[i].Other?
    requires RunKinds(kinds).errors == [] && !RunKinds(kinds).pending
    ensures AllOk(items) && DistinctNames(ItemPins(items))
    ensures kinds == FileKinds(items) && RunKinds(kinds).pins == ItemPins(items)
  {
    var r := ReadingExists(kinds);
    NamesSeen(kinds);
    items := r.items;
  }

  /** A file has at most one reading: its items determine the reported pins, so two
      decompositions of one file cannot disagree about a pin. */
  lemma LayoutUnambiguous(file: string, a: seq<Item>, b: seq<Item>)
    requires UvLayout(file, a) && UvLayout(file, b)
    ensures ItemPins(a) == ItemPins(b)
  {
    LaidIsAccepted(Lines(file), a);
    LaidIsAccepted(Lines(file), b);
  }

  function PinItems(pins: seq<Pin>): seq<Item> {
    if pins == [] then []
    else
      var n := |pins| - 1;
      PinItems(pins[..n]) + [Block(pins[n].name, pins[n].version, pins[n].hashes)]
  }

  /** The pins printed in uv's layout. */
  function Print(pins: seq<Pin>): string {
    Unlines(FileLines(PinItems(pins)))
  }

  predicate SamePin(a: Pin, b: Pin) {
    a.name == b.name && a.version == b.version && a.hashes == b.hashes
  }

  /** The two lists pin the same versions with the same hashes, whatever the line numbers. */
  ghost predicate SamePins(a: seq<Pin>, b: seq<Pin>) {
    |a| == |b| && forall i | 0 <= i < |a| :: SamePin(a[i], b[i])
  }

  lemma {:induction false} PinsOfPinItems(pins: seq<Pin>)
    ensures SamePins(ItemPins(PinItems(pins)), pins)
  {
    if pins != [] {
      var init, last := pins[..|pins| - 1], pins[|pins| - 1];
      assert init + [last] == pins;
      PinsOfPinItems(init);
      PrintedSnoc(PinItems(init), init, last);
      PinItemsSnoc(init, last);
    }
  }

  lemma PinItemsSnoc(pins: seq<Pin>, pin: Pin)
    ensures PinItems(pins + [pin]) == PinItems(pins) + [Block(pin.name, pin.version, pin.hashes)]
  {
    assert (pins + [pin])[..|pins|] == pins;
  }

  lemma PrintedSnoc(items: seq<Item>, pins: seq<Pin>, pin: Pin)
    requires SamePins(ItemPins(items), pins)
    ensures SamePins(ItemPins(items + [Block(pin.name, pin.version, pin.hashes)]), pins + [pin])
  {
    FileLinesSnoc(items, Block(pin.name, pin.version, pin.hashes));
    SamePinsSnoc(ItemPins(items), pins, Pin(pin.name, pin.version, |FileLines(items)| + 1, pin.hashes), pin);
  }

  lemma SamePinsSnoc(a: seq<Pin>, b: seq<Pin>, p: Pin, q: Pin)
    requires SamePins(a, b) && SamePin(p, q)
    ensures SamePins(a + [p], b + [q])
  {
  }

  lemma SamePinsDistinct(a: seq<Pin>, b: seq<Pin>)
    requires SamePins(a, b) && DistinctNames(b)
    ensures DistinctNames(a)
  {
    forall i, j | 0 <= i < j < |a| ensures a[i].name != a[j].name {
      assert SamePin(a[i], b[i]) && SamePin(a[j], b[j]);
    }
  }

  /** Every reported pin of an accepted file is a complete block. */
  lemma {:induction false} ItemPinsOk(items: seq<Item>)
    requires AllOk(items)
    ensures AllOk(PinItems(ItemPins(items)))
  {
    if items != [] {
      var init, item := items[..|items| - 1], items[|items| - 1];
      assert ItemOk(item);
      ItemPinsOk(init);
      if item.Block? {
        var pin := Pin(item.name, item.version, |FileLines(init)| + 1, item.hashes);
        assert (ItemPins(init) + [pin])[..|ItemPins(init)|] == ItemPins(init);
      }
    }
  }

  /** Printing the pins of an accepted file and parsing the result gives the same pins. */
  lemma PrintParse(file: string)
    requires Accepts(file)
    ensures Accepts(Print(ParsedPins(file)))
    ensures SamePins(ParsedPins(Print(ParsedPins(file))), ParsedPins(file))
  {
    var items := AcceptedItems(file);
    var pins := ItemPins(items);
    var again := PinItems(pins);
    ItemPinsOk(items);
    PinsOfPinItems(pins);
    SamePinsDistinct(ItemPins(again), pins);
    LaidLinesOk(again);
    LinesUnlines(FileLines(again));
    LaidIsAccepted(FileLines(again), again);
  }
}
