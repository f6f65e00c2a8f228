/** `scripts/lockfile_gate.py`, `cmd_freeze`: the installed venv holds exactly the pins of the
    lockfiles, minus the dropped names, plus the project's own. */
module Freeze {
  import opened Text
  import opened LockGrammar
  import LP = LockParse
  import opened Names

  datatype Error =
    | InLock(lock: nat, error: LP.Error)
    | PinnedAgain(lock: nat, name: string)
    | DropNotPinned(name: string)
    | NonAsciiLine(line: nat)
    | NotAPin(line: nat)
    | AppearsTwice(line: nat, name: string)
    | OwnNotInstalled(name: string)
    | NotInLocks(name: string)
    | NotInVenv(name: string)
    | VersionsDiffer(name: string)

  // ------------------------------------------------------------------ the freeze output

  predicate FreezeNameChar(c: char) {
    LowerAlnum(c) || 'A' <= c <= 'Z' || Separator(c)
  }

  /** `[A-Za-z0-9][A-Za-z0-9._-]*` */
  predicate IsFreezeName(s: string) {
    s != "" && !Separator(s[0]) && forall i | 0 <= i < |s| :: FreezeNameChar(s[i])
  }

  /** `FREEZE_PIN.fullmatch(line)` with its two groups. */
  function MatchFreeze(line: string): Option<PinHead> {
    var i := Find(line, '=');
    if i + 2 <= |line| && line[i..i + 2] == "==" && IsFreezeName(line[..i]) && IsVersion(line[i + 2..])
    then Some(PinHead(line[..i], line[i + 2..]))
    else None
  }

  lemma FreezeMatcherExact(line: string, name: string, version: string)
    ensures MatchFreeze(line) == Some(PinHead(name, version))
            <==> IsFreezeName(name) && IsVersion(version) && line == name + "==" + version
  {
    if IsFreezeName(name) && IsVersion(version) && line == name + "==" + version {
      assert forall k | 0 <= k < |name| :: line[k] == name[k] && name[k] != '=';
      FindIs(line, '=', |name|);
      assert line[..|name|] == name && line[|name| + 2..] == version;
    }
    if MatchFreeze(line) == Some(PinHead(name, version)) {
      var i := Find(line, '=');
      assert line == line[..i] + line[i..i + 2] + line[i + 2..];
    }
  }

  /** Which characters a name in the freeze output can have: separators only behind the first. */
  lemma FreezeNameShape(c: char)
    ensures IsFreezeName([c]) <==> NameCode(c) || 'A' <= c <= 'Z'
    ensures IsFreezeName(['a', c]) <==> NameCode(c) || 'A' <= c <= 'Z' || c == '-' || c == '_' || c == '.'
  {
    assert [c][0] == c && ['a', c][1] == c;
  }

  /** A line of the freeze output that is a plain pin in printable ASCII. */
  predicate PlainPin(line: string) {
    AllPrintable(line) && MatchFreeze(line).Some?
  }

  /** The plain pins, under their canonical names. */
  function Frozen(lines: seq<string>): seq<PinHead> {
    if lines == [] then []
    else
      var n := |lines| - 1;
      if PlainPin(lines[n]) then
        var m := MatchFreeze(lines[n]).value;
        Frozen(lines[..n]) + [PinHead(Canonical(m.name), m.version)]
      else Frozen(lines[..n])
  }

  // ------------------------------------------------------------------ what is locked

  function AllPins(locks: seq<string>): seq<PinHead> {
    if locks == [] then []
    else
      var n := |locks| - 1;
      AllPins(locks[..n]) + Heads(LP.ParsedPins(locks[n]))
  }

  function Heads(pins: seq<Pin>): seq<PinHead> {
    if pins == [] then []
    else
      var n := |pins| - 1;
      Heads(pins[..n]) + [PinHead(pins[n].name, pins[n].version)]
  }

  ghost predicate DistinctHeads(heads: seq<PinHead>) {
    forall i, j | 0 <= i < j < |heads| :: heads[i].name != heads[j].name
  }

  /** The dictionary the heads build: a later entry replaces an earlier one. */
  function Versions(heads: seq<PinHead>): map<string, string> {
    if heads == [] then map[]
    else
      var n := |heads| - 1;
      Versions(heads[..n])[heads[n].name := heads[n].version]
  }

  ghost predicate Holds(heads: seq<PinHead>, name: string) {
    exists i | 0 <= i < |heads| :: heads[i].name == name
  }

  function Members(names: seq<string>): set<string> {
    set n | n in names
  }

  ghost predicate AllAccepted(locks: seq<string>) {
    locks == [] || (AllAccepted(locks[..|locks| - 1]) && LP.Accepts(locks[|locks| - 1]))
  }

  ghost predicate AllPlain(lines: seq<string>) {
    forall i | 0 <= i < |lines| :: PlainPin(lines[i])
  }

  /** No name twice, and every name has an entry. */
  ghost predicate Removable(names: seq<string>, heads: seq<PinHead>) {
    Distinct(names) && forall n | n in names :: Holds(heads, n)
  }

  /** The entries with these names left out agree in names and versions. */
  ghost predicate SameBut(pinned: seq<PinHead>, drop: seq<string>, frozen: seq<PinHead>, own: seq<string>) {
    forall h: PinHead :: (h in pinned && h.name !in drop) <==> (h in frozen && h.name !in own)
  }

  /** The claim of the gate, in terms of the lines of the files. */
  ghost predicate VenvIsLocked(locks: seq<string>, drop: seq<string>, freeze: string, own: seq<string>) {
    var pinned, frozen := AllPins(locks), Frozen(Lines(freeze));
    var dropped, owned := CanonicalAll(drop), CanonicalAll(own);
    && AllAccepted(locks) && DistinctHeads(pinned) && Removable(dropped, pinned)
    && AllPlain(Lines(freeze)) && DistinctHeads(frozen) && Removable(owned, frozen)
    && SameBut(pinned, dropped, frozen, owned)
  }

  // ------------------------------------------------------------------ lemmas about entries

  lemma VersionsSnoc(heads: seq<PinHead>, h: PinHead)
    ensures Versions(heads + [h]) == Versions(heads)[h.name := h.version]
    ensures DistinctHeads(heads + [h]) <==> DistinctHeads(heads) && h.name !in Versions(heads)
  {
    var more := heads + [h];
    assert more[..|heads|] == heads;
    VersionKeys(heads);
    if DistinctHeads(more) {
      forall i, j | 0 <= i < j < |heads| ensures heads[i].name != heads[j].name {
        assert more[i].name != more[j].name;
      }
      forall i | 0 <= i < |heads| ensures heads[i].name != h.name {
        assert more[i].name != more[|heads|].name;
      }
    }
    if DistinctHeads(heads) && !Holds(heads, h.name) {
      assert forall i | 0 <= i < |heads| :: more[i] == heads[i] && heads[i].name != h.name;
    }
  }

  lemma {:induction false} VersionKeys(heads: seq<PinHead>)
    ensures forall name :: name in Versions(heads) <==> Holds(heads, name)
  {
    if heads != [] {
      var n := |heads| - 1;
      VersionKeys(heads[..n]);
      forall name ensures name in Versions(heads) <==> Holds(heads, name) {
        if Holds(heads[..n], name) {
          var i :| 0 <= i < n && heads[..n][i].name == name;
          assert heads[i].name == name;
        }
        if i :| 0 <= i < |heads| && heads[i].name == name {
          if i < n {
            assert heads[..n][i].name == name;
          }
        }
      }
    }
  }

  /** With distinct names the dictionary is the relation between names and versions. */
  lemma {:induction false} VersionsExact(heads: seq<PinHead>, h: PinHead)
    requires DistinctHeads(heads)
    ensures h in heads <==> h.name in Versions(heads) && Versions(heads)[h.name] == h.version
  {
    if heads != [] {
      var n := |heads| - 1;
      var init, last := heads[..n], heads[n];
      assert init + [last] == heads;
      VersionsSnoc(init, last);
      VersionsExact(init, h);
    }
  }

  lemma HeadsPrefix(before: seq<PinHead>, pins: seq<Pin>, i: nat)
    requires i < |pins|
    ensures before + Heads(pins[..i + 1])
            == before + Heads(pins[..i]) + [PinHead(pins[i].name, pins[i].version)]
  {
    assert pins[..i + 1][..i] == pins[..i];
    assert Heads(pins[..i + 1]) == Heads(pins[..i]) + [PinHead(pins[i].name, pins[i].version)];
  }

  // ------------------------------------------------------------------ the phases

  method AppendLockErrors(errors: seq<Error>, lock: nat, errs: seq<LP.Error>) returns (all: seq<Error>)
    ensures all == [] <==> errors == [] && errs == []
  {
    all := errors;
    for i := 0 to |errs|
      invariant all == [] <==> errors == [] && i == 0
    {
      all := all + [InLock(lock, errs[i])];
    }
  }

  /** The inner loop: the pins of one lockfile join the dictionary. */
  method AddPins(want: map<string, string>, errors: seq<Error>, lock: nat, pins: seq<Pin>,
                 ghost before: seq<PinHead>)
    returns (want': map<string, string>, errors': seq<Error>)
    requires want == Versions(before)
    requires errors == [] ==> DistinctHeads(before)
    ensures want' == Versions(before + Heads(pins))
    ensures errors' == [] <==> errors == [] && DistinctHeads(before + Heads(pins))
  {
    want', errors' := want, errors;
    ghost var now := before;
    for p := 0 to |pins|
      invariant now == before + Heads(pins[..p]) && want' == Versions(now)
      invariant errors' == [] <==> errors == [] && DistinctHeads(now)
    {
      var pin := pins[p];
      ghost var head := PinHead(pin.name, pin.version);
      VersionsSnoc(now, head);
      HeadsPrefix(before, pins, p);
      now := now + [head];
      if pin.name in want' {
        errors' := errors' + [PinnedAgain(lock, pin.name)];
      }
      want' := want'[pin.name := pin.version];
    }
    assert pins[..|pins|] == pins;
  }

  /** The pins of all lockfiles in one dictionary. */
  method CollectLocks(locks: seq<string>) returns (want: map<string, string>, errors: seq<Error>)
    ensures want == Versions(AllPins(locks))
    ensures errors == [] <==> AllAccepted(locks) && DistinctHeads(AllPins(locks))
  {
    want, errors := map[], [];
    for l := 0 to |locks|
      invariant want == Versions(AllPins(locks[..l]))
      invariant errors == [] <==> AllAccepted(locks[..l]) && DistinctHeads(AllPins(locks[..l]))
    {
      LocksPrefix(locks, l);
      var pins, errs := LP.Parse(locks[l]);
      errors := AppendLockErrors(errors, l, errs);
      want, errors := AddPins(want, errors, l, pins, AllPins(locks[..l]));
    }
    assert locks[..|locks|] == locks;
  }

  lemma LocksPrefix(locks: seq<string>, l: nat)
    requires l < |locks|
    ensures AllPins(locks[..l + 1]) == AllPins(locks[..l]) + Heads(LP.ParsedPins(locks[l]))
    ensures AllAccepted(locks[..l + 1]) <==> AllAccepted(locks[..l]) && LP.Accepts(locks[l])
    ensures DistinctHeads(AllPins(locks[..l + 1])) ==> DistinctHeads(AllPins(locks[..l]))
  {
    assert locks[..l + 1][..l] == locks[..l];
    DistinctAppend(AllPins(locks[..l]), Heads(LP.ParsedPins(locks[l])));
  }

  lemma DistinctAppend(a: seq<PinHead>, b: seq<PinHead>)
    ensures DistinctHeads(a + b) ==> DistinctHeads(a)
  {
    if DistinctHeads(a + b) {
      forall i, j | 0 <= i < j < |a| ensures a[i].name != a[j].name {
        assert (a + b)[i].name != (a + b)[j].name;
      }
    }
  }

  /** `pop` for each of the names: what is left, and the names that were not there (any more). */
  method PopAll(m: map<string, string>, names: seq<string>)
    returns (rest: map<string, string>, absent: seq<string>)
    ensures rest == m - Members(names)
    ensures absent == [] <==> Distinct(names) && Members(names) <= m.Keys
  {
    rest, absent := m, [];
    for i := 0 to |names|
      invariant rest == m - Members(names[..i])
      invariant absent == [] <==> Distinct(names[..i]) && Members(names[..i]) <= m.Keys
    {
      var name := names[i];
      assert names[..i + 1] == names[..i] + [name];
      DistinctSnoc(names[..i], name);
      assert Members(names[..i + 1]) == Members(names[..i]) + {name};
      if name !in rest {
        absent := absent + [name];
      }
      rest := rest - {name};
    }
    assert names[..|names|] == names;
  }

  lemma FrozenPrefix(lines: seq<string>, i: nat)
    requires i < |lines|
    ensures AllPlain(lines[..i + 1]) <==> AllPlain(lines[..i]) && PlainPin(lines[i])
    ensures Frozen(lines[..i + 1])
            == if PlainPin(lines[i]) then
                 var m := MatchFreeze(lines[i]).value;
                 Frozen(lines[..i]) + [PinHead(Canonical(m.name), m.version)]
               else Frozen(lines[..i])
  {
    var more, less := lines[..i + 1], lines[..i];
    assert more[..i] == less && more[i] == lines[i];
    assert forall k | 0 <= k < i :: more[k] == less[k];
  }

  /** The installed distributions in one dictionary. */
  method CollectFreeze(freeze: string) returns (have: map<string, string>, errors: seq<Error>)
    ensures have == Versions(Frozen(Lines(freeze)))
    ensures errors == [] <==> AllPlain(Lines(freeze)) && DistinctHeads(Frozen(Lines(freeze)))
  {
    ghost var all := Lines(freeze);
    have, errors := map[], [];
    var lines, bytes := LP.AsciiLines(freeze);
    for b := 0 to |bytes|
      invariant errors == [] <==> b == 0
    {
      assert bytes[b] in bytes;
      errors := errors + [NonAsciiLine(bytes[b].line)];
    }
    for i := 0 to |lines|
      invariant have == Versions(Frozen(all[..i]))
      invariant errors == []
                <==> bytes == [] && AllPlain(all[..i]) && DistinctHeads(Frozen(all[..i]))
    {
      FrozenPrefix(all, i);
      if lines[i].None? {
        NonAsciiSeen(all, i);
        continue;
      }
      var m := MatchFreeze(lines[i].value);
      if m.None? {
        errors := errors + [NotAPin(i + 1)];
        continue;
      }
      var name := Canonical(m.value.name);
      VersionsSnoc(Frozen(all[..i]), PinHead(name, m.value.version));
      if name in have {
        errors := errors + [AppearsTwice(i + 1, name)];
      }
      have := have[name := m.value.version];
    }
    assert all[..|all|] == all;
    PlainIsPrintable(all);
  }

  lemma NonAsciiSeen(lines: seq<string>, i: nat)
    requires i < |lines| && !AllPrintable(lines[i])
    ensures LP.NonAsciiErrors(lines) != []
  {
    LP.NonAsciiNone(lines);
  }

  lemma PlainIsPrintable(lines: seq<string>)
    ensures AllPlain(lines) ==> LP.NonAsciiErrors(lines) == []
  {
    LP.NonAsciiNone(lines);
  }

  /** One error for each name; the order of the names is left open. */
  method Report(errors: seq<Error>, names: set<string>, kind: string -> Error) returns (all: seq<Error>)
    ensures all == [] <==> errors == [] && names == {}
    ensures forall e :: e in all <==> e in errors || exists n :: n in names && e == kind(n)
  {
    all := errors;
    var rest := names;
    while rest != {}
      invariant rest <= names
      invariant all == [] <==> errors == [] && rest == names
      invariant forall e :: e in all <==> e in errors || exists n :: n in names - rest && e == kind(n)
    {
      var name :| name in rest;
      all := all + [kind(name)];
      rest := rest - {name};
    }
  }

  /** The gate accepts exactly the venvs that are locked. */
  method CmdFreeze(locks: seq<string>, drop: seq<string>, freeze: string, own: seq<string>)
    returns (rc: nat, errors: seq<Error>)
    ensures rc == 0 || rc == 1
    ensures rc == 0 <==> errors == []
    ensures rc == 0 <==> VenvIsLocked(locks, drop, freeze, own)
  {
    var want, have, absent, more;
    want, errors := CollectLocks(locks);
    want, absent := PopAll(want, CanonicalAll(drop));
    errors := errors + Named(absent, n => DropNotPinned(n));
    have, more := CollectFreeze(freeze);
    errors := errors + more;
    have, absent := PopAll(have, CanonicalAll(own));
    errors := errors + Named(absent, n => OwnNotInstalled(n));
    errors := Report(errors, have.Keys - want.Keys, n => NotInLocks(n));
    errors := Report(errors, want.Keys - have.Keys, n => NotInVenv(n));
    errors := Report(errors, (set n | n in want && n in have && want[n] != have[n]), n => VersionsDiffer(n));
    rc := if errors == [] then 0 else 1;
    RemovableKeys(CanonicalAll(drop), AllPins(locks));
    RemovableKeys(CanonicalAll(own), Frozen(Lines(freeze)));
    NoDifference(want, have);
    if DistinctHeads(AllPins(locks)) && DistinctHeads(Frozen(Lines(freeze))) {
      SameEntries(AllPins(locks), CanonicalAll(drop), Frozen(Lines(freeze)), CanonicalAll(own));
    }
  }

  function Named(names: seq<string>, kind: string -> Error): (errors: seq<Error>)
    ensures |errors| == |names|
  {
    if names == [] then [] else [kind(names[0])] + Named(names[1..], kind)
  }

  lemma RemovableKeys(names: seq<string>, heads: seq<PinHead>)
    ensures Removable(names, heads) <==> Distinct(names) && Members(names) <= Versions(heads).Keys
  {
    VersionKeys(heads);
  }

  lemma NoDifference(want: map<string, string>, have: map<string, string>)
    ensures want == have
            <==> have.Keys - want.Keys == {} && want.Keys - have.Keys == {}
                 && (set n | n in want && n in have && want[n] != have[n]) == {}
  {
    if have.Keys - want.Keys == {} && want.Keys - have.Keys == {}
       && (set n | n in want && n in have && want[n] != have[n]) == {}
    {
      forall n ensures n in want <==> n in have {
        assert n !in have.Keys - want.Keys && n !in want.Keys - have.Keys;
      }
      forall n | n in want ensures want[n] == have[n] {
        assert n !in set n | n in want && n in have && want[n] != have[n];
      }
    }
  }

  /** The dictionaries that are left agree exactly when the entries do. */
  lemma SameEntries(pinned: seq<PinHead>, drop: seq<string>, frozen: seq<PinHead>, own: seq<string>)
    requires DistinctHeads(pinned) && DistinctHeads(frozen)
    ensures Versions(pinned) - Members(drop) == Versions(frozen) - Members(own)
            <==> SameBut(pinned, drop, frozen, own)
  {
    var want, have := Versions(pinned) - Members(drop), Versions(frozen) - Members(own);
    forall h: PinHead
      ensures h in pinned && h.name !in drop <==> h.name in want && want[h.name] == h.version
      ensures h in frozen && h.name !in own <==> h.name in have && have[h.name] == h.version
    {
      VersionsExact(pinned, h);
      VersionsExact(frozen, h);
    }
    EqualMaps(want, have);
  }

  lemma EqualMaps(a: map<string, string>, b: map<string, string>)
    ensures a == b
            <==> forall h: PinHead :: (h.name in a && a[h.name] == h.version) <==> (h.name in b && b[h.name] == h.version)
  {
    if forall h: PinHead :: (h.name in a && a[h.name] == h.version) <==> (h.name in b && b[h.name] == h.version) {
      forall n | n in a ensures n in b && a[n] == b[n] {
        var h := PinHead(n, a[n]);
        assert h.name in b && b[h.name] == h.version;
      }
      forall n | n in b ensures n in a {
        var h := PinHead(n, b[n]);
        assert h.name in a && a[h.name] == h.version;
      }
      assert a.Keys == b.Keys;
    }
  }

  // ------------------------------------------------------------------ in terms of the files

  /** Some lockfile has a pin of this name and version. */
  ghost predicate PinnedIn(locks: seq<string>, h: PinHead) {
    exists lock :: lock in locks && Pins(LP.ParsedPins(lock), h)
  }

  ghost predicate Pins(pins: seq<Pin>, h: PinHead) {
    exists pin :: pin in pins && pin.name == h.name && pin.version == h.version
  }

  /** Some line of the freeze output is a pin of this version, under a name that normalises to this. */
  ghost predicate InstalledIn(lines: seq<string>, h: PinHead) {
    exists line, name ::
      && line in lines && line == name + "==" + h.version && Canonical(name) == h.name
      && AllPrintable(line) && IsFreezeName(name) && IsVersion(h.version)
  }

  lemma {:induction false} HeadsExact(pins: seq<Pin>, h: PinHead)
    ensures h in Heads(pins) <==> Pins(pins, h)
  {
    if pins != [] {
      var n := |pins| - 1;
      HeadsExact(pins[..n], h);
      assert forall pin :: pin in pins <==> pin in pins[..n] || pin == pins[n];
    }
  }

  lemma PinnedSnoc(init: seq<string>, lock: string, locks: seq<string>, h: PinHead)
    requires locks == init + [lock]
    ensures PinnedIn(locks, h) <==> PinnedIn(init, h) || Pins(LP.ParsedPins(lock), h)
    ensures h in AllPins(locks) <==> h in AllPins(init) || Pins(LP.ParsedPins(lock), h)
  {
    assert forall l :: l in locks <==> l in init || l == lock;
    assert locks[..|init|] == init;
    HeadsExact(LP.ParsedPins(lock), h);
  }

  lemma SplitLast(locks: seq<string>) returns (init: seq<string>, last: string)
    requires locks != []
    ensures locks == init + [last] && |init| < |locks|
  {
    init, last := locks[..|locks| - 1], locks[|locks| - 1];
  }

  lemma NothingPinned(h: PinHead)
    ensures h !in AllPins([]) && !PinnedIn([], h)
  {
  }

  lemma {:induction false} PinsExact(locks: seq<string>, h: PinHead)
    ensures h in AllPins(locks) <==> PinnedIn(locks, h)
    decreases |locks|
  {
    if locks == [] {
      NothingPinned(h);
    } else {
      var init, last := SplitLast(locks);
      PinsExact(init, h);
      PinnedSnoc(init, last, locks, h);
    }
  }

  lemma PlainLine(line: string, h: PinHead)
    ensures (exists name :: line == name + "==" + h.version && Canonical(name) == h.name
               && AllPrintable(line) && IsFreezeName(name) && IsVersion(h.version))
            <==> PlainPin(line) && PinHead(Canonical(MatchFreeze(line).value.name), MatchFreeze(line).value.version) == h
  {
    forall name ensures MatchFreeze(line) == Some(PinHead(name, h.version))
                        <==> IsFreezeName(name) && IsVersion(h.version) && line == name + "==" + h.version {
      FreezeMatcherExact(line, name, h.version);
    }
  }

  lemma {:induction false} FrozenExact(lines: seq<string>, h: PinHead)
    ensures h in Frozen(lines) <==> InstalledIn(lines, h)
  {
    if lines != [] {
      var n := |lines| - 1;
      FrozenExact(lines[..n], h);
      PlainLine(lines[n], h);
      assert forall line :: line in lines <==> line in lines[..n] || line == lines[n];
    }
  }

  /** What a success says of the files: apart from dropped and own names, a version of a name is pinned
      exactly if it is installed. */
  lemma LockedVenv(locks: seq<string>, drop: seq<string>, freeze: string, own: seq<string>, h: PinHead)
    requires VenvIsLocked(locks, drop, freeze, own)
    ensures PinnedIn(locks, h) && (forall d | d in drop :: Canonical(d) != h.name)
            <==> InstalledIn(Lines(freeze), h) && (forall o | o in own :: Canonical(o) != h.name)
  {
    PinsExact(locks, h);
    FrozenExact(Lines(freeze), h);
    NamedExact(drop, h.name);
    NamedExact(own, h.name);
  }

  lemma NamedExact(names: seq<string>, name: string)
    ensures name in CanonicalAll(names) <==> exists n :: n in names && Canonical(n) == name
  {
    if name in CanonicalAll(names) {
      var i :| 0 <= i < |names| && CanonicalAll(names)[i] == name;
      assert names[i] in names;
    }
    if n :| n in names && Canonical(n) == name {
      var i :| 0 <= i < |names| && names[i] == n;
      assert CanonicalAll(names)[i] == name;
    }
  }

  lemma {:induction false} FrozenCanonical(lines: seq<string>)
    ensures forall h | h in Frozen(lines) :: IsCanonical(h.name)
  {
    if lines != [] {
      var n := |lines| - 1;
      FrozenCanonical(lines[..n]);
      if PlainPin(lines[n]) {
        CanonicalShape(MatchFreeze(lines[n]).value.name);
      }
    }
  }

  /** On success every pinned name, dropped or not, is the canonical form of itself. */
  lemma LockedNamesCanonical(locks: seq<string>, drop: seq<string>, freeze: string, own: seq<string>)
    requires VenvIsLocked(locks, drop, freeze, own)
    ensures forall h | h in AllPins(locks) :: Canonical(h.name) == h.name
  {
    var pinned, frozen := AllPins(locks), Frozen(Lines(freeze));
    forall h | h in pinned ensures Canonical(h.name) == h.name {
      if h.name in CanonicalAll(drop) {
        DroppedCanonical(drop, h.name);
      } else {
        assert h in frozen;
        FrozenCanonical(Lines(freeze));
        CanonicalShape(h.name);
      }
    }
  }

  lemma DroppedCanonical(drop: seq<string>, name: string)
    requires name in CanonicalAll(drop)
    ensures Canonical(name) == name
  {
    var i :| 0 <= i < |drop| && CanonicalAll(drop)[i] == name;
    CanonicalIdempotent(drop[i]);
  }
}
