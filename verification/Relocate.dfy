/** `debian/venv-relocate`: files of a venv are rewritten in place for their installed path, and
    the RECORD index of every distribution stays true.

    Contents are strings of bytes, held by resolved path. Resolution of links, CSV, SHA-256 and
    the compiler are functions of the environment. */
module Relocate {
  import opened Text
  import opened Decimals

  /** One row of a RECORD; an empty hash means that none is kept. */
  datatype Row = Row(path: string, hash: string, size: string)

  datatype Env = Env(
    walk: seq<string>,                       // the files found under the venv
    records: seq<string>,                    // its RECORD files
    resolve: string -> string,               // os.path.realpath
    locate: (string, string) -> string,      // the file that a row of this (resolved) RECORD names
    rowsOf: string -> seq<Row>,
    textOf: (seq<Row>, string) -> string,    // rows as CSV with this line terminator
    digest: string -> string,                // SHA-256 in base64
    compiled: string -> string)              // the new content of a .pyc file

  type Files = map<string, string>

  // ------------------------------------------------------------------ rewriting one file

  /** `bytes.replace` of every occurrence, from the left. */
  function ReplaceAll(s: string, old_: string, new_: string): string
    requires old_ != ""
  {
    if |s| < |old_| then s
    else if StartsWith(s, old_) then new_ + ReplaceAll(s[|old_|..], old_, new_)
    else [s[0]] + ReplaceAll(s[1..], old_, new_)
  }

  const TrampolineStart := "#!/bin/sh\n'''exec' "
  const TrampolineEnd := " \"$0\" \"$@\"\n' '''\n"

  /** `\s` of a pattern over bytes. */
  predicate IsBlank(c: char) {
    c == ' ' || '\t' <= c <= '\r'
  }

  /** The length of the longest prefix without a blank. */
  function Unbroken(s: string): (n: nat)
    ensures n <= |s| && (n < |s| ==> IsBlank(s[n]))
    ensures forall i | 0 <= i < n :: !IsBlank(s[i])
  {
    if s == "" || IsBlank(s[0]) then 0 else 1 + Unbroken(s[1..])
  }

  /** `(?:"([^"]+)"|(\S+))` and then `end`: the interpreter and the text behind the match. */
  function MatchInterpreter(s: string, end: string): Option<(string, string)> {
    var quoted := if s != "" && s[0] == '"' then Find(s[1..], '"') else 0;
    if quoted > 0 && quoted + 1 < |s| && StartsWith(s[quoted + 2..], end) then
      Some((s[1..quoted + 1], s[quoted + 2 + |end|..]))
    else
      var k := Unbroken(s);
      if k > 0 && StartsWith(s[k..], end) then Some((s[..k], s[k + |end|..])) else None
  }

  predicate QuotedForm(s: string, end: string, path: string, rest: string) {
    path != "" && '"' !in path && s == ['"'] + path + ['"'] + end + rest
  }

  predicate PlainForm(s: string, end: string, path: string, rest: string) {
    path != "" && (forall i | 0 <= i < |path| :: !IsBlank(path[i])) && s == path + end + rest
  }

  /** The matcher finds a quoted interpreter if there is one, else a plain one, and nothing else. */
  lemma InterpreterExact(s: string, end: string)
    requires end != "" && IsBlank(end[0])
    ensures forall path, rest | QuotedForm(s, end, path, rest) :: MatchInterpreter(s, end) == Some((path, rest))
    ensures forall path, rest | PlainForm(s, end, path, rest) ::
              MatchInterpreter(s, end) == Some((path, rest))
              || (MatchInterpreter(s, end).Some? && QuotedForm(s, end, MatchInterpreter(s, end).value.0, MatchInterpreter(s, end).value.1))
    ensures var m := MatchInterpreter(s, end);
            m.Some? ==> QuotedForm(s, end, m.value.0, m.value.1) || PlainForm(s, end, m.value.0, m.value.1)
  {
    forall path, rest | QuotedForm(s, end, path, rest)
      ensures MatchInterpreter(s, end) == Some((path, rest))
    {
      QuotedFound(s, end, path, rest);
    }
    forall path, rest | PlainForm(s, end, path, rest)
      ensures Unbroken(s) == |path| && s[..|path|] == path && StartsWith(s[|path|..], end)
              && s[|path| + |end|..] == rest
    {
      PlainFound(s, end, path, rest);
    }
    FoundHasForm(s, end);
  }

  lemma QuotedFound(s: string, end: string, path: string, rest: string)
    requires QuotedForm(s, end, path, rest)
    ensures MatchInterpreter(s, end) == Some((path, rest))
  {
    QuotedParts(path, end, rest);
    assert forall k | 0 <= k < |path| :: s[1..][k] == path[k];
    FindIs(s[1..], '"', |path|);
  }

  lemma QuotedParts(path: string, end: string, rest: string)
    ensures var s := ['"'] + path + ['"'] + end + rest;
            && s[1..] == path + ['"'] + end + rest && s[0] == '"' && |path| + 1 < |s|
            && s[|path| + 2..] == end + rest && s[1..|path| + 1] == path
            && StartsWith(s[|path| + 2..], end) && s[|path| + 2 + |end|..] == rest
  {
    var s := ['"'] + path + ['"'] + end + rest;
    assert s[1..] == path + ['"'] + end + rest;
    assert s[|path| + 2..] == end + rest;
    assert s[1..|path| + 1] == path;
  }

  lemma PlainFound(s: string, end: string, path: string, rest: string)
    requires end != "" && IsBlank(end[0]) && PlainForm(s, end, path, rest)
    ensures Unbroken(s) == |path| && s[..|path|] == path && StartsWith(s[|path|..], end)
            && s[|path| + |end|..] == rest
  {
    assert s[|path|] == end[0];
    forall i | 0 <= i < |path| ensures s[i] == path[i] {}
    assert s[|path|..] == end + rest;
  }

  lemma FoundHasForm(s: string, end: string)
    ensures var m := MatchInterpreter(s, end);
            m.Some? ==> QuotedForm(s, end, m.value.0, m.value.1) || PlainForm(s, end, m.value.0, m.value.1)
  {
    var quoted := if s != "" && s[0] == '"' then Find(s[1..], '"') else 0;
    var k := Unbroken(s);
    if quoted > 0 && quoted + 1 < |s| && StartsWith(s[quoted + 2..], end) {
      assert s[quoted + 1] == s[1..][quoted];
      var path := s[1..quoted + 1];
      forall i | 0 <= i < quoted ensures path[i] != '"' {
        assert path[i] == s[1..][i];
      }
      QuotedSplit(s, quoted, end);
    } else if k > 0 && StartsWith(s[k..], end) {
      PlainSplit(s, k, end);
    }
  }

  lemma QuotedSplit(s: string, n: nat, end: string)
    requires n + 1 < |s| && s[0] == '"' && s[n + 1] == '"' && StartsWith(s[n + 2..], end)
    ensures s == ['"'] + s[1..n + 1] + ['"'] + end + s[n + 2 + |end|..]
  {
    PlainSplit(s, n + 2, end);
    assert s[..n + 2] == ['"'] + s[1..n + 1] + ['"'];
  }

  lemma PlainSplit(s: string, n: nat, end: string)
    requires n <= |s| && StartsWith(s[n..], end)
    ensures s == s[..n] + end + s[n + |end|..]
  {
    assert s[n..] == end + s[n..][|end|..];
    assert s == s[..n] + s[n..];
  }

  /** The interpreter named by distlib's trampoline, and the text after the trampoline. */
  function MatchTrampoline(data: string): Option<(string, string)> {
    if StartsWith(data, TrampolineStart) then MatchInterpreter(data[|TrampolineStart|..], TrampolineEnd) else None
  }

  /** The trampoline becomes a plain shebang, then the build path the installed path. */
  function Rewritten(data: string, old_: string, new_: string): string
    requires old_ != ""
  {
    var plain := match MatchTrampoline(data)
                 case Some(m) => "#!" + m.0 + "\n" + m.1
                 case None => data;
    ReplaceAll(plain, old_, new_)
  }

  // ------------------------------------------------------------------ what replacing means

  /** The parts with `sep` between each two of them. */
  function JoinedBy(parts: seq<string>, sep: string): string
    requires parts != []
  {
    if |parts| == 1 then parts[0] else parts[0] + sep + JoinedBy(parts[1..], sep)
  }

  /** `part` followed by `old_` holds `old_` nowhere before its end. */
  ghost predicate EndsFirst(part: string, old_: string) {
    forall k | 0 <= k < |part| :: !StartsWith((part + old_)[k..], old_)
  }

  /** The parts of `s` between the occurrences of `old_` that are met from the left. */
  ghost predicate CutBy(s: string, old_: string, parts: seq<string>) {
    && parts != [] && s == JoinedBy(parts, old_)
    && (forall i | 0 <= i < |parts| - 1 :: EndsFirst(parts[i], old_))
    && !Contains(parts[|parts| - 1], old_)
  }

  /** `t` is `s` with `new_` at each of these occurrences. */
  ghost predicate Replaced(s: string, t: string, old_: string, new_: string) {
    exists parts :: CutBy(s, old_, parts) && t == JoinedBy(parts, new_)
  }

  lemma {:induction false} ReplaceNothing(s: string, old_: string, new_: string)
    requires old_ != "" && !Contains(s, old_)
    ensures ReplaceAll(s, old_, new_) == s
  {
    assert s[0..] == s;
    if |s| >= |old_| {
      NotInTail(s, old_);
      ReplaceNothing(s[1..], old_, new_);
    }
  }

  lemma NotInTail(s: string, old_: string)
    requires s != "" && !Contains(s, old_)
    ensures !Contains(s[1..], old_)
  {
    forall i | 0 <= i <= |s[1..]| ensures !StartsWith(s[1..][i..], old_) {
      assert s[1..][i..] == s[i + 1..];
    }
  }

  /** The first occurrence is replaced, and then what follows it. */
  lemma {:induction false} ReplaceFirst(part: string, rest: string, old_: string, new_: string)
    requires old_ != "" && EndsFirst(part, old_)
    ensures ReplaceAll(part + old_ + rest, old_, new_) == part + new_ + ReplaceAll(rest, old_, new_)
  {
    var s := part + old_ + rest;
    if part == "" {
      assert s == old_ + rest && s[..|old_|] == old_ && s[|old_|..] == rest;
      assert "" + new_ == new_;
    } else {
      NotYet(part, rest, old_);
      EndsFirstTail(part, old_);
      ReplaceFirst(part[1..], rest, old_, new_);
      assert s[1..] == part[1..] + old_ + rest;
      OneAhead(part, new_, ReplaceAll(rest, old_, new_));
    }
  }

  lemma OneAhead(part: string, b: string, c: string)
    requires part != ""
    ensures [part[0]] + (part[1..] + b + c) == part + b + c
  {
  }

  lemma NotYet(part: string, rest: string, old_: string)
    requires part != "" && EndsFirst(part, old_)
    ensures !StartsWith(part + old_ + rest, old_)
  {
    var short := part + old_;
    assert short[0..] == short && !StartsWith(short[0..], old_);
    assert (short + rest)[..|old_|] == short[..|old_|];
  }

  lemma EndsFirstTail(part: string, old_: string)
    requires part != "" && EndsFirst(part, old_)
    ensures EndsFirst(part[1..], old_)
  {
    forall k | 0 <= k < |part[1..]| ensures !StartsWith((part[1..] + old_)[k..], old_) {
      assert (part[1..] + old_)[k..] == (part + old_)[k + 1..];
    }
  }

  lemma CutTail(old_: string, parts: seq<string>)
    requires |parts| > 1 && CutBy(JoinedBy(parts, old_), old_, parts)
    ensures CutBy(JoinedBy(parts[1..], old_), old_, parts[1..])
  {
    assert forall i | 0 <= i < |parts[1..]| :: parts[1..][i] == parts[i + 1];
  }

  /** However a text is cut at the occurrences from the left, replacing joins the same parts. */
  lemma {:induction false} ReplaceJoins(s: string, old_: string, new_: string, parts: seq<string>)
    requires old_ != "" && CutBy(s, old_, parts)
    ensures ReplaceAll(s, old_, new_) == JoinedBy(parts, new_)
    decreases |parts|
  {
    if |parts| == 1 {
      ReplaceNothing(s, old_, new_);
    } else {
      CutTail(old_, parts);
      ReplaceJoins(JoinedBy(parts[1..], old_), old_, new_, parts[1..]);
      ReplaceFirst(parts[0], JoinedBy(parts[1..], old_), old_, new_);
    }
  }

  /** The first occurrence. */
  lemma {:induction false} FirstCut(s: string, old_: string) returns (k: nat)
    requires old_ != "" && Contains(s, old_)
    ensures k + |old_| <= |s| && s == s[..k] + old_ + s[k + |old_|..] && EndsFirst(s[..k], old_)
  {
    if StartsWith(s, old_) {
      k := 0;
    } else {
      OccursLater(s, old_);
      k := FirstCut(s[1..], old_);
      TailParts(s, k, |old_|);
      Grows(s, k, old_);
      k := k + 1;
    }
  }

  lemma OccursLater(s: string, old_: string)
    requires Contains(s, old_) && !StartsWith(s, old_)
    ensures s != "" && Contains(s[1..], old_)
  {
    var i :| 0 <= i <= |s| && StartsWith(s[i..], old_);
    assert s[0..] == s;
    assert s[1..][i - 1..] == s[i..];
  }

  lemma TailParts(s: string, k: nat, n: nat)
    requires k + 1 + n <= |s|
    ensures s[1..][..k] == s[..k + 1][1..] && s[1..][k + n..] == s[k + 1 + n..]
  {
  }

  lemma Grows(s: string, k: nat, old_: string)
    requires k + 1 + |old_| <= |s| && old_ != "" && !StartsWith(s, old_)
    requires s[1..] == s[..k + 1][1..] + old_ + s[k + 1 + |old_|..] && EndsFirst(s[..k + 1][1..], old_)
    ensures s == s[..k + 1] + old_ + s[k + 1 + |old_|..] && EndsFirst(s[..k + 1], old_)
  {
    var part := s[..k + 1];
    OneAhead(part, old_, s[k + 1 + |old_|..]);
    assert s == [s[0]] + s[1..];
    forall j | 0 <= j < |part| ensures !StartsWith((part + old_)[j..], old_) {
      if j == 0 {
        assert (part + old_)[0..][..|old_|] == s[..|old_|];
      } else {
        assert (part + old_)[j..] == (part[1..] + old_)[j - 1..];
      }
    }
  }

  /** Every text can be cut so. */
  lemma {:induction false} CutExists(s: string, old_: string) returns (parts: seq<string>)
    requires old_ != ""
    ensures CutBy(s, old_, parts)
    decreases |s|
  {
    if !Contains(s, old_) {
      parts := [s];
    } else {
      var k := FirstCut(s, old_);
      var rest := CutExists(s[k + |old_|..], old_);
      parts := [s[..k]] + rest;
      assert parts[1..] == rest;
    }
  }

  /** Replacing puts `new_` at every occurrence met from the left, and changes nothing else. */
  lemma ReplaceAllExact(s: string, t: string, old_: string, new_: string)
    requires old_ != ""
    ensures t == ReplaceAll(s, old_, new_) <==> Replaced(s, t, old_, new_)
  {
    var parts := CutExists(s, old_);
    ReplaceJoins(s, old_, new_, parts);
    if Replaced(s, t, old_, new_) {
      var other :| CutBy(s, old_, other) && t == JoinedBy(other, new_);
      ReplaceJoins(s, old_, new_, other);
    }
  }

  /** `data` starts with distlib's trampoline for the interpreter at `path`, in quotes. */
  ghost predicate QuotedTrampoline(data: string, path: string, rest: string) {
    exists s :: data == "#!/bin/sh\n'''exec' " + s && QuotedForm(s, " \"$0\" \"$@\"\n' '''\n", path, rest)
  }

  /** The same without quotes, for a path without white space. */
  ghost predicate PlainTrampoline(data: string, path: string, rest: string) {
    exists s ::
      && data == "#!/bin/sh\n'''exec' " + s && s == path + " \"$0\" \"$@\"\n' '''\n" + rest
      && path != "" && forall i | 0 <= i < |path| :: path[i] != ' ' && !('\t' <= path[i] <= '\r')
  }

  /** A quoted reading comes first. */
  ghost predicate Trampoline(data: string, path: string, rest: string) {
    QuotedTrampoline(data, path, rest)
    || (PlainTrampoline(data, path, rest) && forall p, r :: !QuotedTrampoline(data, p, r))
  }

  lemma BehindStart(start: string, s: string)
    ensures StartsWith(start + s, start) && (start + s)[|start|..] == s
  {
  }

  lemma StartCut(data: string, start: string)
    requires StartsWith(data, start)
    ensures data == start + data[|start|..]
  {
  }

  /** The trampoline matcher finds exactly this. */
  lemma TrampolineExact(data: string, path: string, rest: string)
    ensures MatchTrampoline(data) == Some((path, rest)) <==> Trampoline(data, path, rest)
  {
    var start, end := TrampolineStart, TrampolineEnd;
    assert end[0] == ' ';
    if StartsWith(data, start) {
      var s := data[|start|..];
      StartCut(data, start);
      InterpreterExact(s, end);
      forall p, r ensures QuotedTrampoline(data, p, r) <==> QuotedForm(s, end, p, r) {
        OnlyTail(data, start, s);
      }
      forall p, r ensures PlainTrampoline(data, p, r) <==> PlainForm(s, end, p, r) {
        OnlyTail(data, start, s);
      }
    } else {
      forall s ensures data != start + s {
        BehindStart(start, s);
      }
    }
  }

  lemma OnlyTail(data: string, start: string, s: string)
    requires data == start + s
    ensures forall s' | data == start + s' :: s' == s
  {
    forall s' | data == start + s' ensures s' == s {
      BehindStart(start, s');
      BehindStart(start, s);
    }
  }

  /** `t` is what becomes of `data`: a trampoline turns into `#!`, the interpreter and a line feed, and
      then the build path into the installed path at every occurrence. */
  ghost predicate RewrittenTo(data: string, t: string, old_: string, new_: string) {
    && (forall path, rest | Trampoline(data, path, rest) :: Replaced("#!" + path + "\n" + rest, t, old_, new_))
    && ((forall path, rest :: !Trampoline(data, path, rest)) ==> Replaced(data, t, old_, new_))
  }

  /** The file is rewritten to this text and no other. */
  lemma RewrittenExact(data: string, t: string, old_: string, new_: string)
    requires old_ != ""
    ensures t == Rewritten(data, old_, new_) <==> RewrittenTo(data, t, old_, new_)
  {
    forall path, rest ensures MatchTrampoline(data) == Some((path, rest)) <==> Trampoline(data, path, rest) {
      TrampolineExact(data, path, rest);
    }
    match MatchTrampoline(data)
    case Some(m) =>
      assert Trampoline(data, m.0, m.1);
      ReplaceAllExact("#!" + m.0 + "\n" + m.1, t, old_, new_);
    case None =>
      ReplaceAllExact(data, t, old_, new_);
  }

  // ------------------------------------------------------------------ the files afterwards

  predicate IsPyc(p: string) {
    EndsWith(p, ".pyc")
  }

  function Reals(paths: seq<string>, env: Env): set<string> {
    set p | p in paths :: env.resolve(p)
  }

  function Pycs(paths: seq<string>): seq<string> {
    if paths == [] then []
    else
      var n := |paths| - 1;
      if IsPyc(paths[n]) then Pycs(paths[..n]) + [paths[n]] else Pycs(paths[..n])
  }

  /** The files that hold the build path and are no byte code, by resolved path. */
  function Changed(files: Files, paths: seq<string>, env: Env, old_: string): set<string> {
    set p | p in paths && !IsPyc(p) && env.resolve(p) in files && Contains(files[env.resolve(p)], old_) :: env.resolve(p)
  }

  function AfterRewrite(files: Files, env: Env, old_: string, new_: string): Files
    requires old_ != ""
  {
    WithRewritten(files, Changed(files, env.walk, env, old_), old_, new_)
  }

  /** The files with these rewritten. */
  function WithRewritten(files: Files, changed: set<string>, old_: string, new_: string): Files
    requires old_ != ""
  {
    map f | f in files :: if f in changed then Rewritten(files[f], old_, new_) else files[f]
  }

  lemma OneMoreRewritten(files: Files, changed: set<string>, f: string, old_: string, new_: string)
    requires old_ != "" && f in files && f !in changed
    ensures WithRewritten(files, changed, old_, new_)[f] == files[f]
    ensures WithRewritten(files, changed, old_, new_)[f := Rewritten(files[f], old_, new_)]
            == WithRewritten(files, changed + {f}, old_, new_)
  {
  }

  function AfterCompile(files: Files, env: Env): Files {
    Compiled(files, Reals(Pycs(env.walk), env), env)
  }

  function Compiled(files: Files, pycs: set<string>, env: Env): Files {
    map f | f in files :: if f in pycs then env.compiled(f) else files[f]
  }

  lemma OneMoreCompiled(files: Files, pycs: set<string>, f: string, env: Env)
    requires f in files
    ensures Compiled(files, pycs, env)[f := env.compiled(f)] == Compiled(files, pycs + {f}, env)
  {
  }

  /** `record_hash` */
  function RecordHash(data: string, env: Env): string {
    "sha256=" + env.digest(data)
  }

  function RehashRow(row: Row, rec: string, files: Files, changed: set<string>, env: Env): Row {
    var f := env.locate(rec, row.path);
    if row.hash != "" && f in changed && f in files then
      row.(hash := RecordHash(files[f], env), size := Natural(|files[f]|))
    else row
  }

  function RehashRows(rows: seq<Row>, rec: string, files: Files, changed: set<string>, env: Env): (r: seq<Row>)
    ensures |r| == |rows|
    ensures forall i | 0 <= i < |rows| :: r[i] == RehashRow(rows[i], rec, files, changed, env)
  {
    if rows == [] then []
    else
      var n := |rows| - 1;
      RehashRows(rows[..n], rec, files, changed, env) + [RehashRow(rows[n], rec, files, changed, env)]
  }

  /** The line terminator that a RECORD is written with again. */
  function Terminator(raw: string): string {
    if Contains(raw, "\r\n") then "\r\n" else "\n"
  }

  /** The new text of a RECORD. */
  function RehashText(raw: string, rec: string, files: Files, changed: set<string>, env: Env): string {
    env.textOf(RehashRows(env.rowsOf(raw), rec, files, changed, env), Terminator(raw))
  }

  /** The third loop: each RECORD in turn, its rows hashed from the files as they are by then. */
  function RehashAll(files: Files, recs: seq<string>, changed: set<string>, env: Env): Files {
    if recs == [] then files
    else
      var n := |recs| - 1;
      var now, rec := RehashAll(files, recs[..n], changed, env), env.resolve(recs[n]);
      if rec in now then now[rec := RehashText(now[rec], rec, now, changed, env)] else now
  }

  /** The tree before the third loop. */
  function BeforeRehash(files: Files, env: Env, old_: string, new_: string): Files
    requires old_ != ""
  {
    AfterCompile(AfterRewrite(files, env, old_, new_), env)
  }

  /** The tree afterwards. */
  function Relocated(files: Files, env: Env, old_: string, new_: string): Files
    requires old_ != ""
  {
    RehashAll(BeforeRehash(files, env, old_, new_), env.records, Changed(files, env.walk, env, old_), env)
  }

  // ------------------------------------------------------------------ assumptions about the tree

  /** The walk finds existing files, each once; what it calls byte code is byte code after
      resolution; the RECORD files exist and are not byte code; CSV reads back what it wrote. */
  ghost predicate Tree(files: Files, env: Env) {
    && (forall p | p in env.walk :: env.resolve(p) in files && (IsPyc(p) <==> IsPyc(env.resolve(p))))
    && (forall i, j | 0 <= i < j < |env.walk| :: env.resolve(env.walk[i]) != env.resolve(env.walk[j]))
    && (forall r | r in env.records :: env.resolve(r) in files && !IsPyc(env.resolve(r)))
    && ReadsBack(env)
  }

  ghost predicate ReadsBack(env: Env) {
    forall rows, raw :: env.rowsOf(env.textOf(rows, Terminator(raw))) == rows
  }

  // ------------------------------------------------------------------ the claim

  ghost predicate RowMatches(row: Row, content: string, env: Env) {
    row.hash == RecordHash(content, env) && row.size == Natural(|content|)
  }

  /** This RECORD text has this row, with a hash. */
  ghost predicate Hashed(text: string, row: Row, env: Env) {
    row in env.rowsOf(text) && row.hash != ""
  }

  /** Every hashed row of this RECORD matches the file it names. */
  ghost predicate RecordMatches(files: Files, env: Env, rec: string) {
    rec in files
    && forall row | Hashed(files[rec], row, env) ::
         var f := env.locate(rec, row.path); f in files && RowMatches(row, files[f], env)
  }

  ghost predicate AllMatch(files: Files, env: Env) {
    forall r | r in env.records :: RecordMatches(files, env, env.resolve(r))
  }

  lemma {:induction false} PycsSubset(paths: seq<string>)
    ensures forall p :: p in Pycs(paths) <==> p in paths && IsPyc(p)
  {
    if paths != [] {
      var n := |paths| - 1;
      PycsSubset(paths[..n]);
      assert forall p :: p in paths <==> p in paths[..n] || p == paths[n];
    }
  }

  // ------------------------------------------------------------------ the third loop

  lemma RealsSnoc(recs: seq<string>, r: string, env: Env)
    ensures Reals(recs + [r], env) == Reals(recs, env) + {env.resolve(r)}
  {
    assert forall p :: p in recs + [r] <==> p in recs || p == r;
  }

  /** The last place of this RECORD in the list. */
  function Last(f: string, recs: seq<string>, env: Env): (k: nat)
    requires f in Reals(recs, env)
    ensures k < |recs| && env.resolve(recs[k]) == f
    ensures forall j | k < j < |recs| :: env.resolve(recs[j]) != f
  {
    var n := |recs| - 1;
    assert recs == recs[..n] + [recs[n]];
    RealsSnoc(recs[..n], recs[n], env);
    if env.resolve(recs[n]) == f then n else Last(f, recs[..n], env)
  }

  /** The third loop neither adds nor removes files, and changes no other file. */
  lemma {:induction false} NoRecordNoChange(files: Files, recs: seq<string>, changed: set<string>, env: Env)
    ensures var now := RehashAll(files, recs, changed, env);
            now.Keys == files.Keys && forall f | f in files && f !in Reals(recs, env) :: now[f] == files[f]
  {
    if recs != [] {
      var n := |recs| - 1;
      assert recs == recs[..n] + [recs[n]];
      RealsSnoc(recs[..n], recs[n], env);
      NoRecordNoChange(files, recs[..n], changed, env);
    }
  }

  /** A RECORD that does not come again stays as it is. */
  lemma {:induction false} NotAgain(files: Files, recs: seq<string>, i: nat, changed: set<string>, env: Env, f: string)
    requires i <= |recs| && f in files && forall j | i <= j < |recs| :: env.resolve(recs[j]) != f
    ensures f in RehashAll(files, recs[..i], changed, env) && f in RehashAll(files, recs, changed, env)
    ensures RehashAll(files, recs, changed, env)[f] == RehashAll(files, recs[..i], changed, env)[f]
    decreases |recs|
  {
    NoRecordNoChange(files, recs[..i], changed, env);
    if i == |recs| {
      assert recs[..i] == recs;
    } else {
      var n := |recs| - 1;
      assert recs[..n][..i] == recs[..i];
      NotAgain(files, recs[..n], i, changed, env, f);
    }
  }

  /** The rows of a RECORD while it may have been written already: as before, but for the hashes and
      sizes of rows of rewritten files. */
  ghost predicate Shaped(now: seq<Row>, before: seq<Row>, rec: string, files: Files, changed: set<string>, env: Env) {
    && |now| == |before|
    && forall i | 0 <= i < |now| ::
         && now[i].path == before[i].path && (now[i].hash == "" <==> before[i].hash == "")
         && (now[i] == before[i] || (before[i].hash != "" && env.locate(rec, before[i].path) in changed * files.Keys))
  }

  lemma ShapedOnce(rows: seq<Row>, before: seq<Row>, rec: string, now: Files, files: Files, changed: set<string>,
                   env: Env)
    requires Shaped(rows, before, rec, files, changed, env) && now.Keys == files.Keys
    ensures Shaped(RehashRows(rows, rec, now, changed, env), before, rec, files, changed, env)
    ensures RehashRows(rows, rec, now, changed, env) == RehashRows(before, rec, now, changed, env)
  {
    var a, b := RehashRows(rows, rec, now, changed, env), RehashRows(before, rec, now, changed, env);
    forall i | 0 <= i < |rows| ensures a[i] == b[i] && (a[i].hash == "" <==> before[i].hash == "") {
    }
  }

  lemma {:induction false} ShapeKept(files: Files, recs: seq<string>, changed: set<string>, env: Env, f: string)
    requires ReadsBack(env) && f in files
    ensures var now := RehashAll(files, recs, changed, env);
            f in now && Shaped(env.rowsOf(now[f]), env.rowsOf(files[f]), f, files, changed, env)
  {
    NoRecordNoChange(files, recs, changed, env);
    if recs != [] {
      var init, rec := recs[..|recs| - 1], env.resolve(recs[|recs| - 1]);
      var now := RehashAll(files, init, changed, env);
      NoRecordNoChange(files, init, changed, env);
      ShapeKept(files, init, changed, env, f);
      if rec == f {
        ShapedOnce(env.rowsOf(now[f]), env.rowsOf(files[f]), f, now, files, changed, env);
      }
    }
  }

  /** In the end the rows of a RECORD are those it had, hashed from the tree as it was when the
      RECORD was met for the last time. */
  lemma FinalRows(files: Files, recs: seq<string>, changed: set<string>, env: Env, rec: string)
    requires ReadsBack(env) && rec in files && rec in Reals(recs, env)
    ensures var now, k := RehashAll(files, recs, changed, env), Last(rec, recs, env);
            rec in now
            && env.rowsOf(now[rec])
               == RehashRows(env.rowsOf(files[rec]), rec, RehashAll(files, recs[..k], changed, env), changed, env)
  {
    var k := Last(rec, recs, env);
    var then_ := RehashAll(files, recs[..k], changed, env);
    assert recs[..k + 1][..k] == recs[..k] && recs[..k + 1][k] == recs[k];
    NoRecordNoChange(files, recs[..k], changed, env);
    ShapeKept(files, recs[..k], changed, env, rec);
    ShapedOnce(env.rowsOf(then_[rec]), env.rowsOf(files[rec]), rec, then_, files, changed, env);
    NotAgain(files, recs, k + 1, changed, env, rec);
  }

  // ------------------------------------------------------------------ the condition, before the call

  /** The text of a RECORD when its rows are read: the build path is replaced in it. */
  function RecordText(files: Files, env: Env, old_: string, new_: string, rec: string): string
    requires old_ != "" && rec in files
  {
    AfterRewrite(files, env, old_, new_)[rec]
  }

  /** The tree when `i` RECORDs have been hashed again. */
  function Stage(files: Files, env: Env, old_: string, new_: string, i: nat): Files
    requires old_ != "" && i <= |env.records|
  {
    RehashAll(BeforeRehash(files, env, old_, new_), env.records[..i], Changed(files, env.walk, env, old_), env)
  }

  /** The text that a RECORD is written with the last time. */
  function WrittenText(files: Files, env: Env, old_: string, new_: string, f: string): string
    requires old_ != "" && f in files && f in Reals(env.records, env)
  {
    NoRecordNoChange(BeforeRehash(files, env, old_, new_), env.records[..Last(f, env.records, env) + 1],
      Changed(files, env.walk, env, old_), env);
    Stage(files, env, old_, new_, Last(f, env.records, env) + 1)[f]
  }

  ghost predicate SameDigest(a: string, b: string, env: Env) {
    RecordHash(a, env) == RecordHash(b, env) && |a| == |b|
  }

  /** `rec` hashes the RECORD `f` when `f` has its last text already, or one of the same digest. */
  ghost predicate HashedInTime(files: Files, env: Env, old_: string, new_: string, rec: string, f: string)
    requires old_ != "" && f in files && f in Reals(env.records, env) && rec in Reals(env.records, env)
  {
    var k := Last(rec, env.records, env);
    Last(f, env.records, env) < k
    || (f in Stage(files, env, old_, new_, k)
        && SameDigest(Stage(files, env, old_, new_, k)[f], WrittenText(files, env, old_, new_, f), env))
  }

  /** What a row has to say for a match afterwards. A row of a rewritten file is hashed again, and
      says the right thing unless the file is a RECORD that is still to change; rows of other
      RECORDs, of byte code and of files that stay as they are must say it already. */
  ghost predicate WillMatch(files: Files, env: Env, old_: string, new_: string, rec: string, row: Row)
    requires old_ != "" && rec in Reals(env.records, env)
  {
    var f := env.locate(rec, row.path);
    f in files
    && if f in Changed(files, env.walk, env, old_) then
         f in Reals(env.records, env) ==> HashedInTime(files, env, old_, new_, rec, f)
       else if f in Reals(env.records, env) then RowMatches(row, WrittenText(files, env, old_, new_, f), env)
       else if f in Reals(Pycs(env.walk), env) then RowMatches(row, env.compiled(f), env)
       else RowMatches(row, files[f], env)
  }

  /** Every hashed row of this RECORD, read after the build path was replaced in it. */
  ghost predicate RecordWillMatch(files: Files, env: Env, old_: string, new_: string, rec: string)
    requires old_ != "" && rec in files && rec in Reals(env.records, env)
  {
    forall row | Hashed(RecordText(files, env, old_, new_, rec), row, env) ::
      WillMatch(files, env, old_, new_, rec, row)
  }

  ghost predicate AllWillMatch(files: Files, env: Env, old_: string, new_: string)
    requires old_ != ""
  {
    forall r | r in env.records && env.resolve(r) in files ::
      RecordWillMatch(files, env, old_, new_, env.resolve(r))
  }

  /** RECORDs are not compiled, and byte code is not rewritten. */
  lemma KindsApart(files: Files, env: Env, old_: string, new_: string)
    requires old_ != "" && Tree(files, env)
    ensures BeforeRehash(files, env, old_, new_).Keys == files.Keys
    ensures Reals(Pycs(env.walk), env) !! Reals(env.records, env) + Changed(files, env.walk, env, old_)
    ensures Changed(files, env.walk, env, old_) <= files.Keys
    ensures forall r | r in env.records ::
              BeforeRehash(files, env, old_, new_)[env.resolve(r)] == RecordText(files, env, old_, new_, env.resolve(r))
  {
    PycsSubset(env.walk);
  }

  lemma RealsPrefix(recs: seq<string>, k: nat, env: Env, f: string)
    requires k <= |recs| && f in Reals(recs[..k], env)
    ensures f in Reals(recs, env)
  {
    assert forall p | p in recs[..k] :: p in recs;
  }

  /** A file at some stage of the third loop: untouched, or written for the last time already. */
  lemma ContentAt(mid: Files, recs: seq<string>, k: nat, changed: set<string>, env: Env, f: string)
    requires k <= |recs| && f in mid
    ensures var now := RehashAll(mid, recs[..k], changed, env);
            && f in now
            && (f !in Reals(recs, env) ==> now[f] == mid[f])
            && (f in Reals(recs, env) && Last(f, recs, env) < k ==>
                  var written := RehashAll(mid, recs[..Last(f, recs, env) + 1], changed, env);
                  f in written && now[f] == written[f])
  {
    NoRecordNoChange(mid, recs[..k], changed, env);
    if f in Reals(recs[..k], env) {
      RealsPrefix(recs, k, env, f);
    }
    if f in Reals(recs, env) && Last(f, recs, env) < k {
      var i := Last(f, recs, env) + 1;
      assert recs[..k][..i] == recs[..i];
      NotAgain(mid, recs[..k], i, changed, env, f);
    }
  }

  /** What a row of a rewritten file is hashed from. */
  lemma HashedContent(files: Files, env: Env, old_: string, new_: string, k: nat, f: string)
    requires old_ != "" && Tree(files, env) && k <= |env.records| && f in files
    ensures f in Stage(files, env, old_, new_, k) && f in BeforeRehash(files, env, old_, new_)
    ensures f !in Reals(env.records, env) ==>
              Stage(files, env, old_, new_, k)[f] == BeforeRehash(files, env, old_, new_)[f]
    ensures f in Reals(env.records, env) && Last(f, env.records, env) < k ==>
              Stage(files, env, old_, new_, k)[f] == WrittenText(files, env, old_, new_, f)
  {
    ContentAt(BeforeRehash(files, env, old_, new_), env.records, k, Changed(files, env.walk, env, old_), env, f);
  }

  /** The content that the rows of this file are compared with afterwards. */
  lemma ContentAfter(files: Files, env: Env, old_: string, new_: string, f: string)
    requires old_ != "" && Tree(files, env) && f in files
    ensures var mid, after := BeforeRehash(files, env, old_, new_), Relocated(files, env, old_, new_);
            f in after && f in mid
            && after[f]
               == if f in Reals(env.records, env) then WrittenText(files, env, old_, new_, f)
                  else if f in Reals(Pycs(env.walk), env) then env.compiled(f)
                  else if f in Changed(files, env.walk, env, old_) then mid[f]
                  else files[f]
  {
    assert env.records[..|env.records|] == env.records;
    HashedContent(files, env, old_, new_, |env.records|, f);
  }

  lemma SameDigestMatches(row: Row, a: string, b: string, env: Env)
    requires row.hash == RecordHash(a, env) && row.size == Natural(|a|)
    ensures RowMatches(row, b, env) <==> SameDigest(a, b, env)
  {
    NaturalValue(|a|);
    NaturalValue(|b|);
  }

  /** One row: hashed again or not, it matches afterwards exactly as foretold. */
  lemma RowAfter(files: Files, env: Env, old_: string, new_: string, rec: string, row: Row)
    requires old_ != "" && Tree(files, env) && rec in Reals(env.records, env) && row.hash != ""
    ensures var f, after := env.locate(rec, row.path), Relocated(files, env, old_, new_);
            var then_ := Stage(files, env, old_, new_, Last(rec, env.records, env));
            var row' := RehashRow(row, rec, then_, Changed(files, env.walk, env, old_), env);
            && row'.path == row.path && row'.hash != ""
            && (f in after && RowMatches(row', after[f], env) <==> WillMatch(files, env, old_, new_, rec, row))
  {
    var f, k := env.locate(rec, row.path), Last(rec, env.records, env);
    var mid, changed := BeforeRehash(files, env, old_, new_), Changed(files, env.walk, env, old_);
    KindsApart(files, env, old_, new_);
    NoRecordNoChange(mid, env.records, changed, env);
    if f in files {
      ContentAfter(files, env, old_, new_, f);
      HashedContent(files, env, old_, new_, k, f);
      if f in changed {
        var then_ := Stage(files, env, old_, new_, k);
        SameDigestMatches(RehashRow(row, rec, then_, changed, env), then_[f], Relocated(files, env, old_, new_)[f], env);
      }
    }
  }

  /** All hashed rows match afterwards if and only if every hashed row of the rewritten RECORD texts
      says what `WillMatch` asks for. All of it can be computed from the tree before the call. */
  lemma RecordsMatchIff(files: Files, env: Env, old_: string, new_: string)
    requires old_ != "" && Tree(files, env)
    ensures AllMatch(Relocated(files, env, old_, new_), env) <==> AllWillMatch(files, env, old_, new_)
  {
    forall r | r in env.records
      ensures RecordMatches(Relocated(files, env, old_, new_), env, env.resolve(r))
              <==> RecordWillMatch(files, env, old_, new_, env.resolve(r))
    {
      RecordAfter(files, env, old_, new_, env.resolve(r));
    }
  }

  lemma RecordAfter(files: Files, env: Env, old_: string, new_: string, rec: string)
    requires old_ != "" && Tree(files, env) && rec in Reals(env.records, env)
    ensures rec in files
    ensures RecordMatches(Relocated(files, env, old_, new_), env, rec) <==> RecordWillMatch(files, env, old_, new_, rec)
  {
    var after, mid := Relocated(files, env, old_, new_), BeforeRehash(files, env, old_, new_);
    var changed, k := Changed(files, env.walk, env, old_), Last(rec, env.records, env);
    KindsApart(files, env, old_, new_);
    FinalRows(mid, env.records, changed, env, rec);
    var rows := env.rowsOf(RecordText(files, env, old_, new_, rec));
    assert env.rowsOf(after[rec]) == RehashRows(rows, rec, Stage(files, env, old_, new_, k), changed, env);
    forall i | 0 <= i < |rows| && rows[i].hash != ""
      ensures RowFits(after, env, rec, env.rowsOf(after[rec])[i]) <==> WillMatch(files, env, old_, new_, rec, rows[i])
      ensures env.rowsOf(after[rec])[i].hash != ""
    {
      RowAfter(files, env, old_, new_, rec, rows[i]);
    }
    EveryRow(files, after, env, old_, new_, rec);
  }

  ghost predicate RowFits(files: Files, env: Env, rec: string, row: Row) {
    var f := env.locate(rec, row.path);
    f in files && RowMatches(row, files[f], env)
  }

  /** Row by row, so for all rows. */
  lemma EveryRow(files: Files, after: Files, env: Env, old_: string, new_: string, rec: string)
    requires old_ != "" && rec in files && rec in after && rec in Reals(env.records, env)
    requires var rows, rows' := env.rowsOf(RecordText(files, env, old_, new_, rec)), env.rowsOf(after[rec]);
             && |rows| == |rows'|
             && forall i | 0 <= i < |rows| ::
                  && (rows[i].hash != "" <==> rows'[i].hash != "")
                  && (rows[i].hash != "" ==>
                        (RowFits(after, env, rec, rows'[i]) <==> WillMatch(files, env, old_, new_, rec, rows[i])))
    ensures RecordMatches(after, env, rec) <==> RecordWillMatch(files, env, old_, new_, rec)
  {
    var rows, rows' := env.rowsOf(RecordText(files, env, old_, new_, rec)), env.rowsOf(after[rec]);
    if RecordMatches(after, env, rec) {
      forall row | row in rows && row.hash != "" ensures WillMatch(files, env, old_, new_, rec, row) {
        var i :| 0 <= i < |rows| && rows[i] == row;
        assert Hashed(after[rec], rows'[i], env);
        assert RowFits(after, env, rec, rows'[i]);
      }
    }
    if RecordWillMatch(files, env, old_, new_, rec) {
      forall row | row in rows' && row.hash != "" ensures RowFits(after, env, rec, row) {
        var i :| 0 <= i < |rows'| && rows'[i] == row;
        assert Hashed(RecordText(files, env, old_, new_, rec), rows[i], env);
      }
    }
  }

  // ------------------------------------------------------------------ the order of the RECORDs

  /** No hashed row of a RECORD names a RECORD that holds the build path. */
  ghost predicate Independent(files: Files, env: Env, old_: string, new_: string)
    requires old_ != ""
  {
    forall r, row | r in env.records && env.resolve(r) in files
                    && Hashed(RecordText(files, env, old_, new_, env.resolve(r)), row, env) ::
      env.locate(env.resolve(r), row.path) !in Changed(files, env.walk, env, old_) * Reals(env.records, env)
  }

  /** The rows of a RECORD end up hashed from the tree as it was when the RECORD was met for the last
      time. If no hashed row names a RECORD that holds the build path, that is the tree before the
      third loop, so the order of the RECORDs does not matter, and the text of a RECORD that comes
      only once is known before the loop. */
  lemma RelocatedAtOnce(files: Files, env: Env, old_: string, new_: string, rec: string)
    requires old_ != "" && Tree(files, env) && rec in Reals(env.records, env)
    ensures var mid, after := BeforeRehash(files, env, old_, new_), Relocated(files, env, old_, new_);
            var changed, k := Changed(files, env.walk, env, old_), Last(rec, env.records, env);
            && rec in mid && rec in after
            && env.rowsOf(after[rec])
               == RehashRows(env.rowsOf(mid[rec]), rec, Stage(files, env, old_, new_, k), changed, env)
            && (Independent(files, env, old_, new_) ==>
                  && env.rowsOf(after[rec]) == RehashRows(env.rowsOf(mid[rec]), rec, mid, changed, env)
                  && (rec !in Reals(env.records[..k], env) ==>
                        after[rec] == RehashText(mid[rec], rec, mid, changed, env)))
  {
    var mid, changed := BeforeRehash(files, env, old_, new_), Changed(files, env.walk, env, old_);
    KindsApart(files, env, old_, new_);
    FinalRows(mid, env.records, changed, env, rec);
    if Independent(files, env, old_, new_) {
      AtOnce(mid, env.records, changed, env, rec);
    }
  }

  /** So the text that a row of such a RECORD has to say is known without running the loop. */
  lemma WrittenAtOnce(files: Files, env: Env, old_: string, new_: string, f: string)
    requires old_ != "" && Tree(files, env) && Independent(files, env, old_, new_) && f in Reals(env.records, env)
    requires f !in Reals(env.records[..Last(f, env.records, env)], env)
    ensures var mid := BeforeRehash(files, env, old_, new_);
            && f in files && f in mid
            && WrittenText(files, env, old_, new_, f)
               == RehashText(mid[f], f, mid, Changed(files, env.walk, env, old_), env)
  {
    RelocatedAtOnce(files, env, old_, new_, f);
    ContentAfter(files, env, old_, new_, f);
  }

  lemma AtOnce(mid: Files, recs: seq<string>, changed: set<string>, env: Env, rec: string)
    requires ReadsBack(env) && rec in mid && rec in Reals(recs, env)
    requires forall row | Hashed(mid[rec], row, env) :: env.locate(rec, row.path) !in changed * Reals(recs, env)
    ensures var after := RehashAll(mid, recs, changed, env);
            && rec in after
            && env.rowsOf(after[rec]) == RehashRows(env.rowsOf(mid[rec]), rec, mid, changed, env)
            && (rec !in Reals(recs[..Last(rec, recs, env)], env) ==>
                  after[rec] == RehashText(mid[rec], rec, mid, changed, env))
  {
    var k := Last(rec, recs, env);
    var then_ := RehashAll(mid, recs[..k], changed, env);
    FinalRows(mid, recs, changed, env, rec);
    NoRecordNoChange(mid, recs[..k], changed, env);
    forall f | f in Reals(recs[..k], env) ensures f in Reals(recs, env) {
      RealsPrefix(recs, k, env, f);
    }
    SameHashes(env.rowsOf(mid[rec]), rec, mid, then_, changed, env);
    assert recs[..k + 1][..k] == recs[..k] && recs[..k + 1][k] == recs[k];
    NotAgain(mid, recs, k + 1, changed, env, rec);
  }

  lemma SameHashes(rows: seq<Row>, rec: string, files: Files, now: Files, changed: set<string>, env: Env)
    requires now.Keys == files.Keys
    requires forall row | row in rows && row.hash != "" ::
               var f := env.locate(rec, row.path); f in changed && f in files ==> now[f] == files[f]
    ensures RehashRows(rows, rec, now, changed, env) == RehashRows(rows, rec, files, changed, env)
  {
    var a, b := RehashRows(rows, rec, now, changed, env), RehashRows(rows, rec, files, changed, env);
    forall i | 0 <= i < |rows| ensures a[i] == b[i] {
      assert rows[i] in rows;
    }
  }

  // ------------------------------------------------------------------ what follows

  /** No RECORD holds the build path. */
  ghost predicate RecordsClean(files: Files, env: Env, old_: string) {
    forall r | r in env.records :: env.resolve(r) in files ==> !Contains(files[env.resolve(r)], old_)
  }

  /** Some hashed row names byte code or a RECORD. */
  ghost predicate NamesVolatile(files: Files, env: Env) {
    exists r, row :: r in env.records && env.resolve(r) in files && Hashed(files[env.resolve(r)], row, env)
      && env.locate(env.resolve(r), row.path) in Reals(Pycs(env.walk), env) + Reals(env.records, env)
  }

  /** When no RECORD holds the build path and no hashed row names byte code or a RECORD, a tree
      whose rows all matched has rows that all match. */
  lemma RelocationKeepsRecords(files: Files, env: Env, old_: string, new_: string)
    requires old_ != "" && Tree(files, env) && RecordsClean(files, env, old_) && AllMatch(files, env)
    requires !NamesVolatile(files, env)
    ensures AllMatch(Relocated(files, env, old_, new_), env)
  {
    forall r | r in env.records
      ensures RecordText(files, env, old_, new_, env.resolve(r)) == files[env.resolve(r)]
      ensures RecordMatches(files, env, env.resolve(r))
    {
    }
    RecordsMatchIff(files, env, old_, new_);
  }

  /** A file without the build path that is no byte code and no RECORD is byte for byte the same. */
  lemma OthersIdentical(files: Files, env: Env, old_: string, new_: string, f: string)
    requires old_ != "" && f in files && !Contains(files[f], old_)
    requires f !in Reals(Pycs(env.walk), env) && f !in Reals(env.records, env)
    ensures f in Relocated(files, env, old_, new_) && Relocated(files, env, old_, new_)[f] == files[f]
  {
    NoRecordNoChange(BeforeRehash(files, env, old_, new_), env.records, Changed(files, env.walk, env, old_), env);
  }

  /** The walk meets this file, as byte code or not. */
  ghost predicate Met(env: Env, f: string, byteCode: bool) {
    exists p :: p in env.walk && env.resolve(p) == f && EndsWith(p, ".pyc") == byteCode
  }

  /** What becomes of every file that is no RECORD: byte code is compiled anew, a file that holds the
      build path is rewritten, and every other file stays as it is. */
  lemma FilesAfter(files: Files, env: Env, old_: string, new_: string, f: string)
    requires old_ != "" && Tree(files, env) && f in files && f !in Reals(env.records, env)
    ensures var after := Relocated(files, env, old_, new_);
            && f in after
            && (Met(env, f, true) ==> after[f] == env.compiled(f))
            && (Met(env, f, false) && Contains(files[f], old_) ==> RewrittenTo(files[f], after[f], old_, new_))
            && (!Met(env, f, true) && !(Met(env, f, false) && Contains(files[f], old_)) ==> after[f] == files[f])
  {
    ContentAfter(files, env, old_, new_, f);
    KindsApart(files, env, old_, new_);
    PycsSubset(env.walk);
    assert f in Changed(files, env.walk, env, old_) <==> Met(env, f, false) && Contains(files[f], old_);
    if Met(env, f, false) && Contains(files[f], old_) {
      RewrittenExact(files[f], Rewritten(files[f], old_, new_), old_, new_);
    }
  }

  /** No file appears and none goes. A RECORD that is listed once is written with its own rows, and
      with carriage returns at the ends of its lines if and only if it had any when it was read. */
  lemma RecordsAfter(files: Files, env: Env, old_: string, new_: string, rec: string)
    requires old_ != "" && Tree(files, env) && rec in Reals(env.records, env)
    requires rec !in Reals(env.records[..Last(rec, env.records, env)], env)
    ensures var after := Relocated(files, env, old_, new_);
            && after.Keys == files.Keys && rec in files
            && exists end :: after[rec] == env.textOf(env.rowsOf(after[rec]), end)
                 && (end == "\r\n" || end == "\n")
                 && (end == "\r\n" <==> Contains(RecordText(files, env, old_, new_, rec), "\r\n"))
  {
    var mid, changed := BeforeRehash(files, env, old_, new_), Changed(files, env.walk, env, old_);
    KindsApart(files, env, old_, new_);
    NoRecordNoChange(mid, env.records, changed, env);
    var rows := WrittenOnce(mid, env.records, changed, env, rec);
    Written(env, rows, mid[rec], Relocated(files, env, old_, new_)[rec]);
  }

  /** The text of a RECORD that comes once. */
  lemma WrittenOnce(mid: Files, recs: seq<string>, changed: set<string>, env: Env, rec: string)
    returns (rows: seq<Row>)
    requires rec in mid && rec in Reals(recs, env) && rec !in Reals(recs[..Last(rec, recs, env)], env)
    ensures var after := RehashAll(mid, recs, changed, env);
            rec in after && after[rec] == env.textOf(rows, Terminator(mid[rec]))
  {
    var k := Last(rec, recs, env);
    var now := RehashAll(mid, recs[..k], changed, env);
    NoRecordNoChange(mid, recs[..k], changed, env);
    assert recs[..k + 1][..k] == recs[..k] && recs[..k + 1][k] == recs[k];
    NotAgain(mid, recs, k + 1, changed, env, rec);
    rows := RehashRows(env.rowsOf(mid[rec]), rec, now, changed, env);
  }

  lemma Written(env: Env, rows: seq<Row>, raw: string, text: string)
    requires ReadsBack(env) && text == env.textOf(rows, Terminator(raw))
    ensures exists end :: text == env.textOf(env.rowsOf(text), end) && (end == "\r\n" || end == "\n")
              && (end == "\r\n" <==> Contains(raw, "\r\n"))
  {
    assert |"\r\n"| != |"\n"|;
    assert env.rowsOf(text) == rows;
    assert text == env.textOf(env.rowsOf(text), Terminator(raw));
  }

  // ------------------------------------------------------------------ the three loops

  class Venv {
    var files: Files

    constructor (files: Files)
      ensures this.files == files
    {
      this.files := files;
    }

    /** A file with the build path is rewritten. */
    method RewriteFile(f: string, old_: string, new_: string) returns (hit: bool)
      requires old_ != "" && f in files
      modifies this
      ensures hit == Contains(old(files)[f], old_)
      ensures files == if hit then old(files)[f := Rewritten(old(files)[f], old_, new_)] else old(files)
    {
      hit := Contains(files[f], old_);
      if hit {
        files := files[f := Rewritten(files[f], old_, new_)];
      }
    }

    /** The first loop: text files are rewritten, byte code is noted. */
    method RewriteText(env: Env, old_: string, new_: string)
      returns (changed: set<string>, pycs: seq<string>)
      requires old_ != "" && Tree(files, env)
      modifies this
      ensures files == AfterRewrite(old(files), env, old_, new_)
      ensures changed == Changed(old(files), env.walk, env, old_)
      ensures pycs == Pycs(env.walk)
    {
      ghost var before := files;
      changed, pycs := {}, [];
      for i := 0 to |env.walk|
        invariant Walked(before, files, changed, pycs, env, i, old_, new_)
      {
        var p := env.walk[i];
        if IsPyc(p) {
          PycStep(before, files, changed, pycs, env, i, old_, new_);
          pycs := pycs + [p];
        } else {
          FileStep(before, files, changed, pycs, env, i, old_, new_);
          var hit := RewriteFile(env.resolve(p), old_, new_);
          if hit {
            changed := changed + {env.resolve(p)};
          }
        }
      }
      assert env.walk[..|env.walk|] == env.walk;
    }

    /** The second loop: byte code is compiled anew. */
    method Recompile(env: Env, pycs: seq<string>)
      requires forall p | p in pycs :: env.resolve(p) in files
      requires pycs == Pycs(env.walk)
      modifies this
      ensures files == AfterCompile(old(files), env)
    {
      ghost var before := files;
      for i := 0 to |pycs|
        invariant files == Compiled(before, Reals(pycs[..i], env), env)
      {
        var f := env.resolve(pycs[i]);
        assert pycs[i] in pycs;
        CompileStep(before, pycs, i, env);
        files := files[f := env.compiled(f)];
      }
      assert pycs[..|pycs|] == pycs;
    }

    /** The rows of one RECORD. */
    method RehashRecord(env: Env, rec: string, rows: seq<Row>, changed: set<string>)
      returns (rows': seq<Row>, fixed: nat)
      ensures rows' == RehashRows(rows, rec, files, changed, env)
    {
      rows', fixed := [], 0;
      for j := 0 to |rows|
        invariant rows' == RehashRows(rows[..j], rec, files, changed, env)
      {
        assert rows[..j + 1][..j] == rows[..j];
        var row := rows[j];
        var f := env.locate(rec, row.path);
        if row.hash != "" && f in changed && f in files {
          row := row.(hash := RecordHash(files[f], env), size := Natural(|files[f]|));
          fixed := fixed + 1;
        }
        rows' := rows' + [row];
      }
      assert rows[..|rows|] == rows;
    }

    /** The third loop: the rows of rewritten files are hashed again. */
    method Rehash(env: Env, changed: set<string>) returns (fixed: nat)
      requires forall r | r in env.records :: env.resolve(r) in files
      modifies this
      ensures files == RehashAll(old(files), env.records, changed, env)
    {
      ghost var before := files;
      fixed := 0;
      for i := 0 to |env.records|
        invariant files.Keys == before.Keys
        invariant files == RehashAll(before, env.records[..i], changed, env)
      {
        assert env.records[..i + 1][..i] == env.records[..i];
        var rec := env.resolve(env.records[i]);
        assert env.records[i] in env.records;
        var rows, n := RehashRecord(env, rec, env.rowsOf(files[rec]), changed);
        files := files[rec := env.textOf(rows, Terminator(files[rec]))];
        fixed := fixed + n;
      }
      assert env.records[..|env.records|] == env.records;
    }

    /** `relocate`. */
    method Relocate(env: Env, old_: string, new_: string)
      requires old_ != "" && Tree(files, env)
      modifies this
      ensures files == Relocated(old(files), env, old_, new_)
    {
      ghost var before := files;
      var changed, pycs := RewriteText(env, old_, new_);
      PycsSubset(env.walk);
      Recompile(env, pycs);
      var fixed := Rehash(env, changed);
    }
  }

  lemma CompileStep(files: Files, pycs: seq<string>, i: nat, env: Env)
    requires i < |pycs| && env.resolve(pycs[i]) in files
    ensures var f := env.resolve(pycs[i]);
            Compiled(files, Reals(pycs[..i], env), env)[f := env.compiled(f)]
            == Compiled(files, Reals(pycs[..i + 1], env), env)
  {
    assert pycs[..i + 1] == pycs[..i] + [pycs[i]];
    RealsSnoc(pycs[..i], pycs[i], env);
    OneMoreCompiled(files, Reals(pycs[..i], env), env.resolve(pycs[i]), env);
  }

  /** The next file of the walk: it exists and was not rewritten yet. */
  lemma WalkStep(files: Files, env: Env, i: nat, old_: string)
    requires Tree(files, env) && i < |env.walk|
    ensures var p, done, next := env.walk[i], env.walk[..i], env.walk[..i + 1];
            && env.resolve(p) in files
            && env.resolve(p) !in Changed(files, done, env, old_)
            && Pycs(next) == (if IsPyc(p) then Pycs(done) + [p] else Pycs(done))
            && Changed(files, next, env, old_)
               == Changed(files, done, env, old_)
                  + if !IsPyc(p) && Contains(files[env.resolve(p)], old_) then {env.resolve(p)} else {}
  {
    var p, done, next := env.walk[i], env.walk[..i], env.walk[..i + 1];
    assert p in env.walk;
    assert next == done + [p] && next[..i] == done;
    ChangedSnoc(files, done, p, env, old_);
    forall q | q in done ensures env.resolve(q) != env.resolve(p) {
      var k :| 0 <= k < i && env.walk[k] == q;
    }
  }

  /** The first loop has seen `i` files. */
  predicate Walked(before: Files, files: Files, changed: set<string>, pycs: seq<string>, env: Env, i: nat,
                   old_: string, new_: string)
    requires old_ != "" && i <= |env.walk|
  {
    && pycs == Pycs(env.walk[..i])
    && changed == Changed(before, env.walk[..i], env, old_)
    && files == WithRewritten(before, changed, old_, new_)
  }

  lemma PycStep(before: Files, files: Files, changed: set<string>, pycs: seq<string>, env: Env, i: nat,
                old_: string, new_: string)
    requires old_ != "" && Tree(before, env) && i < |env.walk| && IsPyc(env.walk[i])
    requires Walked(before, files, changed, pycs, env, i, old_, new_)
    ensures Walked(before, files, changed, pycs + [env.walk[i]], env, i + 1, old_, new_)
  {
    WalkStep(before, env, i, old_);
    assert changed + {} == changed;
  }

  lemma FileStep(before: Files, files: Files, changed: set<string>, pycs: seq<string>, env: Env, i: nat,
                 old_: string, new_: string)
    requires old_ != "" && Tree(before, env) && i < |env.walk| && !IsPyc(env.walk[i])
    requires Walked(before, files, changed, pycs, env, i, old_, new_)
    ensures var f := env.resolve(env.walk[i]);
            && f in files
            && (Contains(files[f], old_) ==>
                  Walked(before, files[f := Rewritten(files[f], old_, new_)], changed + {f}, pycs, env, i + 1, old_, new_))
            && (!Contains(files[f], old_) ==> Walked(before, files, changed, pycs, env, i + 1, old_, new_))
  {
    var f := env.resolve(env.walk[i]);
    WalkStep(before, env, i, old_);
    OneMoreRewritten(before, changed, f, old_, new_);
    assert changed + {} == changed;
  }

  lemma ChangedSnoc(files: Files, paths: seq<string>, p: string, env: Env, old_: string)
    ensures Changed(files, paths + [p], env, old_)
            == Changed(files, paths, env, old_)
               + if !IsPyc(p) && env.resolve(p) in files && Contains(files[env.resolve(p)], old_)
                 then {env.resolve(p)} else {}
  {
    assert forall q :: q in paths + [p] <==> q in paths || q == p;
  }
}
