/** Trees on which relocating breaks a RECORD whose rows all matched. The RECORDs are written in a
    small format that reads back everything it wrote: fields that end in a quote. */
module RelocateCases {
  import opened Text
  import opened Decimals
  import opened Render
  import opened Unlang
  import opened SsidPolicy
  import opened Relocate

  function Field(value: string, rest: string): string {
    EscapeMap(value) + "\"" + rest
  }

  function RowText(row: Row, rest: string): string {
    Field(row.path, Field(row.hash, Field(row.size, rest)))
  }

  function TextOf(rows: seq<Row>, end: string): string {
    if rows == [] then "" else RowText(rows[0], TextOf(rows[1..], end))
  }

  function RowsOf(text: string): seq<Row>
    decreases |text|
  {
    var path := ScanQuoted(text);
    if path.None? then []
    else
      var hash := ScanQuoted(path.value.rest);
      if hash.None? then []
      else
        var size := ScanQuoted(hash.value.rest);
        if size.None? || |size.value.rest| >= |text| then []
        else [Row(path.value.value, hash.value.value, size.value.value)] + RowsOf(size.value.rest)
  }

  lemma FirstRow(row: Row, rest: string)
    ensures RowsOf(RowText(row, rest)) == [row] + RowsOf(rest)
  {
    ScanMapped(row.path, Field(row.hash, Field(row.size, rest)));
    ScanMapped(row.hash, Field(row.size, rest));
    ScanMapped(row.size, rest);
    assert |rest| < |Field(row.size, rest)| < |Field(row.hash, Field(row.size, rest))| < |RowText(row, rest)|;
  }

  lemma {:induction false} TextReadsBack(rows: seq<Row>, end: string)
    ensures RowsOf(TextOf(rows, end)) == rows
  {
    if rows != [] {
      TextReadsBack(rows[1..], end);
      FirstRow(rows[0], TextOf(rows[1..], end));
    }
  }

  const RecordName := "R"

  /** Paths without links; a file and its RECORD. */
  function Around(file: string): Env {
    Env([file, RecordName], [RecordName], (p: string) => p, (rec: string, p: string) => p, RowsOf, TextOf,
      (s: string) => "h" + s, (p: string) => "new")
  }

  /** The row of a file that holds `x`, and a RECORD with only this row. */
  function RowFor(file: string): Row {
    Row(file, "sha256=hx", "1")
  }

  function RecordFor(file: string): string {
    TextOf([RowFor(file)], "\n")
  }

  function Pair(file: string): Files {
    map[file := "x", RecordName := RecordFor(file)]
  }

  /** What follows the path in such a RECORD. */
  function Tail(): string {
    "\"" + Field("sha256=hx", Field("1", ""))
  }

  /** No character that the format escapes. */
  predicate Plain(s: string) {
    '"' !in s && '\\' !in s
  }

  lemma {:induction false} EscapePlain(s: string)
    requires Plain(s)
    ensures EscapeMap(s) == s
  {
    if s != "" {
      EscapePlain(s[1..]);
      assert [s[0]] + s[1..] == s;
    }
  }

  lemma FieldPlain(value: string, rest: string)
    requires Plain(value)
    ensures Field(value, rest) == value + "\"" + rest
    ensures '/' !in value && '/' !in rest ==> '/' !in Field(value, rest)
  {
    EscapePlain(value);
  }

  lemma TwoFieldsPlain(hash: string, size: string)
    requires Plain(hash) && Plain(size) && '/' !in hash && '/' !in size
    ensures '/' !in "\"" + Field(hash, Field(size, ""))
  {
    FieldPlain(size, "");
    FieldPlain(hash, Field(size, ""));
  }

  lemma TailPlain()
    ensures '/' !in Tail()
  {
    TwoFieldsPlain("sha256=hx", "1");
  }

  lemma RecordText1(file: string)
    ensures RowsOf(RecordFor(file)) == [RowFor(file)]
    ensures Plain(file) ==> RecordFor(file) == file + Tail()
  {
    TextReadsBack([RowFor(file)], "\n");
    OneRowText(RowFor(file), "\n");
  }

  lemma OneRowText(row: Row, end: string)
    ensures Plain(row.path) ==>
              TextOf([row], end) == row.path + ("\"" + Field(row.hash, Field(row.size, "")))
  {
    assert [row][1..] == [];
    if Plain(row.path) {
      FieldPlain(row.path, Field(row.hash, Field(row.size, "")));
    }
  }

  lemma AllMatchBefore(file: string)
    requires file != RecordName
    ensures Tree(Pair(file), Around(file)) && AllMatch(Pair(file), Around(file))
  {
    ReadsBackAround(file);
    RecordText1(file);
    OneRowMatches(Pair(file), file, Around(file));
  }

  lemma ReadsBackAround(file: string)
    requires file != RecordName
    ensures Tree(Pair(file), Around(file))
  {
    FormatReadsBack(Around(file));
    TwoFiles(Pair(file), file);
  }

  lemma FormatReadsBack(env: Env)
    requires env.rowsOf == RowsOf && env.textOf == TextOf
    ensures ReadsBack(env)
  {
    forall rows, raw ensures RowsOf(TextOf(rows, Terminator(raw))) == rows {
      TextReadsBack(rows, Terminator(raw));
    }
  }

  lemma TwoFiles(files: Files, file: string)
    requires file != RecordName && file in files && RecordName in files && ReadsBack(Around(file))
    ensures Tree(files, Around(file))
  {
  }

  lemma OneRowMatches(files: Files, file: string, env: Env)
    requires env == Around(file) && file in files && RecordName in files
    requires RowsOf(files[RecordName]) == [RowFor(file)] && files[file] == "x"
    ensures AllMatch(files, env)
  {
    assert Natural(|"x"|) == "1" && "sha256=" + ("h" + "x") == "sha256=hx";
  }

  lemma RecordListed(file: string)
    ensures RecordName in Reals(Around(file).records, Around(file))
  {
    var env := Around(file);
    assert env.records[0] == RecordName && env.resolve(RecordName) == RecordName;
  }

  lemma OneRowOnly(text: string, file: string, row: Row)
    requires RowsOf(text) == [row] && row.hash != ""
    ensures Hashed(text, row, Around(file))
    ensures forall row' | Hashed(text, row', Around(file)) :: row' == row
  {
  }

  /** The one row of the one RECORD, as it is read after the build path was replaced, decides. */
  lemma BreaksAt(files: Files, file: string, old_: string, new_: string, row: Row)
    requires var env := Around(file);
             && old_ != "" && Tree(files, env) && row.hash != "" && RecordName in Reals(env.records, env)
             && RecordName in files && RowsOf(RecordText(files, env, old_, new_, RecordName)) == [row]
             && !WillMatch(files, env, old_, new_, RecordName, row)
    ensures !AllMatch(Relocated(files, Around(file), old_, new_), Around(file))
  {
    var env := Around(file);
    OneRowOnly(RecordText(files, env, old_, new_, RecordName), file, row);
    assert env.records[0] == RecordName && env.resolve(RecordName) == RecordName;
    RecordsMatchIff(files, env, old_, new_);
  }

  /** A row of byte code that does not say what will be compiled. */
  lemma CompiledMisses(files: Files, env: Env, old_: string, new_: string, rec: string, row: Row)
    requires old_ != "" && rec in Reals(env.records, env)
    requires var f := env.locate(rec, row.path);
             && f in Reals(Pycs(env.walk), env) && f !in Reals(env.records, env)
             && f !in Changed(files, env.walk, env, old_) && !RowMatches(row, env.compiled(f), env)
    ensures !WillMatch(files, env, old_, new_, rec, row)
  {
  }

  lemma ByteCode(file: string, old_: string)
    requires file != RecordName && IsPyc(file)
    ensures var env := Around(file);
            && file in Reals(Pycs(env.walk), env) && file !in Reals(env.records, env)
            && file !in Changed(Pair(file), env.walk, env, old_)
            && !RowMatches(RowFor(file), env.compiled(file), env)
  {
    var env := Around(file);
    PycsSubset(env.walk);
    assert env.walk[0] == file && env.resolve(file) == file;
    assert RecordHash("new", env) == "sha256=" + ("h" + "new");
    assert |RecordHash("new", env)| == 11 && |RowFor(file).hash| == 9;
  }

  /** Byte code beside a RECORD without the build path. */
  lemma CompiledBreaks(file: string, old_: string, new_: string)
    requires file != RecordName && IsPyc(file) && old_ != "" && !Contains(RecordFor(file), old_)
    ensures !AllMatch(Relocated(Pair(file), Around(file), old_, new_), Around(file))
  {
    var files, env := Pair(file), Around(file);
    ReadsBackAround(file);
    RecordText1(file);
    RecordListed(file);
    ByteCode(file, old_);
    CompiledMisses(files, env, old_, new_, RecordName, RowFor(file));
    RecordKept(file, old_, new_);
    BreaksAt(files, file, old_, new_, RowFor(file));
  }

  lemma RecordKept(file: string, old_: string, new_: string)
    requires file != RecordName && old_ != "" && !Contains(RecordFor(file), old_)
    ensures RecordText(Pair(file), Around(file), old_, new_, RecordName) == RecordFor(file)
  {
  }

  lemma RecordRewritten(file: string, text: string, old_: string, new_: string)
    requires file != RecordName && old_ != ""
    requires Contains(RecordFor(file), old_) && Rewritten(RecordFor(file), old_, new_) == text
    ensures RecordText(Pair(file), Around(file), old_, new_, RecordName) == text
  {
    var env := Around(file);
    assert env.walk[1] == RecordName && env.resolve(RecordName) == RecordName && !IsPyc(RecordName);
  }

  /** A RECORD that names a file by its build path, when nothing has the installed path yet. */
  lemma RewrittenBreaks(file: string, file': string, old_: string, new_: string)
    requires file != RecordName && file' != RecordName && file' != file && old_ != "" && !IsPyc(file)
    requires Contains(RecordFor(file), old_) && Rewritten(RecordFor(file), old_, new_) == RecordFor(file')
    ensures !AllMatch(Relocated(Pair(file), Around(file), old_, new_), Around(file))
  {
    ReadsBackAround(file);
    RecordRewritten(file, RecordFor(file'), old_, new_);
    RecordText1(file');
    RecordListed(file);
    NoFileMisses(Pair(file), Around(file), old_, new_, RecordName, RowFor(file'));
    BreaksAt(Pair(file), file, old_, new_, RowFor(file'));
  }

  lemma NoFileMisses(files: Files, env: Env, old_: string, new_: string, rec: string, row: Row)
    requires old_ != "" && rec in Reals(env.records, env) && env.locate(rec, row.path) !in files
    ensures !WillMatch(files, env, old_, new_, rec, row)
  {
  }

  lemma NotNamed(file: string)
    requires file != RecordName && !IsPyc(file)
    ensures !NamesVolatile(Pair(file), Around(file))
  {
    RecordText1(file);
    NamesOnly(Pair(file), file, RowFor(file));
  }

  lemma NamesOnly(files: Files, file: string, row: Row)
    requires file != RecordName && !IsPyc(file) && row.path == file
    requires RecordName in files && RowsOf(files[RecordName]) == [row]
    ensures !NamesVolatile(files, Around(file))
  {
    PycsSubset(Around(file).walk);
  }

  lemma NoSlash(text: string, part: string)
    requires '/' !in text && part != "" && part[0] == '/'
    ensures !Contains(text, part)
  {
    forall i | 0 <= i <= |text| && |part| <= |text[i..]| ensures text[i..][..|part|] != part {
      assert text[i..][..|part|][0] == text[i];
    }
  }

  lemma OneSlash(text: string, part: string)
    requires |text| >= 2 && |part| >= 2 && part[0] == '/' && text[1] != part[1]
    requires forall i | 0 < i < |text| :: text[i] != '/'
    ensures !Contains(text, part)
  {
    forall i | 0 <= i <= |text| && |part| <= |text[i..]| ensures text[i..][..|part|] != part {
      var piece := text[i..][..|part|];
      assert piece[0] == text[i] && piece[1] == text[i + 1];
    }
  }

  lemma RewrittenHead(old_: string, new_: string, rest: string)
    requires old_ != "" && old_[0] == '/' && !Contains(rest, old_)
    ensures Contains(old_ + rest, old_) && Rewritten(old_ + rest, old_, new_) == new_ + rest
  {
    var text := old_ + rest;
    assert text[..|old_|] == old_ && text[|old_|..] == rest && text[0..] == text;
    assert !StartsWith(text, TrampolineStart) by {
      assert TrampolineStart[0] == '#' && text[0] == '/';
    }
    ReplaceNothing(rest, old_, new_);
  }

  /** All rows of this tree match before, and not all of them afterwards. */
  ghost predicate Breaks(files: Files, env: Env, old_: string, new_: string) {
    old_ != "" && Tree(files, env) && AllMatch(files, env) && !AllMatch(Relocated(files, env, old_, new_), env)
  }

  /** Byte code that is compiled anew: its hashed row matched, and does not match afterwards. */
  lemma CompiledCase(file: string, old_: string, new_: string)
    requires file != RecordName && IsPyc(file) && Plain(file) && '/' !in file && old_ != "" && old_[0] == '/'
    ensures Breaks(Pair(file), Around(file), old_, new_) && RecordsClean(Pair(file), Around(file), old_)
  {
    AllMatchBefore(file);
    RecordText1(file);
    TailPlain();
    assert '/' !in file + Tail();
    NoSlash(RecordFor(file), old_);
    CompiledBreaks(file, old_, new_);
  }

  lemma DifferentPaths(old_: string, new_: string, x: string)
    requires old_ != new_
    ensures old_ + x != new_ + x
  {
    if |old_| == |new_| {
      assert (old_ + x)[..|old_|] == old_ && (new_ + x)[..|old_|] == new_;
    }
  }

  /** The text of the RECORD before and after. */
  lemma RewrittenText(old_: string, new_: string, x: string)
    requires |old_| >= 2 && old_[0] == '/' && |x| >= 2 && x[1] != old_[1] && forall i | 0 < i < |x| :: x[i] != '/'
    requires Plain(old_ + x) && Plain(new_ + x)
    ensures Contains(RecordFor(old_ + x), old_)
    ensures Rewritten(RecordFor(old_ + x), old_, new_) == RecordFor(new_ + x)
  {
    var rest := x + Tail();
    RecordText1(old_ + x);
    RecordText1(new_ + x);
    TailPlain();
    OneSlash(rest, old_);
    RewrittenHead(old_, new_, rest);
    Grouping(old_, x, Tail());
    Grouping(new_, x, Tail());
  }

  /** A RECORD that holds the build path: all rows matched and none names byte code or a RECORD,
      and afterwards its row names no file. */
  lemma RewrittenCase(old_: string, new_: string, x: string)
    requires |old_| >= 2 && old_[0] == '/' && |x| >= 2 && x[1] != old_[1] && forall i | 0 < i < |x| :: x[i] != '/'
    requires Plain(old_ + x) && Plain(new_ + x) && old_ != new_ && new_ + x != RecordName && !IsPyc(old_ + x)
    ensures Breaks(Pair(old_ + x), Around(old_ + x), old_, new_)
    ensures !NamesVolatile(Pair(old_ + x), Around(old_ + x))
  {
    var file := old_ + x;
    assert file[0] == '/';
    DifferentPaths(old_, new_, x);
    RewrittenText(old_, new_, x);
    AllMatchBefore(file);
    NotNamed(file);
    RewrittenBreaks(file, new_ + x, old_, new_);
  }

  /** Byte code with a hashed row, in a tree whose RECORDs do not hold the build path. */
  lemma CompiledRowBreaks()
    ensures Breaks(Pair("m.pyc"), Around("m.pyc"), "/b/d", "/d")
    ensures RecordsClean(Pair("m.pyc"), Around("m.pyc"), "/b/d")
  {
    CompiledCase("m.pyc", "/b/d", "/d");
  }

  /** A row that names its file by the build path, in a tree without rows of byte code or RECORDs. */
  lemma RewrittenRowBreaks()
    ensures Breaks(Pair("/b/d" + "/x"), Around("/b/d" + "/x"), "/b/d", "/d")
    ensures !NamesVolatile(Pair("/b/d" + "/x"), Around("/b/d" + "/x"))
  {
    var file := "/b/d" + "/x";
    assert file[|file| - 1] == 'x' != ".pyc"[3];
    RewrittenCase("/b/d", "/d", "/x");
  }
}
