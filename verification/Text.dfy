/** Strings, lines and words as the Python, awk and FreeRADIUS code sees them.

    A file is a `string` whose characters stand for its bytes: byte `b` is the character
    with code `b`. A text that has already been decoded is a `string` as well. */
module Text {

  datatype Option<+T> = None | Some(value: T)

  /** `0x20 <= b <= 0x7E`. */
  predicate Printable(c: char) {
    ' ' <= c <= '~'
  }

  predicate AllPrintable(s: string) {
    forall i | 0 <= i < |s| :: Printable(s[i])
  }

  predicate Has(s: string, c: char) {
    exists i | 0 <= i < |s| :: s[i] == c
  }

  predicate Digit(c: char) {
    '0' <= c <= '9'
  }

  // ------------------------------------------------------------------ lines

  /** `bytes.split(b"\n")`: always at least one piece. */
  function Split(s: string): (pieces: seq<string>)
    ensures |pieces| > 0
  {
    if s == "" then [""]
    else
      var rest := Split(s[1..]);
      if s[0] == '\n' then [""] + rest else [[s[0]] + rest[0]] + rest[1..]
  }

  /** The pieces, without the empty one after a final line feed. */
  function Lines(s: string): seq<string> {
    var pieces := Split(s);
    if pieces[|pieces| - 1] == "" then pieces[..|pieces| - 1] else pieces
  }

  /** The text whose lines these are, each ended by a line feed. */
  function Unlines(lines: seq<string>): string {
    if lines == [] then "" else lines[0] + "\n" + Unlines(lines[1..])
  }

  predicate OneLine(s: string) {
    !Has(s, '\n')
  }

  lemma JoinOneLine(a: string, b: string)
    requires OneLine(a) && OneLine(b)
    ensures OneLine(a + b)
  {
  }

  lemma {:induction false} SplitPrefix(line: string, rest: string)
    requires OneLine(line)
    ensures Split(line + "\n" + rest) == [line] + Split(rest)
  {
    var s := line + "\n" + rest;
    if line == "" {
      assert s == "\n" + rest && s[1..] == rest;
    } else {
      assert OneLine(line[1..]) by {
        assert forall i | 0 <= i < |line[1..]| :: line[1..][i] == line[i + 1];
      }
      assert s[1..] == line[1..] + "\n" + rest;
      SplitPrefix(line[1..], rest);
      assert [line[0]] + line[1..] == line;
      assert s[0] == line[0] && s[0] != '\n';
    }
  }

  lemma {:induction false} SplitUnlines(lines: seq<string>)
    requires forall i | 0 <= i < |lines| :: OneLine(lines[i])
    ensures Split(Unlines(lines)) == lines + [""]
  {
    if lines == [] {
    } else {
      SplitUnlines(lines[1..]);
      SplitPrefix(lines[0], Unlines(lines[1..]));
      assert [lines[0]] + lines[1..] == lines;
    }
  }

  lemma {:induction false} UnlinesConcat(a: seq<string>, b: seq<string>)
    ensures Unlines(a + b) == Unlines(a) + Unlines(b)
  {
    if a == [] {
      assert a + b == b;
    } else {
      assert (a + b)[1..] == a[1..] + b;
      UnlinesConcat(a[1..], b);
      assert (a + b)[0] == a[0];
      assert a[0] + "\n" + (Unlines(a[1..]) + Unlines(b)) == a[0] + "\n" + Unlines(a[1..]) + Unlines(b);
    }
  }

  /** A line feed inside the first of two texts splits it all the same. */
  lemma {:induction false} SplitAppend(a: string, b: string)
    ensures Split(a + "\n" + b) == Split(a) + Split(b)
  {
    var s := a + "\n" + b;
    if a == "" {
      assert s == "\n" + b && s[1..] == b;
    } else {
      assert s[0] == a[0] && s[1..] == a[1..] + "\n" + b;
      SplitAppend(a[1..], b);
    }
  }

  /** Every piece of a written line is a line of the text. */
  lemma {:induction false} PieceWritten(lines: seq<string>, i: nat, piece: string)
    requires i < |lines| && piece in Split(lines[i])
    ensures piece in Lines(Unlines(lines))
  {
    LinesCons(lines);
    if i > 0 {
      PieceWritten(lines[1..], i - 1, piece);
    }
  }

  lemma LinesCons(lines: seq<string>)
    requires lines != []
    ensures Lines(Unlines(lines)) == Split(lines[0]) + Lines(Unlines(lines[1..]))
  {
    var head, rest := Split(lines[0]), Split(Unlines(lines[1..]));
    SplitAppend(lines[0], Unlines(lines[1..]));
    EndsInEmpty(lines[1..]);
    assert (head + rest)[|head + rest| - 1] == rest[|rest| - 1];
    AllButLast(head, rest);
  }

  lemma AllButLast<T>(a: seq<T>, b: seq<T>)
    requires b != []
    ensures (a + b)[..|a + b| - 1] == a + b[..|b| - 1]
  {
  }

  lemma {:induction false} EndsInEmpty(lines: seq<string>)
    ensures var pieces := Split(Unlines(lines)); pieces[|pieces| - 1] == ""
  {
    if lines != [] {
      SplitAppend(lines[0], Unlines(lines[1..]));
      EndsInEmpty(lines[1..]);
    }
  }

  /** Writing lines and splitting the text again gives the lines back. */
  lemma LinesUnlines(lines: seq<string>)
    requires forall i | 0 <= i < |lines| :: OneLine(lines[i])
    ensures Lines(Unlines(lines)) == lines
  {
    SplitUnlines(lines);
  }

  lemma {:induction false} PieceChars(s: string, i: nat, j: nat)
    requires i < |Split(s)| && j < |Split(s)[i]|
    ensures Split(s)[i][j] in s && Split(s)[i][j] != '\n'
  {
    if s != "" {
      var rest := Split(s[1..]);
      if s[0] == '\n' {
        PieceChars(s[1..], i - 1, j);
      } else if i > 0 {
        PieceChars(s[1..], i, j);
      } else if j > 0 {
        PieceChars(s[1..], 0, j - 1);
      }
    }
  }

  lemma {:induction false} CharPiece(s: string, k: nat) returns (i: nat)
    requires k < |s| && s[k] != '\n'
    ensures i < |Split(s)| && s[k] in Split(s)[i]
  {
    if k == 0 {
      i := 0;
    } else {
      assert s[1..][k - 1] == s[k];
      var j := CharPiece(s[1..], k - 1);
      i := if s[0] == '\n' then j + 1 else j;
    }
  }

  /** A line holds no line feed, and the characters of the lines are those of the file
      apart from its line feeds. */
  lemma LineChars(s: string)
    ensures forall i | 0 <= i < |Lines(s)| :: OneLine(Lines(s)[i])
    ensures (forall i | 0 <= i < |Lines(s)| :: AllPrintable(Lines(s)[i]))
            <==> (forall k | 0 <= k < |s| :: Printable(s[k]) || s[k] == '\n')
  {
    var pieces, lines := Split(s), Lines(s);
    forall i | 0 <= i < |lines| ensures OneLine(lines[i]) {
      forall j | 0 <= j < |lines[i]| ensures lines[i][j] != '\n' {
        PieceChars(s, i, j);
      }
    }
    if forall k | 0 <= k < |s| :: Printable(s[k]) || s[k] == '\n' {
      forall i, j | 0 <= i < |lines| && 0 <= j < |lines[i]| ensures Printable(lines[i][j]) {
        PieceChars(s, i, j);
      }
    }
    if forall i | 0 <= i < |lines| :: AllPrintable(lines[i]) {
      forall k | 0 <= k < |s| && s[k] != '\n' ensures Printable(s[k]) {
        var i := CharPiece(s, k);
        assert pieces[i] == lines[i];
      }
    }
  }

  // ------------------------------------------------------------------ searching

  /** The index of the first `c`, or the length. */
  function Find(s: string, c: char): (i: nat)
    ensures i <= |s|
    ensures forall k | 0 <= k < i :: s[k] != c
    ensures i < |s| ==> s[i] == c
  {
    if s == "" || s[0] == c then 0
    else
      var j := Find(s[1..], c);
      assert forall k | 1 <= k < j + 1 :: s[k] == s[1..][k - 1];
      j + 1
  }

  lemma FindIs(s: string, c: char, i: nat)
    requires i < |s| && s[i] == c
    requires forall k | 0 <= k < i :: s[k] != c
    ensures Find(s, c) == i
  {
  }

  predicate StartsWith(s: string, prefix: string) {
    |prefix| <= |s| && s[..|prefix|] == prefix
  }

  predicate EndsWith(s: string, suffix: string) {
    |suffix| <= |s| && s[|s| - |suffix|..] == suffix
  }

  predicate Contains(s: string, part: string) {
    exists i | 0 <= i <= |s| :: StartsWith(s[i..], part)
  }

  // ------------------------------------------------------------------ whitespace and words

  /** `str.isspace`. */
  predicate IsSpace(c: char) {
    c == ' ' || '\t' <= c <= '\r' || '\U{1C}' <= c <= '\U{1F}' || c == '\U{85}' || c == '\U{A0}'
    || c == '\U{1680}' || '\U{2000}' <= c <= '\U{200A}' || c == '\U{2028}' || c == '\U{2029}'
    || c == '\U{202F}' || c == '\U{205F}' || c == '\U{3000}'
  }

  function StripLeft(s: string): string {
    if s != "" && IsSpace(s[0]) then StripLeft(s[1..]) else s
  }

  function StripRight(s: string): string {
    if s != "" && IsSpace(s[|s| - 1]) then StripRight(s[..|s| - 1]) else s
  }

  /** `str.strip()`. */
  function Strip(s: string): string {
    StripRight(StripLeft(s))
  }

  /** Nothing to strip at either end. */
  predicate Stripped(s: string) {
    s == "" || (!IsSpace(s[0]) && !IsSpace(s[|s| - 1]))
  }

  /** `t` is what lies between white space at the ends of `s`. */
  ghost predicate Between(s: string, t: string) {
    Stripped(t)
    && exists i, j :: 0 <= i <= j <= |s| && t == s[i..j]
         && (forall k | 0 <= k < i :: IsSpace(s[k])) && (forall k | j <= k < |s| :: IsSpace(s[k]))
  }

  lemma {:induction false} StripLeftFrom(s: string) returns (i: nat)
    ensures i <= |s| && StripLeft(s) == s[i..] && (forall k | 0 <= k < i :: IsSpace(s[k]))
    ensures i < |s| ==> !IsSpace(s[i])
  {
    if s != "" && IsSpace(s[0]) {
      i := StripLeftFrom(s[1..]);
      i := i + 1;
    } else {
      i := 0;
    }
  }

  lemma {:induction false} StripRightTo(s: string) returns (j: nat)
    ensures j <= |s| && StripRight(s) == s[..j] && (forall k | j <= k < |s| :: IsSpace(s[k]))
    ensures j > 0 ==> !IsSpace(s[j - 1])
  {
    if s != "" && IsSpace(s[|s| - 1]) {
      j := StripRightTo(s[..|s| - 1]);
      assert s[..|s| - 1][..j] == s[..j];
    } else {
      j := |s|;
    }
  }

  /** Stripping removes the white space at both ends and nothing else. */
  lemma StripExact(s: string)
    ensures Between(s, Strip(s))
  {
    var i := StripLeftFrom(s);
    var j := StripRightTo(s[i..]);
    assert s[i..][..j] == s[i..i + j];
    assert forall k | 0 <= k < |s| - i :: s[i..][k] == s[i + k];
  }

  lemma {:induction false} StripIdentity(s: string)
    ensures Strip(s) == s <==> Stripped(s)
  {
    if s != "" && IsSpace(s[0]) {
      StripShortens(s[1..]);
    } else if s != "" && IsSpace(s[|s| - 1]) {
      StripRightShortens(s[..|s| - 1]);
    }
  }

  lemma {:induction false} StripRightShortens(s: string)
    ensures |StripRight(s)| <= |s|
  {
    if s != "" && IsSpace(s[|s| - 1]) {
      StripRightShortens(s[..|s| - 1]);
    }
  }

  lemma {:induction false} StripShortens(s: string)
    ensures |Strip(s)| <= |s|
  {
    if s != "" && IsSpace(s[0]) {
      StripShortens(s[1..]);
    } else {
      StripRightShortens(s);
    }
  }

  /** Where the first word of `s`, which starts with no white space, ends. */
  function WordEnd(s: string): (i: nat)
    ensures i <= |s|
    ensures forall k | 0 <= k < i :: !IsSpace(s[k])
    ensures i < |s| ==> IsSpace(s[i])
  {
    if s == "" || IsSpace(s[0]) then 0
    else
      var j := WordEnd(s[1..]);
      assert forall k | 1 <= k < j + 1 :: s[k] == s[1..][k - 1];
      j + 1
  }

  /** The words of `s` between white space, as `str.split()` and awk's fields. */
  function Words(s: string): seq<string>
    decreases |s|
  {
    if s == "" then []
    else if IsSpace(s[0]) then Words(s[1..])
    else
      var i := WordEnd(s);
      [s[..i]] + Words(s[i..])
  }

  /** awk's `$1`. */
  function FirstWord(s: string): string {
    var words := Words(s);
    if words == [] then "" else words[0]
  }

  predicate IsWord(s: string) {
    s != "" && forall i | 0 <= i < |s| :: !IsSpace(s[i])
  }

  lemma WordEndIs(s: string, i: nat)
    requires i <= |s|
    requires forall k | 0 <= k < i :: !IsSpace(s[k])
    requires i < |s| ==> IsSpace(s[i])
    ensures WordEnd(s) == i
  {
  }

  lemma {:induction false} WordsLeading(pad: string, s: string)
    requires forall i | 0 <= i < |pad| :: pad[i] == ' '
    ensures Words(pad + s) == Words(s)
  {
    if pad == "" {
      assert pad + s == s;
    } else {
      assert (pad + s)[1..] == pad[1..] + s;
      WordsLeading(pad[1..], s);
    }
  }

  lemma WordsCons(word: string, s: string)
    requires IsWord(word)
    requires s == "" || IsSpace(s[0])
    ensures Words(word + s) == [word] + Words(s)
  {
    WordEndIs(word + s, |word|);
    assert (word + s)[..|word|] == word && (word + s)[|word|..] == s;
  }

  lemma {:induction false} WordsTrailing(s: string)
    ensures Words(s + " ") == Words(s)
    decreases |s|
  {
    if s == "" {
      assert s + " " == " ";
      assert (s + " ")[1..] == "";
    } else if IsSpace(s[0]) {
      assert (s + " ")[1..] == s[1..] + " ";
      WordsTrailing(s[1..]);
    } else {
      var i := WordEnd(s);
      WordEndIs(s + " ", i);
      assert (s + " ")[i..] == s[i..] + " " && (s + " ")[..i] == s[..i];
      WordsTrailing(s[i..]);
    }
  }

  lemma {:induction false} WordsPadded(s: string, pad: string)
    requires forall i | 0 <= i < |pad| :: pad[i] == ' '
    ensures Words(s + pad) == Words(s)
  {
    if pad == "" {
      assert s + pad == s;
    } else {
      var n := |pad| - 1;
      WordsPadded(s, pad[..n]);
      WordsTrailing(s + pad[..n]);
      assert s + pad == s + pad[..n] + " ";
    }
  }

  /** A word after a space is one more word. */
  lemma {:induction false} WordsSnoc(s: string, word: string)
    requires s == "" || IsSpace(s[|s| - 1])
    requires IsWord(word)
    ensures Words(s + word) == Words(s) + [word]
    decreases |s|
  {
    if s == "" {
      WordsCons(word, "");
      assert s + word == word + "";
    } else if IsSpace(s[0]) {
      assert (s + word)[1..] == s[1..] + word;
      WordsSnoc(s[1..], word);
    } else {
      var i := WordEnd(s);
      assert i < |s|;
      WordEndIs(s + word, i);
      assert (s + word)[i..] == s[i..] + word && (s + word)[..i] == s[..i];
      WordsSnoc(s[i..], word);
    }
  }

  lemma WordsPadWord(s: string, pad: string, word: string, whole: string)
    requires pad != "" && forall i | 0 <= i < |pad| :: pad[i] == ' '
    requires IsWord(word) && whole == s + pad + word
    ensures Words(whole) == Words(s) + [word]
  {
    var padded := s + pad;
    assert padded[|padded| - 1] == ' ';
    WordsPadded(s, pad);
    WordsSnoc(padded, word);
  }

  lemma {:induction false} SpacesStripped(s: string)
    requires forall i | 0 <= i < |s| :: IsSpace(s[i])
    ensures Strip(s) == ""
  {
    if s != "" {
      SpacesStripped(s[1..]);
    }
  }
}
