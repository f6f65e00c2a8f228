/** Project names as PEP 503 compares them (`canonical` in `scripts/lockfile_gate.py`). */
module Names {
  import opened Text

  predicate Separator(c: char) {
    c == '-' || c == '_' || c == '.'
  }

  /** `re.sub(r"[-_.]+", "-", name)` */
  function Collapse(s: string): string {
    if s == "" then ""
    else if !Separator(s[0]) then [s[0]] + Collapse(s[1..])
    else if |s| > 1 && Separator(s[1]) then Collapse(s[1..])
    else ['-'] + Collapse(s[1..])
  }

  predicate Upper(c: char) {
    'A' <= c <= 'Z'
  }

  function LowerChar(c: char): char {
    if Upper(c) then c - 'A' + 'a' else c
  }

  function Lower(s: string): (t: string)
    ensures |t| == |s| && forall i | 0 <= i < |s| :: t[i] == LowerChar(s[i])
  {
    if s == "" then "" else [LowerChar(s[0])] + Lower(s[1..])
  }

  function Canonical(name: string): string {
    Lower(Collapse(name))
  }

  function CanonicalAll(names: seq<string>): (c: seq<string>)
    ensures |c| == |names| && forall i | 0 <= i < |names| :: c[i] == Canonical(names[i])
  {
    if names == [] then []
    else
      var n := |names| - 1;
      CanonicalAll(names[..n]) + [Canonical(names[n])]
  }

  /** The shape of a normalised name: no upper case, the only separator is `-`, and no two
      separators are adjacent. */
  predicate IsCanonical(s: string) {
    && (forall i | 0 <= i < |s| :: !Upper(s[i]) && s[i] != '_' && s[i] != '.')
    && (forall i | 0 <= i < |s| - 1 :: s[i] != '-' || s[i + 1] != '-')
  }

  predicate Collapsed(s: string) {
    && (forall i | 0 <= i < |s| :: s[i] != '_' && s[i] != '.')
    && (forall i | 0 <= i < |s| - 1 :: s[i] != '-' || s[i + 1] != '-')
  }

  lemma {:induction false} CollapseCollapses(s: string)
    ensures Collapsed(Collapse(s))
    ensures s != "" ==> Collapse(s) != "" && (Collapse(s)[0] == '-' <==> Separator(s[0]))
  {
    if s != "" {
      CollapseCollapses(s[1..]);
      if |s| > 1 {
        assert s[1..][0] == s[1];
      }
    }
  }

  lemma {:induction false} CollapsedUnchanged(s: string)
    requires Collapsed(s)
    ensures Collapse(s) == s
  {
    if s != "" {
      var t := s[1..];
      assert forall i | 0 <= i < |t| :: t[i] == s[i + 1];
      CollapsedUnchanged(t);
      assert [s[0]] + t == s;
      if Separator(s[0]) && |s| > 1 {
        assert s[0] != '-' || s[1] != '-';
      }
    }
  }

  /** A canonical name is canonical in shape, and the canonical shapes are exactly the names
      that normalisation leaves alone. */
  lemma CanonicalShape(name: string)
    ensures IsCanonical(Canonical(name))
    ensures Canonical(name) == name <==> IsCanonical(name)
  {
    CollapseCollapses(name);
    if IsCanonical(name) {
      CollapsedUnchanged(name);
    }
  }

  /** Normalising is idempotent. */
  lemma CanonicalIdempotent(name: string)
    ensures Canonical(Canonical(name)) == Canonical(name)
  {
    CanonicalShape(name);
    CanonicalShape(Canonical(name));
  }

  // ------------------------------------------------------------------ which name it is

  /** Equal up to the case of an ASCII letter. */
  predicate SameLetter(a: char, b: char) {
    || a == b
    || ('A' <= a <= 'Z' && b as int == a as int + ('a' as int - 'A' as int))
    || ('A' <= b <= 'Z' && a as int == b as int + ('a' as int - 'A' as int))
  }

  predicate SameText(a: string, b: string) {
    |a| == |b| && forall i | 0 <= i < |a| :: SameLetter(a[i], b[i])
  }

  /** The 26 capitals go, in order, to the 26 small letters, every other character stays, and two
      characters are lowered alike exactly if they are the same letter. */
  lemma LowerCharExact(c: char, d: char)
    ensures 'A' <= c <= 'Z' ==> 'a' <= LowerChar(c) <= 'z'
    ensures 'A' <= c < d <= 'Z' ==> LowerChar(c) < LowerChar(d)
    ensures !('A' <= c <= 'Z') ==> LowerChar(c) == c
    ensures LowerChar(c) == LowerChar(d) <==> SameLetter(c, d)
  {
  }

  lemma LowerExact(a: string, b: string)
    ensures Lower(a) == Lower(b) <==> SameText(a, b)
  {
    if Lower(a) == Lower(b) {
      assert |Lower(a)| == |Lower(b)|;
      forall i | 0 <= i < |a| ensures SameLetter(a[i], b[i]) {
        assert Lower(a)[i] == Lower(b)[i];
        LowerCharExact(a[i], b[i]);
      }
    }
    if SameText(a, b) {
      forall i | 0 <= i < |a| ensures Lower(a)[i] == Lower(b)[i] {
        LowerCharExact(a[i], b[i]);
      }
    }
  }

  /** Pieces with gaps between them. */
  function Weave(pieces: seq<string>, gaps: seq<string>): string
    requires |pieces| == |gaps| + 1
  {
    if gaps == [] then pieces[0] else pieces[0] + gaps[0] + Weave(pieces[1..], gaps[1..])
  }

  predicate IsGap(gap: string) {
    gap != "" && forall i | 0 <= i < |gap| :: gap[i] == '-' || gap[i] == '_' || gap[i] == '.'
  }

  predicate IsPiece(piece: string) {
    '-' !in piece && '_' !in piece && '.' !in piece
  }

  /** `name` consists of these pieces, with a run of separators between each two of them; only the
      first and the last piece can be empty. */
  ghost predicate CutAtRuns(name: string, pieces: seq<string>, gaps: seq<string>) {
    && |pieces| == |gaps| + 1 && name == Weave(pieces, gaps)
    && (forall i | 0 <= i < |pieces| :: IsPiece(pieces[i]))
    && (forall i | 0 <= i < |gaps| :: IsGap(gaps[i]))
    && (forall i | 0 < i < |gaps| :: pieces[i] != "")
  }

  function Dashes(n: nat): (gaps: seq<string>)
    ensures |gaps| == n && forall i | 0 <= i < n :: gaps[i] == "-"
  {
    if n == 0 then [] else Dashes(n - 1) + ["-"]
  }

  function LowerAll(pieces: seq<string>): (lowered: seq<string>)
    ensures |lowered| == |pieces| && forall i | 0 <= i < |pieces| :: lowered[i] == Lower(pieces[i])
  {
    if pieces == [] then [] else [Lower(pieces[0])] + LowerAll(pieces[1..])
  }

  /** The pieces and the runs of a name. */
  function Cut(name: string): (c: (seq<string>, seq<string>))
    ensures |c.0| == |c.1| + 1
  {
    if name == "" then ([""], [])
    else
      var c := Cut(name[1..]);
      if !Separator(name[0]) then ([[name[0]] + c.0[0]] + c.0[1..], c.1)
      else if c.0[0] == "" && c.1 != [] then (c.0, [[name[0]] + c.1[0]] + c.1[1..])
      else ([""] + c.0, [[name[0]]] + c.1)
  }

  lemma PieceGrows(c: char, name: string, pieces: seq<string>, gaps: seq<string>)
    requires CutAtRuns(name, pieces, gaps) && IsPiece([c])
    ensures CutAtRuns([c] + name, [[c] + pieces[0]] + pieces[1..], gaps)
  {
    var more := [[c] + pieces[0]] + pieces[1..];
    assert more[1..] == pieces[1..];
    assert IsPiece(pieces[0]);
    if gaps != [] {
      Ahead(c, pieces[0], gaps[0], Weave(pieces[1..], gaps[1..]));
    }
  }

  lemma Ahead(c: char, piece: string, gap: string, rest: string)
    ensures [c] + (piece + gap + rest) == [c] + piece + gap + rest
    ensures [c] + ("" + gap + rest) == "" + ([c] + gap) + rest
  {
  }

  lemma GapGrows(c: char, name: string, pieces: seq<string>, gaps: seq<string>)
    requires CutAtRuns(name, pieces, gaps) && IsGap([c]) && pieces[0] == "" && gaps != []
    ensures CutAtRuns([c] + name, pieces, [[c] + gaps[0]] + gaps[1..])
  {
    var more := [[c] + gaps[0]] + gaps[1..];
    assert more[1..] == gaps[1..];
    assert IsGap(gaps[0]) && [c][0] == c;
    Ahead(c, "", gaps[0], Weave(pieces[1..], gaps[1..]));
  }

  lemma GapBegins(c: char, name: string, pieces: seq<string>, gaps: seq<string>)
    requires CutAtRuns(name, pieces, gaps) && IsGap([c]) && (gaps != [] ==> pieces[0] != "")
    ensures CutAtRuns([c] + name, [""] + pieces, [[c]] + gaps)
  {
    assert ([""] + pieces)[1..] == pieces && ([[c]] + gaps)[1..] == gaps;
    assert "" + [c] + name == [c] + name;
  }

  lemma {:induction false} CutExact(name: string)
    ensures CutAtRuns(name, Cut(name).0, Cut(name).1)
  {
    if name != "" {
      var c, rest := name[0], Cut(name[1..]);
      CutExact(name[1..]);
      assert name == [c] + name[1..];
      if !Separator(c) {
        PieceGrows(c, name[1..], rest.0, rest.1);
      } else if rest.0[0] == "" && rest.1 != [] {
        GapGrows(c, name[1..], rest.0, rest.1);
      } else {
        GapBegins(c, name[1..], rest.0, rest.1);
      }
    }
  }

  lemma {:induction false} CollapsePiece(piece: string, rest: string)
    requires IsPiece(piece)
    ensures Collapse(piece + rest) == piece + Collapse(rest)
  {
    if piece == "" {
      assert piece + rest == rest;
    } else {
      assert piece[0] in piece && (piece + rest)[1..] == piece[1..] + rest;
      CollapsePiece(piece[1..], rest);
      assert [piece[0]] + (piece[1..] + Collapse(rest)) == piece + Collapse(rest);
    }
  }

  lemma {:induction false} CollapseGap(gap: string, rest: string)
    requires IsGap(gap) && (rest != "" ==> !Separator(rest[0]))
    ensures Collapse(gap + rest) == "-" + Collapse(rest)
  {
    assert (gap + rest)[1..] == gap[1..] + rest;
    if |gap| == 1 {
      assert gap[1..] + rest == rest;
    } else {
      assert (gap + rest)[1] == gap[1];
      CollapseGap(gap[1..], rest);
    }
  }

  /** What follows a gap is a cut of its own. */
  lemma CutTail(pieces: seq<string>, gaps: seq<string>)
    requires |pieces| == |gaps| + 1 && gaps != [] && CutAtRuns(Weave(pieces, gaps), pieces, gaps)
    ensures var rest := Weave(pieces[1..], gaps[1..]);
            && CutAtRuns(rest, pieces[1..], gaps[1..])
            && (rest != "" ==> !Separator(rest[0]))
  {
    assert forall i | 0 < i < |gaps[1..]| :: pieces[1..][i] == pieces[i + 1];
    if gaps[1..] != [] {
      assert pieces[1] != "" && IsPiece(pieces[1]);
    }
    assert IsPiece(pieces[1]);
    if pieces[1] != "" {
      assert pieces[1][0] in pieces[1] && Weave(pieces[1..], gaps[1..])[0] == pieces[1][0];
    }
  }

  lemma {:induction false} LowerConcat(a: string, b: string)
    ensures Lower(a + b) == Lower(a) + Lower(b)
  {
    assert |Lower(a + b)| == |Lower(a) + Lower(b)|;
    assert forall i | 0 <= i < |a + b| :: Lower(a + b)[i] == (Lower(a) + Lower(b))[i];
  }

  lemma DashesTail(n: nat)
    requires n > 0
    ensures Dashes(n)[1..] == Dashes(n - 1)
  {
  }

  /** A piece, a run and what follows, normalised. */
  lemma CanonicalStep(piece: string, gap: string, rest: string)
    requires IsPiece(piece) && IsGap(gap) && (rest != "" ==> !Separator(rest[0]))
    ensures Canonical(piece + gap + rest) == Lower(piece) + "-" + Canonical(rest)
  {
    CollapsePiece(piece, gap + rest);
    CollapseGap(gap, rest);
    assert piece + gap + rest == piece + (gap + rest);
    LowerConcat(piece, "-" + Collapse(rest));
    LowerConcat("-", Collapse(rest));
    assert Lower("-") == "-";
    Dashed(Lower(piece), Canonical(rest));
  }

  lemma Dashed(a: string, b: string)
    ensures a + ("-" + b) == a + "-" + b
  {
  }

  lemma WovenStep(pieces: seq<string>, n: nat)
    requires |pieces| == n + 1 && n > 0
    ensures Weave(LowerAll(pieces), Dashes(n))
            == Lower(pieces[0]) + "-" + Weave(LowerAll(pieces[1..]), Dashes(n - 1))
  {
    DashesTail(n);
    assert LowerAll(pieces)[1..] == LowerAll(pieces[1..]);
  }

  /** The pieces in lower case with single dashes between them: this is the normalised name. */
  lemma {:induction false} CanonicalWeaves(name: string, pieces: seq<string>, gaps: seq<string>)
    requires CutAtRuns(name, pieces, gaps)
    ensures Canonical(name) == Weave(LowerAll(pieces), Dashes(|gaps|))
    decreases |gaps|
  {
    if gaps == [] {
      CollapsePiece(pieces[0], "");
      assert pieces[0] + "" == pieces[0];
      assert LowerAll(pieces)[0] == Lower(pieces[0]);
    } else {
      CutTail(pieces, gaps);
      CanonicalWeaves(Weave(pieces[1..], gaps[1..]), pieces[1..], gaps[1..]);
      assert IsPiece(pieces[0]) && IsGap(gaps[0]);
      CanonicalStep(pieces[0], gaps[0], Weave(pieces[1..], gaps[1..]));
      WovenStep(pieces, |gaps|);
    }
  }

  /** Pieces without a dash are told apart when dashes join them. */
  lemma {:induction false} WeaveInjective(p: seq<string>, q: seq<string>)
    requires p != [] && q != []
    requires Weave(p, Dashes(|p| - 1)) == Weave(q, Dashes(|q| - 1))
    requires (forall i | 0 <= i < |p| :: '-' !in p[i]) && forall i | 0 <= i < |q| :: '-' !in q[i]
    ensures p == q
    decreases |p|
  {
    var s := Weave(p, Dashes(|p| - 1));
    FirstDash(p);
    FirstDash(q);
    if |p| > 1 {
      assert |q| > 1;
      DashesTail(|p| - 1);
      DashesTail(|q| - 1);
      AfterDash(p[0], Weave(p[1..], Dashes(|p| - 2)));
      AfterDash(q[0], Weave(q[1..], Dashes(|q| - 2)));
      WeaveInjective(p[1..], q[1..]);
      assert p == [p[0]] + p[1..] && q == [q[0]] + q[1..];
    } else {
      assert |q| == 1;
    }
  }

  lemma AfterDash(a: string, b: string)
    ensures (a + "-" + b)[|a| + 1..] == b && (a + "-" + b)[..|a|] == a
  {
  }

  lemma FirstDash(p: seq<string>)
    requires p != [] && forall i | 0 <= i < |p| :: '-' !in p[i]
    ensures Find(Weave(p, Dashes(|p| - 1)), '-') == |p[0]|
    ensures Weave(p, Dashes(|p| - 1))[..|p[0]|] == p[0]
    ensures |p| == 1 <==> |Weave(p, Dashes(|p| - 1))| == |p[0]|
  {
    var s := Weave(p, Dashes(|p| - 1));
    assert forall k | 0 <= k < |p[0]| :: s[k] == p[0][k] && p[0][k] != '-';
    if |p| > 1 {
      AfterDash(p[0], Weave(p[1..], Dashes(|p| - 1)[1..]));
      FindIs(s, '-', |p[0]|);
    }
  }

  ghost predicate SamePieces(p: seq<string>, q: seq<string>) {
    |p| == |q| && forall i | 0 <= i < |p| :: SameText(p[i], q[i])
  }

  /** The same pieces between runs of separators, up to the case of letters. */
  ghost predicate SameName(a: string, b: string) {
    exists p, g, q, h :: CutAtRuns(a, p, g) && CutAtRuns(b, q, h) && SamePieces(p, q)
  }

  lemma LowerNoDash(pieces: seq<string>)
    requires forall i | 0 <= i < |pieces| :: IsPiece(pieces[i])
    ensures forall i | 0 <= i < |pieces| :: '-' !in LowerAll(pieces)[i]
  {
    forall i | 0 <= i < |pieces| ensures '-' !in LowerAll(pieces)[i] {
      var piece := pieces[i];
      forall k | 0 <= k < |piece| ensures Lower(piece)[k] != '-' {
        assert piece[k] in piece;
        LowerCharExact(piece[k], '-');
      }
    }
  }

  lemma CanonicalOfCuts(a: string, p: seq<string>, g: seq<string>, b: string, q: seq<string>, h: seq<string>)
    requires CutAtRuns(a, p, g) && CutAtRuns(b, q, h)
    ensures Canonical(a) == Canonical(b) <==> SamePieces(p, q)
  {
    CanonicalWeaves(a, p, g);
    CanonicalWeaves(b, q, h);
    if Canonical(a) == Canonical(b) {
      LowerNoDash(p);
      LowerNoDash(q);
      WeaveInjective(LowerAll(p), LowerAll(q));
      assert |LowerAll(p)| == |LowerAll(q)|;
      forall i | 0 <= i < |p| ensures SameText(p[i], q[i]) {
        assert LowerAll(p)[i] == LowerAll(q)[i];
        LowerExact(p[i], q[i]);
      }
    }
    if SamePieces(p, q) {
      forall i | 0 <= i < |p| ensures LowerAll(p)[i] == LowerAll(q)[i] {
        LowerExact(p[i], q[i]);
      }
      assert LowerAll(p) == LowerAll(q);
    }
  }

  /** Two names are normalised to the same exactly if they are the same name: the same pieces between
      runs of separators, up to the case of letters. */
  lemma CanonicalIff(a: string, b: string)
    ensures Canonical(a) == Canonical(b) <==> SameName(a, b)
  {
    CutExact(a);
    CutExact(b);
    CanonicalOfCuts(a, Cut(a).0, Cut(a).1, b, Cut(b).0, Cut(b).1);
    if SameName(a, b) {
      var p, g, q, h :| CutAtRuns(a, p, g) && CutAtRuns(b, q, h) && SamePieces(p, q);
      CanonicalOfCuts(a, p, g, b, q, h);
    }
  }

  ghost predicate Distinct(names: seq<string>) {
    forall i, j | 0 <= i < j < |names| :: names[i] != names[j]
  }

  lemma DistinctSnoc(names: seq<string>, name: string)
    ensures Distinct(names + [name]) <==> Distinct(names) && name !in names
  {
    var more := names + [name];
    if Distinct(more) {
      forall i, j | 0 <= i < j < |names| ensures names[i] != names[j] {
        assert more[i] != more[j];
      }
      forall i | 0 <= i < |names| ensures names[i] != name {
        assert more[i] != more[|names|];
      }
    }
  }
}
