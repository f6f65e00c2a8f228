/** `controlplane/lmnradius/models.py`: the validators of the text fields, as `re.match` applies
    their patterns. */
module Models {
  import opened Text
  import opened Records
  import opened StoreSpec

  /** What `re.match` accepts for an anchored pattern: `$` is the end of the text, or the place
      before a line feed that ends it. */
  predicate Matches(pattern: string -> bool, v: string) {
    pattern(v) || (EndsInFeed(v) && pattern(v[..|v| - 1]))
  }

  predicate EndsInFeed(v: string) {
    v != "" && v[|v| - 1] == '\n'
  }

  predicate Alnum(c: char) {
    Digit(c) || 'a' <= c <= 'z' || 'A' <= c <= 'Z'
  }

  predicate LowerOrDigit(c: char) {
    Digit(c) || 'a' <= c <= 'z'
  }

  predicate NameChar(c: char) {
    Alnum(c) || c == '-'
  }

  predicate FileChar(c: char) {
    NameChar(c) || c == '.' || c == '_'
  }

  predicate PlainChar(c: char) {
    FileChar(c) || c == ' '
  }

  /** A character that starts it, and up to `most` others. */
  predicate Run(v: string, first: char -> bool, other: char -> bool, most: nat) {
    0 < |v| <= most + 1 && first(v[0]) && forall i | 0 < i < |v| :: other(v[i])
  }

  /** `^[A-Za-z0-9][A-Za-z0-9-]{0,30}$` */
  predicate NamePattern(v: string) {
    Run(v, Alnum, NameChar, 30)
  }

  /** `^[A-Za-z0-9][A-Za-z0-9._ -]{0,31}$` */
  predicate SsidPattern(v: string) {
    Run(v, Alnum, PlainChar, 31)
  }

  /** `^[A-Za-z0-9][A-Za-z0-9._ -]{0,63}$` */
  predicate GroupPattern(v: string) {
    Run(v, Alnum, PlainChar, 63)
  }

  /** `^[A-Za-z0-9][A-Za-z0-9._-]{0,62}$` */
  predicate SecretPattern(v: string) {
    Run(v, Alnum, FileChar, 62)
  }

  /** `[a-z0-9][a-z0-9._/:-]*` */
  predicate RepoText(v: string) {
    v != "" && LowerOrDigit(v[0])
    && forall i | 0 < i < |v| ::
         LowerOrDigit(v[i]) || v[i] == '.' || v[i] == '_' || v[i] == '/' || v[i] == ':' || v[i] == '-'
  }

  /** `:[A-Za-z0-9][A-Za-z0-9._-]{0,127}` */
  predicate TagText(v: string) {
    v != "" && v[0] == ':' && Run(v[1..], Alnum, FileChar, 127)
  }

  /** `@sha256:[a-f0-9]{64}` */
  predicate DigestText(v: string) {
    |v| == 72 && StartsWith(v, "@sha256:")
    && forall i | 8 <= i < 72 :: Digit(v[i]) || 'a' <= v[i] <= 'f'
  }

  predicate ImagePattern(v: string) {
    exists i | 0 < i < |v| :: RepoText(v[..i]) && (TagText(v[i..]) || DigestText(v[i..]))
  }

  // ------------------------------------------------------------------ the validators

  predicate NameOk(v: string) {
    Matches(NamePattern, v)
  }

  predicate SecretOk(v: string) {
    !Contains(v, "..") && Matches(SecretPattern, v)
  }

  predicate ImageOk(v: string) {
    Matches(ImagePattern, v)
  }

  predicate SsidOk(ssid: Ssid) {
    && Matches(SsidPattern, ssid.name) && Matches(GroupPattern, ssid.allowedGroup)
    && (ssid.vlan.Some? ==> 1 <= ssid.vlan.value <= 4094)
  }

  predicate SsidsOk(ssids: seq<Ssid>) {
    ssids != [] && forall i | 0 <= i < |ssids| :: SsidOk(ssids[i])
  }

  /** The fields that name files, containers and images, and the list of SSIDs. */
  predicate FieldsOk(inst: Instance) {
    && NameOk(inst.name) && Matches(GroupPattern, inst.wifiGroup) && SsidsOk(inst.ssids)
    && SecretOk(inst.joinSecret) && SecretOk(inst.ldapBindSecret) && SecretOk(inst.radiusSecret)
    && ImageOk(inst.image) && (inst.ldapCa.Some? ==> SecretOk(inst.ldapCa.value))
  }

  // ------------------------------------------------------------------ which texts these are

  /** By the ASCII codes. */
  predicate LetterOrDigit(c: char) {
    var code := c as int;
    0x41 <= code <= 0x5A || 0x61 <= code <= 0x7A || 0x30 <= code <= 0x39
  }

  /** Of texts of letters and digits the validators accept those of the right length. */
  lemma LengthsAccepted(v: string)
    requires forall i | 0 <= i < |v| :: LetterOrDigit(v[i])
    ensures NameOk(v) <==> 1 <= |v| <= 31
    ensures Matches(SsidPattern, v) <==> 1 <= |v| <= 32
    ensures SecretOk(v) <==> 1 <= |v| <= 63
    ensures Matches(GroupPattern, v) <==> 1 <= |v| <= 64
  {
    assert forall i | 0 <= i < |v| :: Alnum(v[i]) && v[i] != '\n';
    NoDots(v);
  }

  /** The characters that the validators accept after a letter: besides letters and digits a dash, dots
      and underscores in file names, and spaces in names of SSIDs and groups; and the line feed at the
      end. No other than a letter or a digit comes first. */
  lemma CharsAccepted(c: char)
    ensures NameOk(['a', c]) <==> LetterOrDigit(c) || c == '-' || c == '\n'
    ensures SecretOk(['a', c]) <==> LetterOrDigit(c) || c == '-' || c == '.' || c == '_' || c == '\n'
    ensures Matches(SsidPattern, ['a', c])
            <==> LetterOrDigit(c) || c == '-' || c == '.' || c == '_' || c == ' ' || c == '\n'
    ensures Matches(GroupPattern, ['a', c]) <==> Matches(SsidPattern, ['a', c])
    ensures NameOk([c]) <==> LetterOrDigit(c)
    ensures SecretOk([c]) <==> LetterOrDigit(c)
    ensures Matches(SsidPattern, [c]) <==> LetterOrDigit(c)
    ensures Matches(GroupPattern, [c]) <==> LetterOrDigit(c)
  {
    var two, one := ['a', c], [c];
    assert two[..|two| - 1] == ['a'] && one[..|one| - 1] == [];
    assert two[1] == c && NamePattern(['a']) && SsidPattern(['a']) && GroupPattern(['a']) && SecretPattern(['a']);
    NoTwoDots('a', c);
  }

  lemma NoTwoDots(a: char, c: char)
    requires a != '.'
    ensures !Contains([a, c], "..") && !Contains([c], "..")
  {
    var v := [a, c];
    forall i | 0 <= i <= |v| && 2 <= |v[i..]| ensures v[i..][..2] != ".." {
      assert v[i..][..2][0] == v[i];
    }
  }

  // ------------------------------------------------------------------ what was accepted

  /** An accepted text without a line feed inside the pattern has at most the one at its end. */
  lemma FeedOnlyAtEnd(pattern: string -> bool, v: string)
    requires Matches(pattern, v)
    requires pattern(v) ==> OneLine(v)
    requires EndsInFeed(v) && pattern(v[..|v| - 1]) ==> OneLine(v[..|v| - 1])
    ensures OneLine(v) <==> !EndsInFeed(v)
  {
    if EndsInFeed(v) {
      assert v[|v| - 1] == '\n';
    }
  }

  /** A name or group of an accepted SSID holds a line feed exactly if it ends in one. */
  lemma SsidFeeds(ssid: Ssid)
    requires SsidOk(ssid)
    ensures OneLine(ssid.name) <==> !EndsInFeed(ssid.name)
    ensures OneLine(ssid.allowedGroup) <==> !EndsInFeed(ssid.allowedGroup)
  {
    FeedOnlyAtEnd(SsidPattern, ssid.name);
    FeedOnlyAtEnd(GroupPattern, ssid.allowedGroup);
  }

  /** `[A-Za-z0-9._/:@-]` */
  predicate ImageChar(c: char) {
    FileChar(c) || c == '/' || c == ':' || c == '@'
  }

  lemma ImageChars(v: string)
    requires ImagePattern(v)
    ensures v != "" && forall k | 0 <= k < |v| :: ImageChar(v[k])
  {
    var i :| 0 < i < |v| && RepoText(v[..i]) && (TagText(v[i..]) || DigestText(v[i..]));
    forall k | 0 <= k < |v| ensures ImageChar(v[k]) {
      if k < i {
        assert v[..i][k] == v[k];
      } else if TagText(v[i..]) {
        TagChars(v[i..], k - i);
      } else {
        DigestChars(v[i..], k - i);
      }
    }
  }

  lemma TagChars(v: string, k: nat)
    requires TagText(v) && k < |v|
    ensures ImageChar(v[k])
  {
    assert k > 0 ==> v[k] == v[1..][k - 1];
  }

  lemma DigestChars(v: string, k: nat)
    requires DigestText(v) && k < |v|
    ensures ImageChar(v[k])
  {
    if k < 8 {
      assert v[k] == v[..8][k] == "@sha256:"[k];
      assert forall i | 0 <= i < 8 :: ImageChar("@sha256:"[i]);
    }
  }

  /** An accepted image has white space at its ends exactly if it ends in a line feed. */
  lemma ImageStripped(v: string)
    requires ImageOk(v)
    ensures Stripped(v) <==> !EndsInFeed(v)
  {
    if ImagePattern(v) {
      ImageChars(v);
    }
  }

  /** A bare repository is never accepted: there is a tag or a digest. */
  lemma ImageNamesVersion(v: string)
    requires ImageOk(v)
    ensures Has(v, ':')
  {
    if ImagePattern(v) {
      VersionPart(v);
    } else {
      VersionPart(v[..|v| - 1]);
      var k :| 0 <= k < |v| - 1 && v[..|v| - 1][k] == ':';
      assert v[k] == ':';
    }
  }

  lemma VersionPart(v: string)
    requires ImagePattern(v)
    ensures Has(v, ':')
  {
    var i :| 0 < i < |v| && RepoText(v[..i]) && (TagText(v[i..]) || DigestText(v[i..]));
    if TagText(v[i..]) {
      assert v[i] == v[i..][0] == ':';
    } else {
      assert v[i..][..8][7] == v[i + 7] && "@sha256:"[7] == ':';
    }
  }

  /** The part of an image before its only colon is the repository. */
  lemma OnlyColon(v: string, i: nat)
    requires i < |v| && v[i] == ':' && forall k | 0 <= k < |v| && k != i :: v[k] != ':' && v[k] != '@'
    ensures ImagePattern(v) <==> RepoText(v[..i]) && TagText(v[i..])
  {
    forall k | 0 < k < |v| && (TagText(v[k..]) || DigestText(v[k..])) ensures k == i {
      assert v[k..][0] == v[k];
    }
  }

  /** Of tags of letters and digits those of at most 128 characters are accepted. */
  lemma TagsAccepted(tag: string)
    requires forall i | 0 <= i < |tag| :: LetterOrDigit(tag[i])
    ensures ImageOk("a:" + tag) <==> 1 <= |tag| <= 128
  {
    var v := "a:" + tag;
    assert forall k | 2 <= k < |v| :: v[k] == tag[k - 2];
    OnlyColon(v, 1);
    assert v[..1] == "a" && v[1..][1..] == tag;
    assert RepoText("a");
    assert TagText(v[1..]) <==> Run(tag, Alnum, FileChar, 127);
    assert forall k | 0 <= k < |tag| :: Alnum(tag[k]);
    assert !EndsInFeed(v);
  }

  /** A digest has 64 digits of a hash. */
  lemma DigestsAccepted(hash: string)
    requires forall i | 0 <= i < |hash| :: hash[i] != '\n' && hash[i] != ':' && hash[i] != '@'
    ensures ImageOk("a@sha256:" + hash)
            <==> |hash| == 64 && forall i | 0 <= i < |hash| ::
                   0x30 <= hash[i] as int <= 0x39 || 0x61 <= hash[i] as int <= 0x66
  {
    var v := "a@sha256:" + hash;
    assert v[..9] == "a@sha256:" && v[1..] == "@sha256:" + hash;
    assert forall k | 9 <= k < |v| :: v[k] == hash[k - 9];
    AtSignSplits(v);
    assert v[1..][..8] == "@sha256:" && v[..1] == "a" && RepoText("a");
    assert forall k | 8 <= k < |v[1..]| :: v[1..][k] == hash[k - 8];
    assert !EndsInFeed(v);
    DigestOf(v[1..], hash);
  }

  lemma DigestOf(v: string, hash: string)
    requires v == "@sha256:" + hash
    ensures DigestText(v) <==> |hash| == 64 && forall i | 0 <= i < |hash| ::
                   0x30 <= hash[i] as int <= 0x39 || 0x61 <= hash[i] as int <= 0x66
  {
    assert v[..8] == "@sha256:";
    assert forall k | 0 <= k < |hash| :: v[k + 8] == hash[k];
    if DigestText(v) {
      forall i | 0 <= i < |hash| ensures 0x30 <= hash[i] as int <= 0x39 || 0x61 <= hash[i] as int <= 0x66 {
        assert v[i + 8] == hash[i];
      }
    }
    if |hash| == 64 && forall i | 0 <= i < |hash| :: 0x30 <= hash[i] as int <= 0x39 || 0x61 <= hash[i] as int <= 0x66 {
      forall i | 8 <= i < 72 ensures Digit(v[i]) || 'a' <= v[i] <= 'f' {
        assert v[i] == hash[i - 8];
      }
    }
  }

  /** Behind an at sign there is only a digest. */
  lemma AtSignSplits(v: string)
    requires |v| > 1 && v[1] == '@' && v[0] == 'a'
    ensures ImagePattern(v) <==> RepoText(v[..1]) && DigestText(v[1..])
  {
    forall i | 0 < i < |v| && RepoText(v[..i]) ensures i == 1 {
    }
    assert v[1..][0] == '@';
  }

  /** An accepted secret or CA name is the name of a file, not a path. */
  lemma SecretNoSlash(v: string)
    requires SecretOk(v)
    ensures !Has(v, '/')
  {
  }

  lemma NoDots(v: string)
    requires forall i | 0 <= i < |v| :: v[i] != '.'
    ensures !Contains(v, "..")
  {
    forall i | 0 <= i <= |v| && 2 <= |v[i..]| ensures v[i..][..2] != ".." {
      assert v[i..][..2][0] == v[i];
    }
  }

  /** An accepted instance name passes the store's guard. */
  lemma NameSafe(v: string)
    requires NameOk(v)
    ensures SafeName(v)
  {
    assert forall i | 0 <= i < |v| :: v[i] != '.';
    NoDots(v);
  }
}
