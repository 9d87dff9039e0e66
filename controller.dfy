/**
 * The `typogen` engine: the state its constructor loads (the TLD list and
 * the confusable table) and `generatetyposv2`, which runs the enabled
 * generators, keeps the candidates that pass the validator, decodes them
 * from IDNA and returns them sorted.
 */
module Controller {
  import opened Wrappers
  import opened Text
  import opened Lists
  import opened Sorting
  import opened Idna
  import opened Validator
  import opened Edits
  import opened Lexical
  import opened Keyboard
  import opened BitFlip
  import opened Doppelgangers
  import opened Homoglyphs
  import opened Tables

  /** The switches of `generatetyposv2`. */
  datatype Options = Options(
    typos: bool,
    intensity: int,
    tldSwap: bool,
    bitFlip: bool,
    homoglyphs: bool,
    doppelganger: bool)

  /**
   * The data files a run reads, as the lines a file iteration yields: the
   * keyboard layout of the chosen country, the additional homoglyphs and
   * the subdomain wordlist.
   */
  datatype DataFiles = DataFiles(keyboard: seq<string>, homoglyphs: seq<string>, subdomains: seq<string>)

  /**
   * `strHost[:lastdot]` with `lastdot = strHost.rfind(".")`.  Without a dot
   * `lastdot` is -1, and the slice drops the last character.
   */
  function BeforeLastDot(host: string): string {
    var lastdot := RFind(host, '.');
    if lastdot >= 0 then host[..lastdot]
    else if |host| > 0 then host[..|host| - 1]
    else []
  }

  /** The TLD swap: every TLD of the list after the part before the last dot. */
  function TldSwaps(host: string, tlds: seq<string>): seq<string> {
    seq(|tlds|, i requires 0 <= i < |tlds| => BeforeLastDot(host) + "." + tlds[i])
  }

  /**
   * With a dot in the host, each swap keeps everything up to the last dot
   * and ends in one TLD of the list, which is then its top-level label when
   * that TLD has no dot.
   */
  lemma TldSwapsShape(host: string, tlds: seq<string>)
    requires RFind(host, '.') >= 0
    ensures |TldSwaps(host, tlds)| == |tlds|
    ensures forall i :: 0 <= i < |tlds| ==>
      TldSwaps(host, tlds)[i] == host[..RFind(host, '.') + 1] + tlds[i]
    ensures forall i :: 0 <= i < |tlds| && !Contains(tlds[i], ".") ==>
      TopLevelLabel(TldSwaps(host, tlds)[i]) == tlds[i]
  {
    var k := RFind(host, '.');
    assert BeforeLastDot(host) == host[..k];
    assert host[..k + 1] == host[..k] + ".";
    forall i | 0 <= i < |tlds| && !Contains(tlds[i], ".")
      ensures TopLevelLabel(TldSwaps(host, tlds)[i]) == tlds[i]
    {
      LabelAfterDot(host[..k], tlds[i]);
    }
  }

  /** Without a dot in the host the swap cuts off its last character. */
  lemma TldSwapWithoutDot()
    ensures TldSwaps("localhost", ["com"]) == ["localhos.com"]
  {
    var host := "localhost";
    assert forall j :: 0 <= j < |host| ==> host[j] != '.';
    assert BeforeLastDot(host) == host[..|host| - 1] == "localhos";
    var swaps := TldSwaps(host, ["com"]);
    assert |swaps| == 1;
    assert swaps[0] == "localhos" + "." + "com";
    assert "localhos" + "." + "com" == "localhos.com";
  }

  /** The enabled typo tiers: quick always, balanced above 0, rigorous above 50. */
  function TypoGroup(host: string, intensity: int, keyboard: seq<string>): Option<set<string>> {
    var quick := SetOf(MissingCharacters(host)) + SetOf(DuplicateCharacters(host));
    if intensity <= 0 then Some(quick)
    else
      match KeyboardLayout(keyboard)
      case None => None
      case Some(layout) =>
        var balanced := quick + SetOf(Substitutions(host, layout)) + SetOf(SequenceTypos(host, layout, 0));
        if intensity <= 50 then Some(balanced)
        else Some(balanced + SetOf(Transpositions(host)) + SetOf(Additions(host, layout)))
  }

  /** The encoded confusable substitutions and the encoded additional-homoglyph substitutions. */
  ghost function HomoglyphGroup(host: string, confusables: Confusables, lines: seq<string>,
                                lower: string -> string, codec: Codec): Option<set<string>>
  {
    match EncodeSet(codec, ConfusableSubstitutions(host, confusables))
    case None => None
    case Some(confused) =>
      match HomoglyphTable(lines, lower, codec)
      case None => None
      case Some(table) =>
        match EncodeAll(codec, Substitutions(host, table))
        case None => None
        case Some(additional) => Some(confused + SetOf(additional))
  }

  /** The subdomain and extra-dot doppelgangers; the country-code generator is not called. */
  function DoppelgangerGroup(host: string, subdomains: seq<string>): set<string> {
    SetOf(SubdomainDoppelgangers(subdomains, host)) + SetOf(ExtraDots(host))
  }

  /** The bit flips, the typo tiers and the TLD swaps; `None` when the keyboard file fails. */
  function EarlyCandidates(host: string, opts: Options, tlds: seq<string>, keyboard: seq<string>): Option<set<string>> {
    var flips := if opts.bitFlip then SetOf(BitFlips(host)) else {};
    var typos := if opts.typos then TypoGroup(host, opts.intensity, keyboard) else Some({});
    var swaps := if opts.tldSwap then SetOf(TldSwaps(host, tlds)) else {};
    if typos.None? then None else Some(flips + typos.value + swaps)
  }

  /**
   * The set of raw candidates of one run; `None` when the keyboard file,
   * the additional-homoglyph file or an IDNA encoding fails.
   */
  ghost function Candidates(host: string, opts: Options, tlds: seq<string>, confusables: Confusables,
                            files: DataFiles, lower: string -> string, codec: Codec): Option<set<string>>
  {
    var early := EarlyCandidates(host, opts, tlds, files.keyboard);
    var glyphs := if opts.homoglyphs then HomoglyphGroup(host, confusables, files.homoglyphs, lower, codec) else Some({});
    var doubles := if opts.doppelganger then DoppelgangerGroup(host, files.subdomains) else {};
    if early.None? || glyphs.None? then None
    else Some(early.value + glyphs.value + doubles)
  }

  /** The candidates, with the host itself added, that the validator accepts. */
  function Survivors(raw: set<string>, host: string, tlds: seq<string>): set<string> {
    set x | x in raw + {host} && IsDomainValid(x, tlds)
  }

  /** Decoding is one-to-one on a set of ASCII names. */
  ghost predicate DecodesInjectively(codec: Codec, xs: set<string>) {
    forall x, y :: x in xs && y in xs && codec.toUnicode(x).Some? && codec.toUnicode(x) == codec.toUnicode(y) ==> x == y
  }

  /** Names decoded one by one in some order without repetition: every name decodes, and the decoded texts are the images. */
  lemma DecodedInOrder(names: set<string>, codec: Codec, order: seq<string>, decoded: seq<string>)
    requires forall x :: x in names <==> x in order
    requires Distinct(order) && |decoded| == |order|
    requires forall k :: 0 <= k < |order| ==> codec.toUnicode(order[k]) == Some(decoded[k])
    ensures forall x :: x in names ==> codec.toUnicode(x).Some?
    ensures forall y :: y in decoded <==> exists x :: x in names && codec.toUnicode(x) == Some(y)
    ensures DecodesInjectively(codec, names) ==> Distinct(decoded)
  {
    forall x | x in names ensures codec.toUnicode(x).Some? {
      var k :| 0 <= k < |order| && order[k] == x;
    }
    forall y ensures y in decoded <==> exists x :: x in names && codec.toUnicode(x) == Some(y) {
      if y in decoded {
        var k :| 0 <= k < |decoded| && decoded[k] == y;
        assert order[k] in names;
      }
      if exists x :: x in names && codec.toUnicode(x) == Some(y) {
        var x :| x in names && codec.toUnicode(x) == Some(y);
        var k :| 0 <= k < |order| && order[k] == x;
        assert decoded[k] == y;
      }
    }
    if DecodesInjectively(codec, names) {
      forall i, j | 0 <= i < j < |decoded| ensures decoded[i] != decoded[j] {
        assert order[i] in names && order[j] in names;
      }
    }
  }

  class TypoGen {
    /** `self.lstTlds`. */
    var tlds: seq<string>
    /** The module-level `_homoglyphs_confusables`, filled once by the constructor. */
    var confusables: Confusables

    /** Every key of the confusable table is a non-empty text. */
    ghost predicate Valid()
      reads this
    {
      NonEmptyKeys(confusables)
    }

    /**
     * `__init__`: the TLD list, then the confusable table.  The pairs of
     * the confusables file come already parsed; each right-hand side holds
     * at least one character.
     */
    constructor (tldLines: seq<string>, lower: string -> string, pairs: seq<ConfusablePair>, codec: Codec)
      requires forall i :: 0 <= i < |pairs| ==> |pairs[i].target| > 0
      ensures tlds == TldEntries(tldLines, lower)
      ensures confusables == BuildConfusables(pairs, codec).table
      ensures Valid()
    {
      var t := LoadTlds(tldLines, lower);
      var c := LoadConfusables(pairs, codec);
      tlds := t;
      confusables := c;
      forall key | key in c ensures |key| > 0 {
        ConfusablesMeaning(pairs, codec, key, key);
      }
    }

    /** The TLD-swap block of `generatetyposv2`. */
    method GenerateTldSwapTypos(host: string) returns (result: seq<string>)
      ensures result == TldSwaps(host, tlds)
    {
      var lastdot := RFind(host, '.');
      var prefix := if lastdot >= 0 then host[..lastdot] else if |host| > 0 then host[..|host| - 1] else [];
      assert prefix == BeforeLastDot(host);
      result := [];
      for i := 0 to |tlds|
        invariant result == TldSwaps(host, tlds)[..i]
      {
        result := result + [prefix + "." + tlds[i]];
      }
    }

    /** The typo tiers of `generatetyposv2`. */
    method CollectTypoTiers(host: string, intensity: int, keyboard: seq<string>)
      returns (result: Option<seq<string>>)
      ensures result.None? <==> TypoGroup(host, intensity, keyboard).None?
      ensures result.Some? ==> SetOf(result.value) == TypoGroup(host, intensity, keyboard).value
    {
      var typos := GenerateMissingCharacterTypos(host);
      var r := GenerateDuplicateCharacterTypos(host);
      SetOfConcat(typos, r);
      typos := typos + r;
      if intensity > 0 {
        var layout := LoadKeyboard(keyboard);
        if layout.None? {
          return None;
        }
        r := GenerateMiskeyedTypos(host, layout.value);
        SetOfConcat(typos, r);
        typos := typos + r;
        r := GenerateMiskeyedSequenceTypos(host, layout.value);
        SetOfConcat(typos, r);
        typos := typos + r;
        if intensity > 50 {
          r := GenerateTransposedCharacterTypos(host);
          SetOfConcat(typos, r);
          typos := typos + r;
          r := GenerateMiskeyedAdditionTypos(host, layout.value);
          SetOfConcat(typos, r);
          typos := typos + r;
        }
      }
      result := Some(typos);
    }

    /** The homoglyph block of `generatetyposv2`. */
    method CollectHomoglyphs(host: string, lines: seq<string>, lower: string -> string, codec: Codec)
      returns (result: Option<seq<string>>)
      requires Valid()
      ensures result.None? <==> HomoglyphGroup(host, confusables, lines, lower, codec).None?
      ensures result.Some? ==> SetOf(result.value) == HomoglyphGroup(host, confusables, lines, lower, codec).value
    {
      var confused := GenerateHomoglyphConfusablesTypos(host, confusables, codec);
      if confused.None? {
        return None;
      }
      var table := LoadAdditionalHomoglyphs(lines, lower, codec);
      if table.None? {
        return None;
      }
      var additional := GenerateAdditionalHomoglyphTypos(host, table.value, codec);
      if additional.None? {
        return None;
      }
      SetOfConcat(confused.value, additional.value);
      result := Some(confused.value + additional.value);
    }

    /** The doppelganger block of `generatetyposv2`. */
    method CollectDoppelgangers(host: string, subdomains: seq<string>) returns (result: seq<string>)
      ensures SetOf(result) == DoppelgangerGroup(host, subdomains)
    {
      var a := GenerateSubdomainDoppelgangers(subdomains, host);
      var b := GenerateExtraDotDoppelgangers(host);
      SetOfConcat(a, b);
      result := a + b;
    }

    /** `lstTypos` of `generatetyposv2`: every enabled generator in turn. */
    method CollectCandidates(host: string, opts: Options, files: DataFiles, lower: string -> string, codec: Codec)
      returns (result: Option<seq<string>>)
      requires Valid()
      ensures result.None? <==> Candidates(host, opts, tlds, confusables, files, lower, codec).None?
      ensures result.Some? ==> SetOf(result.value) == Candidates(host, opts, tlds, confusables, files, lower, codec).value
    {
      var early := CollectEarly(host, opts, files.keyboard);
      if early.None? {
        return None;
      }
      var typos := early.value;
      ghost var sofar := EarlyCandidates(host, opts, tlds, files.keyboard).value;
      if opts.homoglyphs {
        var r := CollectHomoglyphs(host, files.homoglyphs, lower, codec);
        if r.None? {
          return None;
        }
        SetOfConcat(typos, r.value);
        typos := typos + r.value;
        sofar := sofar + HomoglyphGroup(host, confusables, files.homoglyphs, lower, codec).value;
      }
      assert SetOf(typos) == sofar;
      if opts.doppelganger {
        var r := CollectDoppelgangers(host, files.subdomains);
        SetOfConcat(typos, r);
        typos := typos + r;
        sofar := sofar + DoppelgangerGroup(host, files.subdomains);
      }
      assert SetOf(typos) == sofar;
      result := Some(typos);
    }

    /** The bit-flip, typo and TLD-swap blocks of `generatetyposv2`. */
    method CollectEarly(host: string, opts: Options, keyboard: seq<string>) returns (result: Option<seq<string>>)
      ensures result.None? <==> EarlyCandidates(host, opts, tlds, keyboard).None?
      ensures result.Some? ==> SetOf(result.value) == EarlyCandidates(host, opts, tlds, keyboard).value
    {
      var typos: seq<string> := [];
      if opts.bitFlip {
        var r := BitFlipString(host);
        typos := typos + r;
      }
      assert SetOf(typos) == if opts.bitFlip then SetOf(BitFlips(host)) else {};
      ghost var sofar := SetOf(typos);
      if opts.typos {
        var r := CollectTypoTiers(host, opts.intensity, keyboard);
        if r.None? {
          return None;
        }
        SetOfConcat(typos, r.value);
        typos := typos + r.value;
        sofar := sofar + TypoGroup(host, opts.intensity, keyboard).value;
      }
      assert SetOf(typos) == sofar;
      if opts.tldSwap {
        var r := GenerateTldSwapTypos(host);
        SetOfConcat(typos, r);
        typos := typos + r;
        sofar := sofar + SetOf(TldSwaps(host, tlds));
      }
      assert SetOf(typos) == sofar;
      result := Some(typos);
    }

    /** The "Remove any invalid typos" loop, over a copy of the set. */
    method RemoveInvalid(unique: set<string>) returns (valid: set<string>)
      ensures valid == set x | x in unique && IsDomainValid(x, tlds)
    {
      valid := unique;
      var pending := unique;
      while pending != {}
        invariant pending <= valid <= unique
        invariant forall x :: x in unique && x !in pending ==> (x in valid <==> IsDomainValid(x, tlds))
        decreases |pending|
      {
        var typo :| typo in pending;
        if !IsDomainValid(typo, tlds) {
          valid := valid - {typo};
        }
        pending := pending - {typo};
      }
    }

    /** `[codecs.decode(asciiHost.encode(), "idna") for asciiHost in uniqueTypos]`. */
    method DecodeAll(names: set<string>, codec: Codec) returns (result: Option<seq<string>>)
      ensures result.None? <==> exists x :: x in names && codec.toUnicode(x).None?
      ensures result.Some? ==>
        && |result.value| == |names|
        && (forall y :: y in result.value <==> exists x :: x in names && codec.toUnicode(x) == Some(y))
        && (DecodesInjectively(codec, names) ==> Distinct(result.value))
    {
      var decoded: seq<string> := [];
      ghost var order: seq<string> := [];
      var rest := names;
      while rest != {}
        invariant rest <= names
        invariant forall x :: x in names <==> x in rest || x in order
        invariant forall k :: 0 <= k < |order| ==> order[k] !in rest
        invariant Distinct(order)
        invariant |order| + |rest| == |names|
        invariant |decoded| == |order|
        invariant forall k :: 0 <= k < |order| ==> codec.toUnicode(order[k]) == Some(decoded[k])
        decreases |rest|
      {
        var x :| x in rest;
        var d := codec.toUnicode(x);
        if d.None? {
          return None;
        }
        decoded := decoded + [d.value];
        order := order + [x];
        rest := rest - {x};
      }
      DecodedInOrder(names, codec, order, decoded);
      result := Some(decoded);
    }

    /**
     * `generatetyposv2`: the candidates of the enabled generators, with the
     * host, those the validator accepts, each decoded from IDNA, sorted.
     * `None` stands for the exceptions a run can raise: a malformed
     * keyboard or homoglyph file, or an IDNA encoding or decoding error.
     */
    method GenerateTypos(host: string, opts: Options, files: DataFiles, lower: string -> string, codec: Codec)
      returns (result: Option<seq<string>>)
      requires Valid()
      ensures var raw := Candidates(host, opts, tlds, confusables, files, lower, codec);
        result.None? <==>
          (|| raw.None?
           || exists x :: x in Survivors(raw.value, host, tlds) && codec.toUnicode(x).None?)
      ensures result.Some? ==>
        var survivors := Survivors(Candidates(host, opts, tlds, confusables, files, lower, codec).value, host, tlds);
        && Sorted(result.value)
        && |result.value| == |survivors|
        && (forall y :: y in result.value <==> exists x :: x in survivors && codec.toUnicode(x) == Some(y))
        && (DecodesInjectively(codec, survivors) ==> Distinct(result.value))
    {
      var typos := CollectCandidates(host, opts, files, lower, codec);
      if typos.None? {
        return None;
      }
      var unique := SetOf(typos.value);
      unique := unique + {host};
      var valid := RemoveInvalid(unique);
      assert valid == Survivors(SetOf(typos.value), host, tlds);
      var decoded := DecodeAll(valid, codec);
      if decoded.None? {
        return None;
      }
      var sorted := SortStrings(decoded.value);
      SortedKeepsMembers(decoded.value, sorted);
      if DecodesInjectively(codec, valid) {
        DistinctPermutation(decoded.value, sorted);
      }
      result := Some(sorted);
    }
  }

  /** A permutation has the same members and the same length. */
  lemma SortedKeepsMembers(xs: seq<string>, ys: seq<string>)
    requires multiset(xs) == multiset(ys)
    ensures |ys| == |xs|
    ensures forall y :: y in ys <==> y in xs
  {
    assert |multiset(ys)| == |multiset(xs)|;
    forall y ensures y in ys <==> y in xs {
      assert y in ys <==> y in multiset(ys);
      assert y in xs <==> y in multiset(xs);
    }
  }

  /**
   * Only the two thresholds matter: intensities on the same side of 0 and
   * of 50 give the same candidates.
   */
  lemma IntensityTiers(host: string, i: int, j: int, keyboard: seq<string>)
    requires (i > 0 <==> j > 0) && (i > 50 <==> j > 50)
    ensures TypoGroup(host, i, keyboard) == TypoGroup(host, j, keyboard)
  {
  }

  /**
   * The quick tier never fails; the keyboard file is read, and can fail
   * the run, exactly when the intensity is above 0; a higher intensity
   * never loses a candidate.
   */
  lemma IntensityMonotone(host: string, i: int, j: int, keyboard: seq<string>)
    requires i <= j
    ensures TypoGroup(host, i, keyboard).None? <==> i > 0 && KeyboardLayout(keyboard).None?
    ensures TypoGroup(host, i, keyboard).Some? && TypoGroup(host, j, keyboard).Some? ==>
      TypoGroup(host, i, keyboard).value <= TypoGroup(host, j, keyboard).value
    ensures TypoGroup(host, j, keyboard).Some? ==> SetOf(MissingCharacters(host)) <= TypoGroup(host, j, keyboard).value
  {
  }

  /** A name the validator accepts is ASCII. */
  lemma ValidIsAscii(d: string, tlds: seq<string>)
    requires IsDomainValid(d, tlds)
    ensures IsAscii(d)
  {
    forall k | 0 <= k < |d| ensures d[k] < '\U{80}' {
      if AllHostChars(d) {
        assert IsHostChar(d[k]);
      } else if k < |d| - 1 {
        assert d[..|d| - 1][k] == d[k];
        assert IsHostChar(d[k]);
      }
    }
  }

  /**
   * The host is among the survivors exactly when the validator accepts it,
   * and every survivor is a candidate or the host.
   */
  lemma HostSurvives(raw: set<string>, host: string, tlds: seq<string>)
    ensures host in Survivors(raw, host, tlds) <==> IsDomainValid(host, tlds)
    ensures forall x :: x in Survivors(raw, host, tlds) ==> (x in raw || x == host) && IsDomainValid(x, tlds)
  {
    SurvivorsWithin(raw, host, tlds);
  }

  /** Every survivor is a candidate or the host, and passes the validator. */
  lemma SurvivorsWithin(raw: set<string>, host: string, tlds: seq<string>)
    ensures forall x :: x in Survivors(raw, host, tlds) ==> (x in raw || x == host) && IsDomainValid(x, tlds)
  {
    forall x | x in Survivors(raw, host, tlds) ensures (x in raw || x == host) && IsDomainValid(x, tlds) {
      assert x in raw + {host};
    }
  }

  /** A candidate the validator accepts survives. */
  lemma ValidCandidatesSurvive(raw: set<string>, host: string, tlds: seq<string>)
    requires forall x :: x in raw ==> IsDomainValid(x, tlds)
    ensures raw <= Survivors(raw, host, tlds)
  {
  }

  /**
   * A valid host without an ACE label decodes to itself when the codec
   * leaves plain ASCII alone, so it appears in the result unchanged.
   */
  lemma HostDecodesToItself(host: string, tlds: seq<string>, codec: Codec)
    requires IsDomainValid(host, tlds) && !Contains(host, "xn--")
    requires DecodesPlainAsciiUnchanged(codec)
    ensures codec.toUnicode(host) == Some(host)
  {
    ValidIsAscii(host, tlds);
    assert IsAscii(host);
  }

  /**
   * With the TLD list as the constructor loads it, every survivor is a
   * well-formed domain: non-empty, in `[a-z0-9.-]`, ending in a listed TLD,
   * with no ".-", "-." or "..", and not starting with '-' or '.'.
   */
  lemma SurvivorsWellFormed(raw: set<string>, host: string, tldLines: seq<string>, lower: string -> string)
    requires LowerAddsNoNewline(lower)
    ensures var tlds := TldEntries(tldLines, lower);
      forall x :: x in Survivors(raw, host, tlds) ==> WellFormed(x, tlds)
  {
    var tlds := TldEntries(tldLines, lower);
    TldEntriesStripped(tldLines, lower);
    forall x | x in Survivors(raw, host, tlds) ensures WellFormed(x, tlds) {
      IsDomainValidIff(x, tlds);
    }
  }

  /** With every generator switched off only the host remains, and only if it is valid. */
  lemma NothingEnabled(host: string, intensity: int, tlds: seq<string>, confusables: Confusables,
                       files: DataFiles, lower: string -> string, codec: Codec)
    ensures var opts := Options(false, intensity, false, false, false, false);
      && Candidates(host, opts, tlds, confusables, files, lower, codec) == Some({})
      && Survivors({}, host, tlds) == if IsDomainValid(host, tlds) then {host} else {}
  {
  }

  /**
   * A valid host without an ACE label is in any list meeting the membership
   * postcondition of `GenerateTypos`, whatever the switches, when the codec
   * leaves plain ASCII alone.
   */
  lemma HostInResult(raw: set<string>, host: string, tlds: seq<string>, codec: Codec, r: seq<string>)
    requires IsDomainValid(host, tlds) && !Contains(host, "xn--")
    requires DecodesPlainAsciiUnchanged(codec)
    requires forall y :: y in r <==> exists x :: x in Survivors(raw, host, tlds) && codec.toUnicode(x) == Some(y)
    ensures host in r
  {
    HostSurvives(raw, host, tlds);
    HostDecodesToItself(host, tlds, codec);
    assert host in Survivors(raw, host, tlds) && codec.toUnicode(host) == Some(host);
  }

  /**
   * With every generator switched off, a valid host without an ACE label,
   * and a codec that leaves plain ASCII alone, any list meeting the
   * postcondition of `GenerateTypos` is exactly `[host]`.
   */
  lemma NothingEnabledResult(host: string, tlds: seq<string>, codec: Codec, r: seq<string>)
    requires IsDomainValid(host, tlds) && !Contains(host, "xn--")
    requires DecodesPlainAsciiUnchanged(codec)
    requires |r| == |Survivors({}, host, tlds)|
    requires forall y :: y in r <==> exists x :: x in Survivors({}, host, tlds) && codec.toUnicode(x) == Some(y)
    ensures r == [host]
  {
    HostDecodesToItself(host, tlds, codec);
    var none: set<string> := {};
    AllSurvive(none, host, tlds);
    AddedTo(Survivors(none, host, tlds), none, host);
    DecodedSingleton(Survivors(none, host, tlds), host, codec, r);
  }

  /** When every candidate and the host pass the validator, all of them survive. */
  lemma AllSurvive(raw: set<string>, host: string, tlds: seq<string>)
    requires forall x :: x in raw ==> IsDomainValid(x, tlds)
    requires IsDomainValid(host, tlds)
    ensures Survivors(raw, host, tlds) == raw + {host}
  {
    ValidCandidatesSurvive(raw, host, tlds);
    HostSurvives(raw, host, tlds);
    WithOneMore(Survivors(raw, host, tlds), raw, host);
  }

  /** Adding `h` to the empty set gives `{h}`, and adding a member changes nothing. */
  lemma AddedTo(a: set<string>, b: set<string>, h: string)
    requires a == b + {h}
    ensures b == {} ==> a == {h}
    ensures h in b ==> a == b
  {
  }

  /** A set holding `b` and `h` and nothing else is `b + {h}`. */
  lemma WithOneMore(a: set<string>, b: set<string>, h: string)
    requires b <= a && h in a
    requires forall x :: x in a ==> x in b || x == h
    ensures a == b + {h}
  {
  }

  /** The decoded list of one name that decodes to itself is that name alone. */
  lemma DecodedSingleton(names: set<string>, host: string, codec: Codec, r: seq<string>)
    requires names == {host} && codec.toUnicode(host) == Some(host)
    requires |r| == |names|
    requires forall y :: y in r <==> exists x :: x in names && codec.toUnicode(x) == Some(y)
    ensures r == [host]
  {
    assert |r| == 1;
    assert host in r;
    assert r == [r[0]];
  }

  /**
   * "example.com" with the TLD list ["com", "net"] and only the TLD swap
   * switched on: the survivors are exactly "example.com" and "example.net".
   */
  lemma TldSwapScenario(host: string, tlds: seq<string>)
    requires host == "example.com" && tlds == ["com", "net"]
    ensures Survivors(SetOf(TldSwaps(host, tlds)), host, tlds) == {"example.com", "example.net"}
  {
    TldSwapExample();
    SwapsSurvive(host, tlds);
  }

  lemma SwapsSurvive(host: string, tlds: seq<string>)
    requires host == "example.com" && tlds == ["com", "net"]
    ensures Survivors({"example.com", "example.net"}, host, tlds) == {"example.com", "example.net"}
  {
    SwapsValid();
    ValidSetWithHost({"example.com", "example.net"}, host, tlds);
  }

  lemma SwapsValid()
    ensures forall x :: x in {"example.com", "example.net"} ==> IsDomainValid(x, ["com", "net"])
  {
    ExamplesValid();
  }

  /** A set of valid names that already holds the host survives the filter whole. */
  lemma ValidSetWithHost(raw: set<string>, host: string, tlds: seq<string>)
    requires forall x :: x in raw ==> IsDomainValid(x, tlds)
    requires host in raw
    ensures Survivors(raw, host, tlds) == raw
  {
    AllSurvive(raw, host, tlds);
    AddedTo(Survivors(raw, host, tlds), raw, host);
  }

  /** The TLD swaps of "example.com" over ["com", "net"]. */
  lemma TldSwapExample()
    ensures SetOf(TldSwaps("example.com", ["com", "net"])) == {"example.com", "example.net"}
  {
    var host := "example.com";
    LastDotOf(host, 7);
    assert BeforeLastDot(host) == "example";
    var swaps := TldSwaps(host, ["com", "net"]);
    assert swaps[0] == "example" + "." + "com" == "example.com";
    assert swaps[1] == "example" + "." + "net" == "example.net";
    assert swaps == ["example.com", "example.net"];
  }

  /** "example.com" and "example.net" both pass the validator with "com" and "net" listed. */
  lemma ExamplesValid()
    ensures IsDomainValid("example.com", ["com", "net"]) && IsDomainValid("example.net", ["com", "net"])
  {
    assert "example.com" == "example" + "." + "com" && "example.net" == "example" + "." + "net";
    ExampleValid("example.com", "com");
    ExampleValid("example.net", "net");
  }

  lemma ExampleValid(d: string, tld: string)
    requires (tld == "com" || tld == "net") && d == "example" + "." + tld
    ensures IsDomainValid(d, ["com", "net"])
  {
    SimpleDomainValid("example", tld, ["com", "net"]);
  }

  /** With the layout {'a': ['s', 'q']}, the miskeyed candidates of "ab.com" are "sb.com" and "qb.com". */
  lemma MiskeyScenario()
    ensures Substitutions("ab.com", map["a" := ["s", "q"]]) == ["sb.com", "qb.com"]
  {
    MiskeyBlocks("ab.com", map["a" := ["s", "q"]]);
    FlattenFirstOfSix(["sb.com", "qb.com"]);
  }

  lemma MiskeyBlocks(s: string, layout: map<string, seq<string>>)
    requires s == "ab.com" && layout == map["a" := ["s", "q"]]
    ensures SubstitutionBlocks(s, layout) == [["sb.com", "qb.com"], [], [], [], [], []]
  {
    var blocks := SubstitutionBlocks(s, layout);
    MiskeyFirstBlock(s, layout);
    forall i | 1 <= i < |s| ensures blocks[i] == [] {
      MiskeyOtherBlock(s, layout, i);
    }
  }

  lemma MiskeyFirstBlock(s: string, layout: map<string, seq<string>>)
    requires s == "ab.com" && layout == map["a" := ["s", "q"]]
    ensures SubstitutionBlock(s, layout, 0) == ["sb.com", "qb.com"]
  {
    assert [s[0]] == "a";
    assert Substitute(s, 0, "s") == "sb.com" && Substitute(s, 0, "q") == "qb.com";
  }

  lemma MiskeyOtherBlock(s: string, layout: map<string, seq<string>>, i: nat)
    requires s == "ab.com" && layout == map["a" := ["s", "q"]] && 1 <= i < |s|
    ensures SubstitutionBlock(s, layout, i) == []
  {
    assert [s[i]] != "a";
  }

  /** Five empty blocks after a first one flatten to the first. */
  lemma FlattenFirstOfSix<T>(x: seq<T>)
    ensures Flatten([x, [], [], [], [], []]) == x
  {
    assert [x, [], [], [], [], []] == [x, [], []] + [[], [], []];
    FlattenConcat([x, [], []], [[], [], []]);
    FlattenThree(x, [], []);
    FlattenThree<T>([], [], []);
  }

  /** The quick tier for "ab.com": each character left out in turn. */
  lemma MissingExample()
    ensures MissingCharacters("ab.com") == ["b.com", "a.com", "abcom", "ab.om", "ab.cm", "ab.co"]
    ensures SetOf(MissingCharacters("ab.com")) == {"b.com", "a.com", "abcom", "ab.om", "ab.cm", "ab.co"}
  {
    var s := "ab.com";
    assert Delete(s, 0) == "b.com";
    assert Delete(s, 1) == "a.com";
    assert Delete(s, 2) == "abcom";
    assert Delete(s, 3) == "ab.om";
    assert Delete(s, 4) == "ab.cm";
    assert Delete(s, 5) == "ab.co";
    SetOfFive("a.com", "abcom", "ab.om", "ab.cm", "ab.co");
    assert ["b.com", "a.com", "abcom", "ab.om", "ab.cm", "ab.co"] == ["b.com"] + ["a.com", "abcom", "ab.om", "ab.cm", "ab.co"];
    SetOfConcat(["b.com"], ["a.com", "abcom", "ab.om", "ab.cm", "ab.co"]);
    assert SetOf(["b.com"]) == {"b.com"};
  }

  /** The quick tier for "ab.com": each character but the dot doubled in turn. */
  lemma DuplicateExample()
    ensures DuplicateCharacters("ab.com") == ["aab.com", "abb.com", "ab.ccom", "ab.coom", "ab.comm"]
    ensures SetOf(DuplicateCharacters("ab.com")) == {"aab.com", "abb.com", "ab.ccom", "ab.coom", "ab.comm"}
  {
    var front: seq<seq<string>> := [["aab.com"], ["abb.com"], []];
    var back := [["ab.ccom"], ["ab.coom"], ["ab.comm"]];
    DuplicateBlocksExample();
    assert DuplicateBlocks("ab.com") == front + back;
    FlattenConcat(front, back);
    FlattenThree(["aab.com"], ["abb.com"], []);
    FlattenThree(["ab.ccom"], ["ab.coom"], ["ab.comm"]);
    SetOfFive("aab.com", "abb.com", "ab.ccom", "ab.coom", "ab.comm");
  }

  /** The blocks of the duplicate tier for "ab.com", position by position. */
  lemma DuplicateBlocksExample()
    ensures DuplicateBlocks("ab.com") == [["aab.com"], ["abb.com"], [], ["ab.ccom"], ["ab.coom"], ["ab.comm"]]
  {
    var s := "ab.com";
    assert DuplicateAt(s, 0) == "aab.com";
    assert DuplicateAt(s, 1) == "abb.com";
    assert DuplicateAt(s, 3) == "ab.ccom";
    assert DuplicateAt(s, 4) == "ab.coom";
    assert DuplicateAt(s, 5) == "ab.comm";
  }

  lemma SetOfFive<T>(a: T, b: T, c: T, d: T, e: T)
    ensures SetOf([a, b, c, d, e]) == {a, b, c, d, e}
  {
    var xs := [a, b, c, d, e];
    assert xs[0] == a && xs[1] == b && xs[2] == c && xs[3] == d && xs[4] == e;
  }

  /** A name whose text after the last dot holds no dot and is not listed fails the validator. */
  lemma Unlisted(p: string, t: string, tlds: seq<string>)
    requires forall j :: 0 <= j < |t| ==> t[j] != '.'
    requires t !in tlds
    ensures !IsDomainValid(p + "." + t, tlds)
  {
    NoDot(t);
    LabelAfterDot(p, t);
  }

  /** "ab." followed by a dot-free label other than "com" fails the validator with only "com" listed. */
  lemma QuickInvalid(d: string, top: string)
    requires top in ["om", "cm", "co", "ccom", "coom", "comm"] && d == "ab" + "." + top
    ensures !IsDomainValid(d, ["com"])
  {
    Unlisted("ab", top, ["com"]);
  }

  /** The quick candidate of "ab.com" without a dot fails. */
  lemma DotlessInvalid()
    ensures !IsDomainValid("abcom", ["com"])
  {
    var dotless := "abcom";
    assert forall j :: 0 <= j < |dotless| ==> dotless[j] != '.';
    assert TopLevelLabel(dotless) == dotless;
  }

  /** Letters followed by ".com" pass the validator with only "com" listed. */
  lemma ComValid(d: string, name: string)
    requires |name| > 0 && Letters(name) && d == name + "." + "com"
    ensures IsDomainValid(d, ["com"])
  {
    SimpleDomainValid(name, "com", ["com"]);
  }

  /** The eleven quick candidates of "ab.com". */
  lemma QuickCandidates()
    ensures SetOf(MissingCharacters("ab.com")) + SetOf(DuplicateCharacters("ab.com")) ==
      {"b.com", "a.com", "abcom", "ab.om", "ab.cm", "ab.co", "aab.com", "abb.com", "ab.ccom", "ab.coom", "ab.comm"}
  {
    MissingExample();
    DuplicateExample();
  }

  /** Five of the twelve names pass the validator with only "com" listed ... */
  lemma QuickKeptValid()
    ensures forall d :: d in {"a.com", "aab.com", "ab.com", "abb.com", "b.com"} ==> IsDomainValid(d, ["com"])
  {
    assert "a.com" == "a" + "." + "com" && "b.com" == "b" + "." + "com" && "ab.com" == "ab" + "." + "com";
    assert "aab.com" == "aab" + "." + "com" && "abb.com" == "abb" + "." + "com";
    assert Letters("a") && Letters("b") && Letters("ab") && Letters("aab") && Letters("abb");
    ComValid("a.com", "a");
    ComValid("b.com", "b");
    ComValid("ab.com", "ab");
    ComValid("aab.com", "aab");
    ComValid("abb.com", "abb");
  }

  /** ... and the seven others do not. */
  lemma QuickDroppedInvalid()
    ensures forall d :: d in {"abcom", "ab.om", "ab.cm", "ab.co", "ab.ccom", "ab.coom", "ab.comm"} ==> !IsDomainValid(d, ["com"])
  {
    assert "ab.om" == "ab" + "." + "om" && "ab.cm" == "ab" + "." + "cm" && "ab.co" == "ab" + "." + "co";
    assert "ab.ccom" == "ab" + "." + "ccom" && "ab.coom" == "ab" + "." + "coom" && "ab.comm" == "ab" + "." + "comm";
    DotlessInvalid();
    QuickInvalid("ab.om", "om");
    QuickInvalid("ab.cm", "cm");
    QuickInvalid("ab.co", "co");
    QuickInvalid("ab.ccom", "ccom");
    QuickInvalid("ab.coom", "coom");
    QuickInvalid("ab.comm", "comm");
  }

  /**
   * When the candidates and the host split into names the validator
   * accepts and names it rejects, the survivors are exactly the accepted ones.
   */
  lemma SurvivorsSplit(raw: set<string>, host: string, tlds: seq<string>, kept: set<string>, dropped: set<string>)
    requires raw + {host} == kept + dropped
    requires forall d :: d in kept ==> IsDomainValid(d, tlds)
    requires forall d :: d in dropped ==> !IsDomainValid(d, tlds)
    ensures Survivors(raw, host, tlds) == kept
  {
    SurvivorsWithin(raw, host, tlds);
    SurvivorsOfSplit(Survivors(raw, host, tlds), raw + {host}, kept, dropped, tlds);
  }

  lemma SurvivorsOfSplit(a: set<string>, all: set<string>, kept: set<string>, dropped: set<string>, tlds: seq<string>)
    requires all == kept + dropped
    requires forall d :: d in kept ==> IsDomainValid(d, tlds)
    requires forall d :: d in dropped ==> !IsDomainValid(d, tlds)
    requires forall x :: x in a ==> x in all && IsDomainValid(x, tlds)
    requires forall x :: x in all && IsDomainValid(x, tlds) ==> x in a
    ensures a == kept
  {
  }

  /**
   * "ab.com" at intensity 0 with only "com" listed: of the eleven quick
   * candidates and the host, exactly "a.com", "aab.com", "ab.com",
   * "abb.com" and "b.com" pass the validator.
   */
  lemma QuickScenario()
    ensures var raw := SetOf(MissingCharacters("ab.com")) + SetOf(DuplicateCharacters("ab.com"));
      Survivors(raw, "ab.com", ["com"]) == {"a.com", "aab.com", "ab.com", "abb.com", "b.com"}
  {
    QuickCandidates();
    var raw := SetOf(MissingCharacters("ab.com")) + SetOf(DuplicateCharacters("ab.com"));
    var kept: set<string> := {"a.com", "aab.com", "ab.com", "abb.com", "b.com"};
    var dropped: set<string> := {"abcom", "ab.om", "ab.cm", "ab.co", "ab.ccom", "ab.coom", "ab.comm"};
    QuickPartition(raw, kept, dropped);
    QuickSurvivors(raw, kept, dropped);
  }

  /** The twelve names split into the five the validator accepts and the seven it rejects. */
  lemma QuickPartition(raw: set<string>, kept: set<string>, dropped: set<string>)
    requires raw == {"b.com", "a.com", "abcom", "ab.om", "ab.cm", "ab.co", "aab.com", "abb.com", "ab.ccom", "ab.coom", "ab.comm"}
    requires kept == {"a.com", "aab.com", "ab.com", "abb.com", "b.com"}
    requires dropped == {"abcom", "ab.om", "ab.cm", "ab.co", "ab.ccom", "ab.coom", "ab.comm"}
    ensures raw + {"ab.com"} == kept + dropped
  {
  }

  lemma QuickSurvivors(raw: set<string>, kept: set<string>, dropped: set<string>)
    requires raw + {"ab.com"} == kept + dropped
    requires kept == {"a.com", "aab.com", "ab.com", "abb.com", "b.com"}
    requires dropped == {"abcom", "ab.om", "ab.cm", "ab.co", "ab.ccom", "ab.coom", "ab.comm"}
    ensures Survivors(raw, "ab.com", ["com"]) == kept
  {
    QuickKeptNames(kept);
    QuickDroppedNames(dropped);
    SurvivorsSplit(raw, "ab.com", ["com"], kept, dropped);
  }

  lemma QuickKeptNames(kept: set<string>)
    requires kept == {"a.com", "aab.com", "ab.com", "abb.com", "b.com"}
    ensures forall d :: d in kept ==> IsDomainValid(d, ["com"])
  {
    QuickKeptValid();
  }

  lemma QuickDroppedNames(dropped: set<string>)
    requires dropped == {"abcom", "ab.om", "ab.cm", "ab.co", "ab.ccom", "ab.coom", "ab.comm"}
    ensures forall d :: d in dropped ==> !IsDomainValid(d, ["com"])
  {
    QuickDroppedInvalid();
    forall d | d in dropped ensures !IsDomainValid(d, ["com"]) {
      assert d in {"abcom", "ab.om", "ab.cm", "ab.co", "ab.ccom", "ab.coom", "ab.comm"};
    }
  }
}
