/**
 * The loaders that turn the data files into the engine's tables: the TLD
 * list, a keyboard layout, the additional homoglyph table and the
 * confusable table.  Each takes the lines its file yields, newline kept.
 */
module Tables {
  import opened Wrappers
  import opened Text
  import opened Idna
  import Validator
  import opened Keyboard
  import opened Homoglyphs

  // ---------------------------------------------------------------- TLDs

  /** A line of the TLD list that is a comment once leading space is dropped. */
  predicate IsTldComment(line: string) {
    StartsWith(LStrip(line), "#")
  }

  /** The TLD list: each non-comment line without trailing space, lower-cased, in file order. */
  function TldEntries(lines: seq<string>, lower: string -> string): seq<string> {
    if |lines| == 0 then []
    else
      var init := TldEntries(lines[..|lines| - 1], lower);
      var line := lines[|lines| - 1];
      if IsTldComment(line) then init else init + [lower(RStrip(line))]
  }

  /** The TLD-loading loop of `__init__`. */
  method LoadTlds(lines: seq<string>, lower: string -> string) returns (tlds: seq<string>)
    ensures tlds == TldEntries(lines, lower)
  {
    tlds := [];
    for i := 0 to |lines|
      invariant tlds == TldEntries(lines[..i], lower)
    {
      assert lines[..i + 1][..i] == lines[..i];
      if !StartsWith(LStrip(lines[i]), "#") {
        tlds := tlds + [lower(RStrip(lines[i]))];
      }
    }
    assert lines[..|lines|] == lines;
  }

  /** A line that is no comment and yields `t` once stripped and lower-cased. */
  predicate YieldsTld(line: string, lower: string -> string, t: string) {
    !IsTldComment(line) && t == lower(RStrip(line))
  }

  /** A TLD is listed exactly when some non-comment line yields it. */
  lemma {:induction false} TldEntriesMember(lines: seq<string>, lower: string -> string, t: string)
    ensures t in TldEntries(lines, lower) <==> exists i :: 0 <= i < |lines| && YieldsTld(lines[i], lower, t)
  {
    if |lines| > 0 {
      var init := lines[..|lines| - 1];
      var last := lines[|lines| - 1];
      TldEntriesMember(init, lower, t);
      if t in TldEntries(init, lower) {
        var i :| 0 <= i < |init| && YieldsTld(init[i], lower, t);
        assert lines[i] == init[i];
      }
      if YieldsTld(last, lower, t) {
        assert YieldsTld(lines[|lines| - 1], lower, t);
      }
      if exists i :: 0 <= i < |lines| && YieldsTld(lines[i], lower, t) {
        var i :| 0 <= i < |lines| && YieldsTld(lines[i], lower, t);
        if i < |init| {
          assert init[i] == lines[i];
        }
      }
    }
  }

  /** Lower-casing never produces a trailing newline the text did not have. */
  ghost predicate LowerAddsNoNewline(lower: string -> string) {
    forall s :: s == [] || s[|s| - 1] != '\n' ==> lower(s) == [] || lower(s)[|lower(s)| - 1] != '\n'
  }

  /** The loaded TLDs hold no trailing newline, so the validator compares them with bare labels. */
  lemma {:induction false} TldEntriesStripped(lines: seq<string>, lower: string -> string)
    requires LowerAddsNoNewline(lower)
    ensures Validator.NoNewlineTerminatedTld(TldEntries(lines, lower))
  {
    if |lines| > 0 {
      var init := lines[..|lines| - 1];
      TldEntriesStripped(init, lower);
      var line := lines[|lines| - 1];
      if !IsTldComment(line) {
        var t := RStrip(line);
        RStripMeaning(line);
        assert t == [] || t[|t| - 1] != '\n';
        var r := TldEntries(lines, lower);
        assert r == TldEntries(init, lower) + [lower(t)];
        assert forall i :: 0 <= i < |r| - 1 ==> r[i] == TldEntries(init, lower)[i];
      }
    }
  }

  // ------------------------------------------------------------ keyboard

  /** The comma-separated fields of a layout line. */
  function LayoutFields(line: string): seq<string> {
    Split(RStrip(line), ',')
  }

  /**
   * `loadkeyb`: the first field of each line is a key, the second one key
   * next to it, appended to that key's list.  A line without a second
   * field raises IndexError, here `None`.
   */
  function KeyboardLayout(lines: seq<string>): Option<Layout> {
    if |lines| == 0 then Some(map[])
    else
      match KeyboardLayout(lines[..|lines| - 1])
      case None => None
      case Some(layout) =>
        var fields := LayoutFields(lines[|lines| - 1]);
        if |fields| < 2 then None
        else if fields[0] in layout then Some(layout[fields[0] := layout[fields[0]] + [fields[1]]])
        else Some(layout[fields[0] := [fields[1]]])
  }

  method LoadKeyboard(lines: seq<string>) returns (layout: Option<Layout>)
    ensures layout == KeyboardLayout(lines)
  {
    var keys: Layout := map[];
    for i := 0 to |lines|
      invariant KeyboardLayout(lines[..i]) == Some(keys)
    {
      assert lines[..i + 1][..i] == lines[..i];
      var fields := Split(RStrip(lines[i]), ',');
      if |fields| < 2 {
        KeyboardFails(lines, i);
        return None;
      }
      if fields[0] in keys {
        keys := keys[fields[0] := keys[fields[0]] + [fields[1]]];
      } else {
        keys := keys[fields[0] := [fields[1]]];
      }
    }
    assert lines[..|lines|] == lines;
    layout := Some(keys);
  }

  /** One line without a second field fails the whole layout. */
  lemma {:induction false} KeyboardFails(lines: seq<string>, i: nat)
    requires i < |lines| && |LayoutFields(lines[i])| < 2
    ensures KeyboardLayout(lines).None?
  {
    if i < |lines| - 1 {
      assert lines[..|lines| - 1][i] == lines[i];
      KeyboardFails(lines[..|lines| - 1], i);
    }
  }

  /** The keys listed next to `key`, in file order. */
  function AdjacentKeys(lines: seq<string>, key: string): seq<string> {
    if |lines| == 0 then []
    else
      var fields := LayoutFields(lines[|lines| - 1]);
      AdjacentKeys(lines[..|lines| - 1], key) + (if |fields| >= 2 && fields[0] == key then [fields[1]] else [])
  }

  /** A key no line names has no adjacent keys. */
  lemma {:induction false} AdjacentKeysEmpty(lines: seq<string>, key: string)
    requires !NamesKey(lines, key)
    ensures AdjacentKeys(lines, key) == []
  {
    if |lines| > 0 {
      AdjacentKeysEmpty(lines[..|lines| - 1], key);
    }
  }

  /** Some line of the file names `key` as its first field. */
  predicate NamesKey(lines: seq<string>, key: string) {
    exists i :: 0 <= i < |lines| && |LayoutFields(lines[i])| >= 2 && LayoutFields(lines[i])[0] == key
  }

  /** The layout loads exactly when every line has a second field. */
  lemma {:induction false} KeyboardLoads(lines: seq<string>)
    ensures KeyboardLayout(lines).Some? <==> forall i :: 0 <= i < |lines| ==> |LayoutFields(lines[i])| >= 2
  {
    if |lines| > 0 {
      var init := lines[..|lines| - 1];
      KeyboardLoads(init);
      assert forall i :: 0 <= i < |init| ==> init[i] == lines[i];
    }
  }

  /**
   * The keys of a loaded layout are the first fields, and each key's list
   * holds the second fields of that key's lines in file order, never empty.
   */
  lemma {:induction false} KeyboardKeys(lines: seq<string>, key: string)
    requires KeyboardLayout(lines).Some?
    ensures key in KeyboardLayout(lines).value <==> NamesKey(lines, key)
    ensures key in KeyboardLayout(lines).value ==> KeyboardLayout(lines).value[key] == AdjacentKeys(lines, key) != []
  {
    if |lines| > 0 {
      var init := lines[..|lines| - 1];
      KeyboardKeys(init, key);
      var previous := KeyboardLayout(init).value;
      var fields := LayoutFields(lines[|lines| - 1]);
      if NamesKey(lines, key) && fields[0] != key {
        var i :| 0 <= i < |lines| && |LayoutFields(lines[i])| >= 2 && LayoutFields(lines[i])[0] == key;
        assert init[i] == lines[i];
      }
      if fields[0] == key {
        assert AdjacentKeys(lines, key) == AdjacentKeys(init, key) + [fields[1]];
        if key !in previous {
          AdjacentKeysEmpty(init, key);
        }
      }
    }
  }

  // -------------------------------------------------- additional homoglyphs

  /** The comma-separated fields of a homoglyph line: a key, then its glyphs separated by spaces. */
  function GlyphFields(line: string): seq<string> {
    Split(RStrip(line), ',')
  }

  /** The glyphs that are not the key once lower-cased. */
  function CaseFiltered(glyphs: seq<string>, key: string, lower: string -> string): seq<string> {
    if |glyphs| == 0 then []
    else
      var init := CaseFiltered(glyphs[..|glyphs| - 1], key, lower);
      var glyph := glyphs[|glyphs| - 1];
      if lower(glyph) != key then init + [glyph] else init
  }

  /** The glyphs that survive the IDNA round trip, in order. */
  function RoundTripFiltered(glyphs: seq<string>, codec: Codec): seq<string> {
    if |glyphs| == 0 then []
    else
      var init := RoundTripFiltered(glyphs[..|glyphs| - 1], codec);
      var glyph := glyphs[|glyphs| - 1];
      if RoundTrips(codec, glyph) then init + [glyph] else init
  }

  /** The glyphs a line keeps for its key. */
  function KeptGlyphs(fields: seq<string>, lower: string -> string, codec: Codec): seq<string>
    requires |fields| >= 2
  {
    RoundTripFiltered(CaseFiltered(Split(fields[1], ' '), fields[0], lower), codec)
  }

  /**
   * `loadadditionalhomoglyphs`: for each non-comment line, its key mapped
   * to the glyphs it keeps; a later line for the same key replaces an
   * earlier one.  A line without a second field raises IndexError, here
   * `None`.
   */
  function HomoglyphTable(lines: seq<string>, lower: string -> string, codec: Codec): Option<map<string, seq<string>>> {
    if |lines| == 0 then Some(map[])
    else
      match HomoglyphTable(lines[..|lines| - 1], lower, codec)
      case None => None
      case Some(table) =>
        var line := lines[|lines| - 1];
        if StartsWith(line, "#") then Some(table)
        else
          var fields := GlyphFields(line);
          if |fields| < 2 then None else Some(table[fields[0] := KeptGlyphs(fields, lower, codec)])
  }

  method LoadAdditionalHomoglyphs(lines: seq<string>, lower: string -> string, codec: Codec)
    returns (homoglyphs: Option<map<string, seq<string>>>)
    ensures homoglyphs == HomoglyphTable(lines, lower, codec)
  {
    var table: map<string, seq<string>> := map[];
    for i := 0 to |lines|
      invariant HomoglyphTable(lines[..i], lower, codec) == Some(table)
    {
      assert lines[..i + 1][..i] == lines[..i];
      var line := lines[i];
      if !StartsWith(line, "#") {
        var fields := Split(RStrip(line), ',');
        if |fields| < 2 {
          HomoglyphTableFails(lines, lower, codec, i);
          return None;
        }
        var key := fields[0];
        var candidates := CaseFiltered(Split(fields[1], ' '), key, lower);
        var values := [];
        for j := 0 to |candidates|
          invariant values == RoundTripFiltered(candidates[..j], codec)
        {
          assert candidates[..j + 1][..j] == candidates[..j];
          var wrapped := "a" + candidates[j] + "b";
          var encoded := codec.toAscii(wrapped);
          if encoded.Some? && codec.toUnicode(encoded.value) == Some(wrapped) {
            values := values + [candidates[j]];
          }
        }
        assert candidates[..|candidates|] == candidates;
        table := table[key := values];
      }
    }
    assert lines[..|lines|] == lines;
    homoglyphs := Some(table);
  }

  /** A non-comment line without a second field. */
  predicate BadGlyphLine(line: string) {
    !StartsWith(line, "#") && |GlyphFields(line)| < 2
  }

  lemma {:induction false} HomoglyphTableFails(lines: seq<string>, lower: string -> string, codec: Codec, i: nat)
    requires i < |lines| && BadGlyphLine(lines[i])
    ensures HomoglyphTable(lines, lower, codec).None?
  {
    if i < |lines| - 1 {
      assert lines[..|lines| - 1][i] == lines[i];
      HomoglyphTableFails(lines[..|lines| - 1], lower, codec, i);
    }
  }

  /** The table loads exactly when every non-comment line has a second field. */
  lemma {:induction false} HomoglyphTableLoads(lines: seq<string>, lower: string -> string, codec: Codec)
    ensures HomoglyphTable(lines, lower, codec).Some? <==> forall i :: 0 <= i < |lines| ==> !BadGlyphLine(lines[i])
  {
    if |lines| > 0 {
      var init := lines[..|lines| - 1];
      HomoglyphTableLoads(init, lower, codec);
      assert forall i :: 0 <= i < |init| ==> init[i] == lines[i];
    }
  }

  /** A glyph is kept exactly when it is a glyph of the line, differs from the key and survives the round trip. */
  lemma {:induction false} KeptGlyphsMember(glyphs: seq<string>, key: string, lower: string -> string, codec: Codec, g: string)
    ensures g in RoundTripFiltered(CaseFiltered(glyphs, key, lower), codec) <==>
      g in glyphs && lower(g) != key && RoundTrips(codec, g)
  {
    CaseFilteredMember(glyphs, key, lower, g);
    RoundTripFilteredMember(CaseFiltered(glyphs, key, lower), codec, g);
  }

  lemma {:induction false} CaseFilteredMember(glyphs: seq<string>, key: string, lower: string -> string, g: string)
    ensures g in CaseFiltered(glyphs, key, lower) <==> g in glyphs && lower(g) != key
  {
    if |glyphs| > 0 {
      var init := glyphs[..|glyphs| - 1];
      CaseFilteredMember(init, key, lower, g);
      assert glyphs == init + [glyphs[|glyphs| - 1]];
    }
  }

  lemma {:induction false} RoundTripFilteredMember(glyphs: seq<string>, codec: Codec, g: string)
    ensures g in RoundTripFiltered(glyphs, codec) <==> g in glyphs && RoundTrips(codec, g)
  {
    if |glyphs| > 0 {
      var init := glyphs[..|glyphs| - 1];
      RoundTripFilteredMember(init, codec, g);
      assert glyphs == init + [glyphs[|glyphs| - 1]];
    }
  }

  /**
   * Every glyph of a loaded table differs from its key once lower-cased
   * and survives the round trip.
   */
  lemma {:induction false} HomoglyphTableFiltered(lines: seq<string>, lower: string -> string, codec: Codec, key: string, g: string)
    requires HomoglyphTable(lines, lower, codec).Some?
    requires key in HomoglyphTable(lines, lower, codec).value && g in HomoglyphTable(lines, lower, codec).value[key]
    ensures lower(g) != key && RoundTrips(codec, g)
  {
    var init := lines[..|lines| - 1];
    var line := lines[|lines| - 1];
    var previous := HomoglyphTable(init, lower, codec).value;
    if StartsWith(line, "#") {
      HomoglyphTableFiltered(init, lower, codec, key, g);
    } else {
      var fields := GlyphFields(line);
      if fields[0] == key {
        KeptGlyphsMember(Split(fields[1], ' '), key, lower, codec, g);
      } else {
        HomoglyphTableFiltered(init, lower, codec, key, g);
      }
    }
  }

  /** A non-comment line that names `key` and has a second field. */
  predicate GlyphLineFor(line: string, key: string) {
    !StartsWith(line, "#") && |GlyphFields(line)| >= 2 && GlyphFields(line)[0] == key
  }

  /** Line j is the last line of the file that names `key`. */
  predicate LastGlyphLine(lines: seq<string>, key: string, j: int) {
    0 <= j < |lines| && GlyphLineFor(lines[j], key) &&
    forall k :: j < k < |lines| ==> !GlyphLineFor(lines[k], key)
  }

  /** Some line of the file names `key`. */
  predicate NamesGlyphKey(lines: seq<string>, key: string) {
    exists i :: 0 <= i < |lines| && GlyphLineFor(lines[i], key)
  }

  /** The keys of a loaded table are exactly the keys its non-comment lines name. */
  lemma {:induction false} HomoglyphTableKeys(lines: seq<string>, lower: string -> string, codec: Codec, key: string)
    requires HomoglyphTable(lines, lower, codec).Some?
    ensures key in HomoglyphTable(lines, lower, codec).value <==> NamesGlyphKey(lines, key)
  {
    if |lines| > 0 {
      HomoglyphTableKeysStep(lines, lower, codec, key);
      HomoglyphTableKeys(lines[..|lines| - 1], lower, codec, key);
      NamesGlyphKeyStep(lines, key);
    }
  }

  /** One line adds its key, if it names one, to the keys loaded before it. */
  lemma HomoglyphTableKeysStep(lines: seq<string>, lower: string -> string, codec: Codec, key: string)
    requires |lines| > 0 && HomoglyphTable(lines, lower, codec).Some?
    ensures HomoglyphTable(lines[..|lines| - 1], lower, codec).Some?
    ensures key in HomoglyphTable(lines, lower, codec).value <==>
      key in HomoglyphTable(lines[..|lines| - 1], lower, codec).value || GlyphLineFor(lines[|lines| - 1], key)
  {
  }

  lemma NamesGlyphKeyStep(lines: seq<string>, key: string)
    requires |lines| > 0
    ensures NamesGlyphKey(lines, key) <==> NamesGlyphKey(lines[..|lines| - 1], key) || GlyphLineFor(lines[|lines| - 1], key)
  {
    var init := lines[..|lines| - 1];
    if NamesGlyphKey(init, key) {
      var i :| 0 <= i < |init| && GlyphLineFor(init[i], key);
      assert lines[i] == init[i];
    }
    if NamesGlyphKey(lines, key) && !GlyphLineFor(lines[|lines| - 1], key) {
      var i :| 0 <= i < |lines| && GlyphLineFor(lines[i], key);
      assert init[i] == lines[i];
    }
  }

  /** A key maps to the glyphs kept from the last line that names it; earlier lines for it are replaced. */
  lemma {:induction false} HomoglyphTableLastLine(lines: seq<string>, lower: string -> string, codec: Codec, key: string, j: int)
    requires HomoglyphTable(lines, lower, codec).Some?
    requires LastGlyphLine(lines, key, j)
    ensures key in HomoglyphTable(lines, lower, codec).value
    ensures HomoglyphTable(lines, lower, codec).value[key] == KeptGlyphs(GlyphFields(lines[j]), lower, codec)
  {
    var init := lines[..|lines| - 1];
    if j < |lines| - 1 {
      assert !GlyphLineFor(lines[|lines| - 1], key);
      forall k | j < k < |init| ensures !GlyphLineFor(init[k], key) {
        assert init[k] == lines[k];
      }
      assert init[j] == lines[j];
      HomoglyphTableLastLine(init, lower, codec, key, j);
    }
  }

  /**
   * A glyph is in a loaded table under `key` exactly when it is a glyph
   * of the last line naming `key`, differs from the key once lower-cased
   * and survives the round trip.
   */
  lemma HomoglyphTableMeaning(lines: seq<string>, lower: string -> string, codec: Codec, key: string, j: int, g: string)
    requires HomoglyphTable(lines, lower, codec).Some?
    requires LastGlyphLine(lines, key, j)
    ensures key in HomoglyphTable(lines, lower, codec).value
    ensures g in HomoglyphTable(lines, lower, codec).value[key] <==>
      g in Split(GlyphFields(lines[j])[1], ' ') && lower(g) != key && RoundTrips(codec, g)
  {
    HomoglyphTableLastLine(lines, lower, codec, key, j);
    KeptGlyphsMember(Split(GlyphFields(lines[j])[1], ' '), key, lower, codec, g);
  }

  // ----------------------------------------------------------- confusables

  /**
   * One parsed line of the confusables file: the code point on its left
   * and the code-point sequence on its right.
   */
  datatype ConfusablePair = ConfusablePair(source: char, target: string)

  /** The table built so far and the sequences already seen to fail the round trip. */
  datatype Loading = Loading(table: Confusables, rejected: set<string>)

  /** `table[a].add(b)`, creating the entry first when needed. */
  function Link(table: Confusables, a: string, b: string): Confusables {
    table[a := (if a in table then table[a] else {}) + {b}]
  }

  /** The loop body of `loadconfusables` for one pair. */
  function AddPair(state: Loading, pair: ConfusablePair, codec: Codec): Loading {
    var part0 := [pair.source];
    var part1 := pair.target;
    if part0 in state.rejected || part1 in state.rejected then state
    else if part0 in state.table && part1 in state.table[part0] then state
    else if !RoundTrips(codec, part0) then state.(rejected := state.rejected + {part0})
    else if !RoundTrips(codec, part1) then state.(rejected := state.rejected + {part1})
    else state.(table := Link(Link(state.table, part0, part1), part1, part0))
  }

  /** `loadconfusables` over the parsed pairs, in file order. */
  function BuildConfusables(pairs: seq<ConfusablePair>, codec: Codec): Loading {
    if |pairs| == 0 then Loading(map[], {})
    else AddPair(BuildConfusables(pairs[..|pairs| - 1], codec), pairs[|pairs| - 1], codec)
  }

  method LoadConfusables(pairs: seq<ConfusablePair>, codec: Codec) returns (confusables: Confusables)
    ensures confusables == BuildConfusables(pairs, codec).table
  {
    confusables := map[];
    var rejected: set<string> := {};
    for i := 0 to |pairs|
      invariant Loading(confusables, rejected) == BuildConfusables(pairs[..i], codec)
    {
      assert pairs[..i + 1][..i] == pairs[..i];
      var part0 := [pairs[i].source];
      if part0 in rejected {
        continue;
      }
      var part1 := pairs[i].target;
      if part1 in rejected {
        continue;
      }
      if part0 in confusables && part1 in confusables[part0] {
        continue;
      }
      if !RoundTrips(codec, part0) {
        rejected := rejected + {part0};
        continue;
      }
      if !RoundTrips(codec, part1) {
        rejected := rejected + {part1};
        continue;
      }
      if part0 !in confusables {
        confusables := confusables[part0 := {}];
      }
      confusables := confusables[part0 := confusables[part0] + {part1}];
      if part1 !in confusables {
        confusables := confusables[part1 := {}];
      }
      confusables := confusables[part1 := confusables[part1] + {part0}];
    }
    assert pairs[..|pairs|] == pairs;
  }

  /** `y` is listed as confusable with `x`. */
  predicate InTable(table: Confusables, x: string, y: string) {
    x in table && y in table[x]
  }

  /** Pair `i` survives the round-trip filter on both sides. */
  predicate Accepted(pairs: seq<ConfusablePair>, codec: Codec, i: int) {
    0 <= i < |pairs| && RoundTrips(codec, [pairs[i].source]) && RoundTrips(codec, pairs[i].target)
  }

  /** Pair `i` pairs `x` with `y`, read in either direction. */
  predicate Pairs(pairs: seq<ConfusablePair>, i: int, x: string, y: string) {
    && 0 <= i < |pairs|
    && ((x == [pairs[i].source] && y == pairs[i].target) || (y == [pairs[i].source] && x == pairs[i].target))
  }

  /** Some accepted pair pairs `x` with `y`. */
  ghost predicate Listed(pairs: seq<ConfusablePair>, codec: Codec, x: string, y: string) {
    exists i :: Accepted(pairs, codec, i) && Pairs(pairs, i, x, y)
  }

  /** The pairs listing `x` with `y` are those before the last one and possibly the last one. */
  lemma ListedSnoc(pairs: seq<ConfusablePair>, codec: Codec, x: string, y: string)
    requires |pairs| > 0
    ensures var n := |pairs| - 1;
      Listed(pairs, codec, x, y) <==> Listed(pairs[..n], codec, x, y) || (Accepted(pairs, codec, n) && Pairs(pairs, n, x, y))
  {
    var n := |pairs| - 1;
    var init := pairs[..n];
    if Listed(init, codec, x, y) {
      var i :| Accepted(init, codec, i) && Pairs(init, i, x, y);
      assert init[i] == pairs[i];
      assert Accepted(pairs, codec, i) && Pairs(pairs, i, x, y);
    }
    if Listed(pairs, codec, x, y) && !(Accepted(pairs, codec, n) && Pairs(pairs, n, x, y)) {
      var i :| Accepted(pairs, codec, i) && Pairs(pairs, i, x, y);
      assert init[i] == pairs[i];
      assert Accepted(init, codec, i) && Pairs(init, i, x, y);
    }
  }

  /** Pairs are read in either direction. */
  lemma ListedSymmetric(pairs: seq<ConfusablePair>, codec: Codec, x: string, y: string)
    requires Listed(pairs, codec, x, y)
    ensures Listed(pairs, codec, y, x)
  {
    var i :| Accepted(pairs, codec, i) && Pairs(pairs, i, x, y);
    assert Pairs(pairs, i, y, x);
  }

  /** The state after some pairs: exactly the accepted pairs, both ways, and only failed sequences rejected. */
  ghost predicate Loaded(state: Loading, pairs: seq<ConfusablePair>, codec: Codec) {
    && (forall x, y :: InTable(state.table, x, y) <==> Listed(pairs, codec, x, y))
    && (forall x :: x in state.table ==> state.table[x] != {})
    && (forall r :: r in state.rejected ==> !RoundTrips(codec, r))
  }

  /** After `Link(table, a, b)`, `b` is one more entry of `a` and nothing else changes. */
  lemma LinkMember(table: Confusables, a: string, b: string, x: string, y: string)
    ensures InTable(Link(table, a, b), x, y) <==> InTable(table, x, y) || (x == a && y == b)
    ensures x in Link(table, a, b) <==> x in table || x == a
    ensures x in Link(table, a, b) && x in table && table[x] != {} ==> Link(table, a, b)[x] != {}
  {
  }

  /** The state of the loop that has accepted one more pair. */
  lemma AcceptPair(state: Loading, pairs: seq<ConfusablePair>, codec: Codec)
    requires |pairs| > 0 && Loaded(state, pairs[..|pairs| - 1], codec)
    requires Accepted(pairs, codec, |pairs| - 1)
    ensures var table := Link(Link(state.table, [pairs[|pairs| - 1].source], pairs[|pairs| - 1].target), pairs[|pairs| - 1].target, [pairs[|pairs| - 1].source]);
      Loaded(Loading(table, state.rejected), pairs, codec)
  {
    var n := |pairs| - 1;
    var part0 := [pairs[n].source];
    var part1 := pairs[n].target;
    var t1 := Link(state.table, part0, part1);
    var table := Link(t1, part1, part0);
    forall x, y
      ensures InTable(table, x, y) <==> Listed(pairs, codec, x, y)
    {
      LinkMember(state.table, part0, part1, x, y);
      LinkMember(t1, part1, part0, x, y);
      ListedSnoc(pairs, codec, x, y);
      assert InTable(state.table, x, y) <==> Listed(pairs[..n], codec, x, y);
    }
    forall x | x in table ensures table[x] != {} {
      LinkMember(state.table, part0, part1, x, x);
      LinkMember(t1, part1, part0, x, x);
    }
  }

  /** The state of the loop that has skipped one more pair without linking it. */
  lemma SkipPair(state: Loading, rejected: set<string>, pairs: seq<ConfusablePair>, codec: Codec)
    requires |pairs| > 0 && Loaded(state, pairs[..|pairs| - 1], codec)
    requires forall r :: r in rejected ==> !RoundTrips(codec, r)
    requires var n := |pairs| - 1;
      !Accepted(pairs, codec, n) || ([pairs[n].source] in state.table && pairs[n].target in state.table[[pairs[n].source]])
    ensures Loaded(Loading(state.table, rejected), pairs, codec)
  {
    var n := |pairs| - 1;
    var init := pairs[..n];
    var part0 := [pairs[n].source];
    var part1 := pairs[n].target;
    forall x, y
      ensures InTable(state.table, x, y) <==> Listed(pairs, codec, x, y)
    {
      ListedSnoc(pairs, codec, x, y);
      assert InTable(state.table, x, y) <==> Listed(init, codec, x, y);
      if Accepted(pairs, codec, n) && Pairs(pairs, n, x, y) {
        assert InTable(state.table, part0, part1);
        assert Listed(init, codec, part0, part1);
        ListedSymmetric(init, codec, part0, part1);
      }
    }
  }

  lemma AddPairLoaded(state: Loading, pairs: seq<ConfusablePair>, codec: Codec)
    requires |pairs| > 0 && Loaded(state, pairs[..|pairs| - 1], codec)
    ensures Loaded(AddPair(state, pairs[|pairs| - 1], codec), pairs, codec)
  {
    var n := |pairs| - 1;
    var part0 := [pairs[n].source];
    var part1 := pairs[n].target;
    if part0 in state.rejected || part1 in state.rejected {
      SkipPair(state, state.rejected, pairs, codec);
    } else if part0 in state.table && part1 in state.table[part0] {
      SkipPair(state, state.rejected, pairs, codec);
    } else if !RoundTrips(codec, part0) {
      SkipPair(state, state.rejected + {part0}, pairs, codec);
    } else if !RoundTrips(codec, part1) {
      SkipPair(state, state.rejected + {part1}, pairs, codec);
    } else {
      AcceptPair(state, pairs, codec);
    }
  }

  lemma {:induction false} BuildConfusablesLoaded(pairs: seq<ConfusablePair>, codec: Codec)
    ensures Loaded(BuildConfusables(pairs, codec), pairs, codec)
  {
    if |pairs| > 0 {
      BuildConfusablesLoaded(pairs[..|pairs| - 1], codec);
      AddPairLoaded(BuildConfusables(pairs[..|pairs| - 1], codec), pairs, codec);
    }
  }

  /**
   * The confusable table pairs exactly the accepted pairs, in both
   * directions, so it is symmetric; every key and entry survives the round
   * trip; a rejected sequence fails it and is never a key; with non-empty
   * right-hand sides no key is empty.
   */
  lemma ConfusablesMeaning(pairs: seq<ConfusablePair>, codec: Codec, x: string, y: string)
    ensures var st := BuildConfusables(pairs, codec);
      && (InTable(st.table, x, y) <==> exists i :: Accepted(pairs, codec, i) && Pairs(pairs, i, x, y))
      && (InTable(st.table, x, y) ==> InTable(st.table, y, x) && RoundTrips(codec, x) && RoundTrips(codec, y))
      && (x in st.rejected ==> !RoundTrips(codec, x) && x !in st.table)
      && ((forall i :: 0 <= i < |pairs| ==> |pairs[i].target| > 0) && x in st.table ==> |x| > 0)
  {
    var st := BuildConfusables(pairs, codec);
    BuildConfusablesLoaded(pairs, codec);
    if InTable(st.table, x, y) {
      var i :| Accepted(pairs, codec, i) && Pairs(pairs, i, x, y);
      assert Pairs(pairs, i, y, x);
    }
    if x in st.table {
      var z :| z in st.table[x];
      assert InTable(st.table, x, z);
      var i :| Accepted(pairs, codec, i) && Pairs(pairs, i, x, z);
    }
  }
}
