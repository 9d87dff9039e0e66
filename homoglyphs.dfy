/**
 * The two homoglyph generators: the confusable table replaces whole
 * subsequences, the additional table single characters.  Every candidate
 * is put through the IDNA encoder, and an encoding error ends the run.
 */
module Homoglyphs {
  import opened Wrappers
  import opened Text
  import opened Lists
  import opened Edits
  import opened Idna

  /** A confusable table: each sequence with the sequences it can be mistaken for. */
  type Confusables = map<string, set<string>>

  predicate NonEmptyKeys(table: Confusables) {
    forall key :: key in table ==> |key| > 0
  }

  /**
   * The positions the scan `find(sub, idx)`, `idx += len(sub)` visits from
   * `from` on: occurrences of `sub`, left to right, none overlapping the
   * previous one.
   */
  function Occurrences(s: string, sub: string, from: nat): seq<nat>
    requires |sub| > 0
    decreases |s| - from
  {
    var idx := Find(s, sub, from);
    if idx < 0 then [] else [idx] + Occurrences(s, sub, idx + |sub|)
  }

  /** `r` lists occurrences at or after `from`, each starting after the previous one ends. */
  predicate ScanList(s: string, sub: string, from: nat, r: seq<nat>) {
    && (forall k :: 0 <= k < |r| ==> from <= r[k] && OccursAt(s, sub, r[k]))
    && (forall k :: 0 <= k < |r| - 1 ==> r[k] + |sub| <= r[k + 1])
  }

  /** The scan lists occurrences, left to right, none overlapping the previous one. */
  lemma {:induction false} OccurrencesSound(s: string, sub: string, from: nat)
    requires |sub| > 0
    ensures ScanList(s, sub, from, Occurrences(s, sub, from))
    decreases |s| - from
  {
    var idx := Find(s, sub, from);
    if idx >= 0 {
      var next := idx + |sub|;
      OccurrencesSound(s, sub, next);
      var rest := Occurrences(s, sub, next);
      var r := Occurrences(s, sub, from);
      assert r == [idx] + rest;
      forall k | 0 <= k < |r| ensures from <= r[k] && OccursAt(s, sub, r[k]) {
        if k > 0 {
          assert r[k] == rest[k - 1];
          assert next <= rest[k - 1];
        }
      }
      forall k | 0 <= k < |r| - 1 ensures r[k] + |sub| <= r[k + 1] {
        if k > 0 { assert r[k] == rest[k - 1]; }
        assert r[k + 1] == rest[k];
        assert next <= rest[k];
      }
    }
  }

  /**
   * The scan misses no occurrence: every occurrence at or after `from` is
   * listed or overlaps a listed one that starts before it.
   */
  lemma {:induction false} OccurrencesCover(s: string, sub: string, from: nat, j: nat)
    requires |sub| > 0 && from <= j && OccursAt(s, sub, j)
    ensures exists k :: 0 <= k < |Occurrences(s, sub, from)| && Occurrences(s, sub, from)[k] <= j < Occurrences(s, sub, from)[k] + |sub|
    decreases |s| - from
  {
    var idx := Find(s, sub, from);
    var r := Occurrences(s, sub, from);
    assert idx >= 0 && idx <= j;
    if j >= idx + |sub| {
      OccurrencesCover(s, sub, idx + |sub|, j);
      var rest := Occurrences(s, sub, idx + |sub|);
      var k :| 0 <= k < |rest| && rest[k] <= j < rest[k] + |sub|;
      assert r[k + 1] == rest[k];
    } else {
      assert r[0] == idx;
    }
  }

  /** The scan has visited the occurrences `visited` and resumes at `idx`. */
  predicate Scanned(host: string, key: string, visited: seq<nat>, idx: nat)
    requires |key| > 0
  {
    Occurrences(host, key, 0) == visited + Occurrences(host, key, idx)
  }

  lemma ScanStart(host: string, key: string)
    requires |key| > 0
    ensures Scanned(host, key, [], 0)
  {
    assert [] + Occurrences(host, key, 0) == Occurrences(host, key, 0);
  }

  /** A successful `find` visits one more occurrence and resumes after it. */
  lemma ScanStep(host: string, key: string, visited: seq<nat>, idx: nat, found: int)
    requires |key| > 0 && Scanned(host, key, visited, idx)
    requires found == Find(host, key, idx) && found > -1
    ensures found + |key| <= |host|
    ensures Scanned(host, key, visited + [found], found + |key|)
    ensures Occurrences(host, key, 0)[|visited|] == found
  {
    var rest := Occurrences(host, key, found + |key|);
    assert Occurrences(host, key, idx) == [found] + rest;
    assert visited + ([found] + rest) == visited + [found] + rest;
  }

  /** A failed `find` ends the scan with every occurrence visited. */
  lemma ScanEnd(host: string, key: string, visited: seq<nat>, idx: nat)
    requires |key| > 0 && Scanned(host, key, visited, idx)
    requires Find(host, key, idx) <= -1
    ensures Occurrences(host, key, 0) == visited
  {
    assert Occurrences(host, key, idx) == [];
    assert visited + [] == visited;
  }

  /** `s[:i] + rep + s[i + n:]`. */
  function Splice(s: string, i: nat, n: nat, rep: string): string
    requires i + n <= |s|
  {
    s[..i] + rep + s[i + n..]
  }

  /** The candidates replacing the occurrence at `i` by each replacement in `reps`. */
  ghost function AtOne(host: string, key: string, i: nat, reps: set<string>): set<string>
    requires i + |key| <= |host|
  {
    set rep | rep in reps :: Splice(host, i, |key|, rep)
  }

  /** The candidates replacing each of the occurrences `occ` by each replacement in `reps`. */
  ghost function AtOccurrences(host: string, key: string, occ: seq<nat>, reps: set<string>): set<string> {
    set k, rep | 0 <= k < |occ| && occ[k] + |key| <= |host| && rep in reps :: Splice(host, occ[k], |key|, rep)
  }

  /** The candidates one key of the table produces. */
  ghost function KeyCandidates(host: string, key: string, reps: set<string>): set<string>
    requires |key| > 0
  {
    AtOccurrences(host, key, Occurrences(host, key, 0), reps)
  }

  /** The candidates the keys in `keys` produce. */
  ghost function CandidatesOf(host: string, table: Confusables, keys: set<string>): set<string> {
    set key, x | key in keys && key in table && |key| > 0 && x in KeyCandidates(host, key, table[key]) :: x
  }

  /**
   * Every candidate of the confusable generator: one scanned occurrence of
   * one key replaced by one of the sequences it is confusable with.
   */
  ghost function ConfusableSubstitutions(host: string, table: Confusables): set<string> {
    CandidatesOf(host, table, table.Keys)
  }

  lemma AtOneAdd(host: string, key: string, i: nat, reps: set<string>, rep: string)
    requires i + |key| <= |host|
    ensures AtOne(host, key, i, reps + {rep}) == AtOne(host, key, i, reps) + {Splice(host, i, |key|, rep)}
  {
  }

  lemma AtOccurrencesSnoc(host: string, key: string, occ: seq<nat>, i: nat, reps: set<string>)
    requires i + |key| <= |host|
    ensures AtOccurrences(host, key, occ + [i], reps) == AtOccurrences(host, key, occ, reps) + AtOne(host, key, i, reps)
  {
    var occ' := occ + [i];
    forall x | x in AtOccurrences(host, key, occ', reps)
      ensures x in AtOccurrences(host, key, occ, reps) + AtOne(host, key, i, reps)
    {
      var k, rep :| 0 <= k < |occ'| && occ'[k] + |key| <= |host| && rep in reps && x == Splice(host, occ'[k], |key|, rep);
      if k < |occ| {
        assert occ'[k] == occ[k];
      }
    }
    forall x | x in AtOccurrences(host, key, occ, reps) + AtOne(host, key, i, reps)
      ensures x in AtOccurrences(host, key, occ', reps)
    {
      if x in AtOne(host, key, i, reps) {
        var rep :| rep in reps && x == Splice(host, i, |key|, rep);
        assert occ'[|occ|] == i;
      } else {
        var k, rep :| 0 <= k < |occ| && occ[k] + |key| <= |host| && rep in reps && x == Splice(host, occ[k], |key|, rep);
        assert occ'[k] == occ[k];
      }
    }
  }

  lemma CandidatesOfAdd(host: string, table: Confusables, keys: set<string>, key: string)
    requires key in table && |key| > 0
    ensures CandidatesOf(host, table, keys + {key}) == CandidatesOf(host, table, keys) + KeyCandidates(host, key, table[key])
  {
  }

  /** The candidates built from the `k`-th scanned occurrence are candidates of the key. */
  lemma OccurrenceCandidatesIn(host: string, key: string, reps: set<string>, k: nat)
    requires |key| > 0 && k < |Occurrences(host, key, 0)|
    ensures Occurrences(host, key, 0)[k] + |key| <= |host|
    ensures AtOne(host, key, Occurrences(host, key, 0)[k], reps) <= KeyCandidates(host, key, reps)
  {
    OccurrencesSound(host, key, 0);
  }

  /** The candidates of one key are candidates of the table. */
  lemma KeyCandidatesIn(host: string, table: Confusables, key: string)
    requires key in table && |key| > 0
    ensures KeyCandidates(host, key, table[key]) <= ConfusableSubstitutions(host, table)
  {
  }

  /** Encoding is taken member by member, so it distributes over a union. */
  lemma EncodedUnion(codec: Codec, xs: set<string>, ys: set<string>)
    ensures Encoded(codec, xs + ys) == Encoded(codec, xs) + Encoded(codec, ys)
  {
  }

  /** Encodings of two sets, listed one after the other, are the encodings of the union. */
  lemma EncodedAsConcat(codec: Codec, xs: set<string>, ys: set<string>, a: seq<string>, b: seq<string>)
    requires EncodedAs(codec, xs, a) && EncodedAs(codec, ys, b)
    ensures EncodedAs(codec, xs + ys, a + b)
  {
    EncodedUnion(codec, xs, ys);
    SetOfConcat(a, b);
  }

  /** The encoding of one more replacement at `i` extends those of the replacements before it. */
  lemma ReplacementEncoded(host: string, key: string, i: nat, reps: set<string>, rep: string,
                           codec: Codec, a: seq<string>, y: string)
    requires i + |key| <= |host|
    requires EncodedAs(codec, AtOne(host, key, i, reps), a)
    requires codec.toAscii(Splice(host, i, |key|, rep)) == Some(y)
    ensures EncodedAs(codec, AtOne(host, key, i, reps + {rep}), a + [y])
  {
    AtOneAdd(host, key, i, reps, rep);
    EncodedAdd(codec, AtOne(host, key, i, reps), Splice(host, i, |key|, rep), y);
    SetOfConcat(a, [y]);
  }

  /** The encodings of one more scanned occurrence extend those of the occurrences before it. */
  lemma OccurrenceEncoded(host: string, key: string, occ: seq<nat>, i: nat, reps: set<string>,
                          codec: Codec, a: seq<string>, b: seq<string>)
    requires i + |key| <= |host|
    requires EncodedAs(codec, AtOccurrences(host, key, occ, reps), a)
    requires EncodedAs(codec, AtOne(host, key, i, reps), b)
    ensures EncodedAs(codec, AtOccurrences(host, key, occ + [i], reps), a + b)
  {
    AtOccurrencesSnoc(host, key, occ, i, reps);
    EncodedAsConcat(codec, AtOccurrences(host, key, occ, reps), AtOne(host, key, i, reps), a, b);
  }

  /** The encodings of one more key's candidates extend those of the keys before it. */
  lemma KeyEncoded(host: string, table: Confusables, keys: set<string>, key: string,
                   codec: Codec, a: seq<string>, b: seq<string>)
    requires key in table && |key| > 0
    requires EncodedAs(codec, CandidatesOf(host, table, keys), a)
    requires EncodedAs(codec, KeyCandidates(host, key, table[key]), b)
    ensures EncodedAs(codec, CandidatesOf(host, table, keys + {key}), a + b)
  {
    CandidatesOfAdd(host, table, keys, key);
    EncodedAsConcat(codec, CandidatesOf(host, table, keys), KeyCandidates(host, key, table[key]), a, b);
  }

  /**
   * The innermost loop of `generate_homoglyph_confusables_typos`: the
   * occurrence at `i` replaced by each sequence in `reps`, each encoded.
   */
  method EncodeReplacements(host: string, key: string, i: nat, reps: set<string>, codec: Codec)
    returns (result: Option<seq<string>>)
    requires i + |key| <= |host|
    ensures result.None? <==> !AllEncode(codec, AtOne(host, key, i, reps))
    ensures result.Some? ==> EncodedAs(codec, AtOne(host, key, i, reps), result.value)
  {
    var typos: seq<string> := [];
    var remaining := reps;
    ghost var done: set<string> := {};
    while remaining != {}
      invariant remaining + done == reps && remaining !! done
      invariant EncodedAs(codec, AtOne(host, key, i, done), typos)
      decreases |remaining|
    {
      var rep :| rep in remaining;
      var newHost := host[..i] + rep + host[i + |key|..];
      var encoded := codec.toAscii(newHost);
      if encoded.None? {
        EncodeFails(codec, {newHost}, AtOne(host, key, i, reps), newHost);
        return None;
      }
      ReplacementEncoded(host, key, i, done, rep, codec, typos, encoded.value);
      typos := typos + [encoded.value];
      remaining := remaining - {rep};
      done := done + {rep};
    }
    result := Some(typos);
  }

  /**
   * The scan loop of `generate_homoglyph_confusables_typos` for one key:
   * each non-overlapping occurrence, left to right, replaced by each
   * sequence in `reps`, each encoded.
   */
  method EncodeKeyCandidates(host: string, key: string, reps: set<string>, codec: Codec)
    returns (result: Option<seq<string>>)
    requires |key| > 0
    ensures result.None? <==> !AllEncode(codec, KeyCandidates(host, key, reps))
    ensures result.Some? ==> EncodedAs(codec, KeyCandidates(host, key, reps), result.value)
  {
    var typos: seq<string> := [];
    var idx: nat := 0;
    ghost var visited: seq<nat> := [];
    ScanStart(host, key);
    while true
      invariant idx <= |host|
      invariant Scanned(host, key, visited, idx)
      invariant EncodedAs(codec, AtOccurrences(host, key, visited, reps), typos)
      decreases |host| - idx
    {
      var found := Find(host, key, idx);
      if found <= -1 {
        ScanEnd(host, key, visited, idx);
        break;
      }
      ScanStep(host, key, visited, idx, found);
      var encoded := EncodeReplacements(host, key, found, reps, codec);
      ghost var here := AtOne(host, key, found, reps);
      if encoded.None? {
        OccurrenceCandidatesIn(host, key, reps, |visited|);
        AllEncodeSubset(codec, here, KeyCandidates(host, key, reps));
        return None;
      }
      OccurrenceEncoded(host, key, visited, found, reps, codec, typos, encoded.value);
      typos := typos + encoded.value;
      visited := visited + [found];
      idx := found + |key|;
    }
    result := Some(typos);
  }

  /** Every member of a set that encodes throughout encodes. */
  lemma AllEncodeSubset(codec: Codec, xs: set<string>, ys: set<string>)
    requires xs <= ys
    ensures AllEncode(codec, ys) ==> AllEncode(codec, xs)
  {
  }

  /**
   * `generate_homoglyph_confusables_typos`: every key of the table scanned
   * in turn.  Key and replacement order is the table's iteration order,
   * which the model leaves open, so the result is pinned down as a set.
   */
  method GenerateHomoglyphConfusablesTypos(host: string, table: Confusables, codec: Codec)
    returns (result: Option<seq<string>>)
    requires NonEmptyKeys(table)
    ensures result.None? <==> EncodeSet(codec, ConfusableSubstitutions(host, table)).None?
    ensures result.Some? ==> SetOf(result.value) == EncodeSet(codec, ConfusableSubstitutions(host, table)).value
  {
    var typos: seq<string> := [];
    ghost var done: set<string> := {};
    var keys := table.Keys;
    while keys != {}
      invariant keys + done == table.Keys && keys !! done
      invariant EncodedAs(codec, CandidatesOf(host, table, done), typos)
      decreases |keys|
    {
      var key :| key in keys;
      var encoded := EncodeKeyCandidates(host, key, table[key], codec);
      ghost var here := KeyCandidates(host, key, table[key]);
      if encoded.None? {
        KeyCandidatesIn(host, table, key);
        AllEncodeSubset(codec, here, ConfusableSubstitutions(host, table));
        return None;
      }
      KeyEncoded(host, table, done, key, codec, typos, encoded.value);
      typos := typos + encoded.value;
      done := done + {key};
      keys := keys - {key};
    }
    assert done == table.Keys;
    assert CandidatesOf(host, table, done) == ConfusableSubstitutions(host, table);
    result := Some(typos);
  }

  /**
   * Where the table is symmetric, putting the key back in place of the
   * replacement restores the host, and that undo is itself a table entry.
   */
  lemma ConfusableUndo(host: string, table: Confusables, x: string)
    requires NonEmptyKeys(table)
    requires forall a, b :: a in table && b in table[a] ==> b in table && a in table[b]
    requires x in ConfusableSubstitutions(host, table)
    ensures exists key, rep, i ::
      && key in table && rep in table[key] && key in table[rep]
      && OccursAt(host, key, i) && OccursAt(x, rep, i) && Splice(x, i, |rep|, key) == host
  {
    var key :| key in table && |key| > 0 && x in KeyCandidates(host, key, table[key]);
    var occ := Occurrences(host, key, 0);
    var k, rep :| 0 <= k < |occ| && occ[k] + |key| <= |host| && rep in table[key] && x == Splice(host, occ[k], |key|, rep);
    OccurrencesSound(host, key, 0);
    SpliceUndo(host, occ[k], key, rep);
  }

  /** Splicing the original text back over a replacement undoes it. */
  lemma SpliceUndo(host: string, i: nat, key: string, rep: string)
    requires OccursAt(host, key, i)
    ensures OccursAt(Splice(host, i, |key|, rep), rep, i)
    ensures Splice(Splice(host, i, |key|, rep), i, |rep|, key) == host
  {
    var x := Splice(host, i, |key|, rep);
    assert x[i..i + |rep|] == rep;
    assert x[..i] == host[..i];
    assert x[i + |rep|..] == host[i + |key|..];
    assert host == host[..i] + host[i..i + |key|] + host[i + |key|..];
  }

  /**
   * `generate_additional_homoglyph_typos`: the single-character
   * substitutions of the additional table, each encoded, in order.
   */
  method GenerateAdditionalHomoglyphTypos(host: string, table: map<string, seq<string>>, codec: Codec)
    returns (result: Option<seq<string>>)
    ensures result == EncodeAll(codec, Substitutions(host, table))
  {
    ghost var blocks := SubstitutionBlocks(host, table);
    ghost var raw: seq<string> := [];
    var typos: seq<string> := [];
    for idx := 0 to |host|
      invariant raw == Flatten(blocks[..idx])
      invariant EncodeAll(codec, raw) == Some(typos)
    {
      FlattenSnoc(blocks, idx);
      var encoded := EncodeSubstitutionsAt(host, table, codec, idx, raw, typos);
      if encoded.None? {
        return None;
      }
      raw := raw + blocks[idx];
      typos := encoded.value;
    }
    assert blocks[..|host|] == blocks;
    result := Some(typos);
  }

  /**
   * The inner loop of `generate_additional_homoglyph_typos`: the
   * substitutions at position `idx`, encoded and appended; a failure fails
   * the whole list.
   */
  method EncodeSubstitutionsAt(host: string, table: map<string, seq<string>>, codec: Codec, idx: nat,
                               ghost raw: seq<string>, typos: seq<string>)
    returns (result: Option<seq<string>>)
    requires idx < |host| && EncodeAll(codec, raw) == Some(typos)
    ensures result.None? ==> EncodeAll(codec, Substitutions(host, table)).None?
    ensures result.Some? ==> EncodeAll(codec, raw + SubstitutionBlock(host, table, idx)) == result
  {
    ghost var block := SubstitutionBlock(host, table, idx);
    var c := host[idx];
    if [c] !in table {
      assert raw + block == raw;
      return Some(typos);
    }
    var glyphs := table[[c]];
    ghost var done := raw;
    var encodedSoFar := typos;
    for j := 0 to |glyphs|
      invariant done == raw + block[..j]
      invariant EncodeAll(codec, done) == Some(encodedSoFar)
    {
      var newHost := host[..idx] + glyphs[j] + host[idx + 1..];
      var encoded := codec.toAscii(newHost);
      if encoded.None? {
        SubstitutionFails(host, table, codec, idx, j);
        return None;
      }
      EncodeAllSnoc(codec, done, newHost, encodedSoFar, encoded.value);
      assert raw + block[..j + 1] == raw + block[..j] + [newHost];
      done := done + [newHost];
      encodedSoFar := encodedSoFar + [encoded.value];
    }
    assert block[..|glyphs|] == block;
    result := Some(encodedSoFar);
  }

  /** One substitution that fails to encode fails the whole list. */
  lemma SubstitutionFails(host: string, table: map<string, seq<string>>, codec: Codec, i: nat, j: nat)
    requires i < |host| && [host[i]] in table && j < |table[[host[i]]]|
    requires codec.toAscii(Substitute(host, i, table[[host[i]]][j])).None?
    ensures EncodeAll(codec, Substitutions(host, table)).None?
  {
    var x := Substitute(host, i, table[[host[i]]][j]);
    var xs := Substitutions(host, table);
    SubstitutionsMember(host, table, x);
    EncodeAllMeaning(codec, xs);
    var n :| 0 <= n < |xs| && xs[n] == x;
  }
}
