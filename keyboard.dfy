/**
 * The keyboard-proximity generators.  A layout maps a key to the keys next
 * to it, in the order the layout file lists them.
 */
module Keyboard {
  import opened Text
  import opened Lists
  import opened Edits

  type Layout = map<string, seq<string>>

  /** `generate_miskeyed_typos`: every key replaced by each of its neighbours. */
  method GenerateMiskeyedTypos(host: string, layout: Layout) returns (result: seq<string>)
    ensures result == Substitutions(host, layout)
  {
    ghost var blocks := SubstitutionBlocks(host, layout);
    result := [];
    for idx := 0 to |host|
      invariant result == Flatten(blocks[..idx])
    {
      FlattenSnoc(blocks, idx);
      var c := host[idx];
      if [c] in layout {
        var neighbours := layout[[c]];
        ghost var before := result;
        for j := 0 to |neighbours|
          invariant result == before + blocks[idx][..j]
        {
          result := result + [host[..idx] + neighbours[j] + host[idx + 1..]];
        }
        assert blocks[idx][..|neighbours|] == blocks[idx];
      }
    }
    assert blocks[..|host|] == blocks;
  }

  /** For one neighbour: inserted after the key, then before it. */
  function AdditionPair(s: string, i: nat, x: string): seq<string>
    requires i < |s|
  {
    [InsertAt(s, i + 1, x), InsertAt(s, i, x)]
  }

  function AdditionPairs(s: string, layout: Layout, i: nat): seq<seq<string>>
    requires i < |s|
  {
    if [s[i]] in layout then
      var neighbours := layout[[s[i]]];
      seq(|neighbours|, j requires 0 <= j < |neighbours| => AdditionPair(s, i, neighbours[j]))
    else []
  }

  function AdditionBlocks(s: string, layout: Layout): seq<seq<string>> {
    seq(|s|, i requires 0 <= i < |s| => Flatten(AdditionPairs(s, layout, i)))
  }

  /** Position by position, each neighbour of a key inserted after it and before it. */
  function Additions(s: string, layout: Layout): seq<string> {
    Flatten(AdditionBlocks(s, layout))
  }

  /** `generate_miskeyed_addition_typos`. */
  method GenerateMiskeyedAdditionTypos(host: string, layout: Layout) returns (result: seq<string>)
    ensures result == Additions(host, layout)
  {
    ghost var blocks := AdditionBlocks(host, layout);
    result := [];
    for idx := 0 to |host|
      invariant result == Flatten(blocks[..idx])
    {
      FlattenSnoc(blocks, idx);
      var c := host[idx];
      if [c] in layout {
        var neighbours := layout[[c]];
        ghost var pairs := AdditionPairs(host, layout, idx);
        ghost var before := result;
        for j := 0 to |neighbours|
          invariant result == before + Flatten(pairs[..j])
        {
          FlattenSnoc(pairs, j);
          result := result + [host[..idx + 1] + neighbours[j] + host[idx + 1..]];
          result := result + [host[..idx] + neighbours[j] + host[idx..]];
        }
        assert pairs[..|neighbours|] == pairs;
      }
    }
    assert blocks[..|host|] == blocks;
  }

  /**
   * The block of a key at `i` holds two candidates per neighbour: entry
   * `2j` inserts neighbour `j` after the key, entry `2j + 1` before it.
   * Each is the host with one neighbour inserted, so a one-character
   * neighbour lengthens the host by one.
   */
  lemma AdditionBlockShape(s: string, layout: Layout, i: nat)
    requires i < |s| && [s[i]] in layout
    ensures |AdditionBlocks(s, layout)[i]| == 2 * |layout[[s[i]]]|
    ensures forall j :: 0 <= j < |layout[[s[i]]]| ==>
      && AdditionBlocks(s, layout)[i][2 * j] == InsertAt(s, i + 1, layout[[s[i]]][j])
      && AdditionBlocks(s, layout)[i][2 * j + 1] == InsertAt(s, i, layout[[s[i]]][j])
  {
    var pairs := AdditionPairs(s, layout, i);
    FlattenUniformLength(pairs, 2);
    forall j | 0 <= j < |layout[[s[i]]]|
      ensures Flatten(pairs)[2 * j] == pairs[j][0] && Flatten(pairs)[2 * j + 1] == pairs[j][1]
    {
      FlattenUniformAt(pairs, 2, j, 0);
      FlattenUniformAt(pairs, 2, j, 1);
    }
  }

  /**
   * The addition candidates are exactly the hosts with one neighbour of
   * some key inserted directly after or directly before it.
   */
  lemma AdditionsMember(s: string, layout: Layout, x: string)
    ensures x in Additions(s, layout) <==>
      exists i, j :: 0 <= i < |s| && [s[i]] in layout && 0 <= j < |layout[[s[i]]]| &&
        (x == InsertAt(s, i + 1, layout[[s[i]]][j]) || x == InsertAt(s, i, layout[[s[i]]][j]))
  {
    var blocks := AdditionBlocks(s, layout);
    FlattenMember(blocks, x);
    if x in Additions(s, layout) {
      var i :| 0 <= i < |blocks| && x in blocks[i];
      var pairs := AdditionPairs(s, layout, i);
      FlattenMember(pairs, x);
      var j :| 0 <= j < |pairs| && x in pairs[j];
      assert x == InsertAt(s, i + 1, layout[[s[i]]][j]) || x == InsertAt(s, i, layout[[s[i]]][j]);
    }
    if exists i, j :: 0 <= i < |s| && [s[i]] in layout && 0 <= j < |layout[[s[i]]]| &&
        (x == InsertAt(s, i + 1, layout[[s[i]]][j]) || x == InsertAt(s, i, layout[[s[i]]][j])) {
      var i, j :| 0 <= i < |s| && [s[i]] in layout && 0 <= j < |layout[[s[i]]]| &&
        (x == InsertAt(s, i + 1, layout[[s[i]]][j]) || x == InsertAt(s, i, layout[[s[i]]][j]));
      var pairs := AdditionPairs(s, layout, i);
      assert x in pairs[j];
      FlattenMember(pairs, x);
      assert x in blocks[i];
    }
  }

  /** The end of the run of equal characters that starts at `i` (exclusive). */
  function RunEnd(s: string, i: nat): (e: nat)
    requires i < |s|
    ensures i < e <= |s|
    ensures forall k :: i <= k < e ==> s[k] == s[i]
    ensures e == |s| || s[e] != s[i]
    decreases |s| - i
  {
    if i + 1 < |s| && s[i + 1] == s[i] then RunEnd(s, i + 1) else i + 1
  }

  /** For the run `s[start..end]`: one candidate per neighbour of its key, when it is longer than one. */
  function RunBlock(s: string, layout: Layout, start: nat, end: nat): seq<string>
    requires start < end <= |s|
  {
    if end - start > 1 && [s[start]] in layout then
      var neighbours := layout[[s[start]]];
      seq(|neighbours|, j requires 0 <= j < |neighbours| => s[..start] + Repeat(neighbours[j], end - start) + s[end..])
    else []
  }

  /** Run by run from `start`, the whole run replaced by a neighbour repeated run-length times. */
  function SequenceTypos(s: string, layout: Layout, start: nat): seq<string>
    decreases |s| - start
  {
    if start >= |s| then []
    else
      var end := RunEnd(s, start);
      RunBlock(s, layout, start, end) + SequenceTypos(s, layout, end)
  }

  /** Unfolds one run of `SequenceTypos`. */
  lemma SequenceTyposStep(s: string, layout: Layout, start: nat)
    requires start < |s|
    ensures SequenceTypos(s, layout, start) ==
      RunBlock(s, layout, start, RunEnd(s, start)) + SequenceTypos(s, layout, RunEnd(s, start))
  {
  }

  /** The candidates so far and those from `start` on are all of them, one run further on as well. */
  lemma SequenceTyposSplit(s: string, layout: Layout, start: nat, result: seq<string>, total: seq<string>)
    requires start < |s|
    requires result + SequenceTypos(s, layout, start) == total
    ensures (result + RunBlock(s, layout, start, RunEnd(s, start))) + SequenceTypos(s, layout, RunEnd(s, start)) == total
  {
    SequenceTyposStep(s, layout, start);
    var end := RunEnd(s, start);
    ConcatAssoc(result, RunBlock(s, layout, start, end), SequenceTypos(s, layout, end), total);
  }

  /** Regrouping a concatenation of three lists. */
  lemma ConcatAssoc<T>(xs: seq<T>, ys: seq<T>, zs: seq<T>, total: seq<T>)
    requires xs + (ys + zs) == total
    ensures (xs + ys) + zs == total
  {
  }

  /** `generate_miskeyed_sequence_typos`. */
  method GenerateMiskeyedSequenceTypos(host: string, layout: Layout) returns (result: seq<string>)
    ensures result == SequenceTypos(host, layout, 0)
  {
    result := [];
    var idx := 0;
    while idx < |host|
      invariant 0 <= idx <= |host|
      invariant result + SequenceTypos(host, layout, idx) == SequenceTypos(host, layout, 0)
    {
      ghost var start := idx;
      var c := host[idx];
      var sequenceLen;
      idx, sequenceLen := ScanRun(host, idx);
      idx := idx + 1;
      assert idx == RunEnd(host, start);
      SequenceTyposSplit(host, layout, start, result, SequenceTypos(host, layout, 0));
      result := AppendRunBlock(result, host, layout, c, sequenceLen, idx);
    }
  }

  /**
   * The inner loop of `generate_miskeyed_sequence_typos`: from `start`,
   * over the following copies of the same character, to the last of them.
   */
  method ScanRun(host: string, start: nat) returns (idx: nat, sequenceLen: nat)
    requires start < |host|
    ensures idx + 1 == RunEnd(host, start) && sequenceLen == idx - start + 1
  {
    idx := start;
    var c := host[idx];
    sequenceLen := 1;
    while idx + 1 < |host| && host[idx + 1] == c
      invariant start <= idx < |host|
      invariant sequenceLen == idx - start + 1
      invariant host[idx] == c == host[start]
      invariant RunEnd(host, idx) == RunEnd(host, start)
    {
      sequenceLen := sequenceLen + 1;
      idx := idx + 1;
    }
  }

  /** The body of `generate_miskeyed_sequence_typos` after a run ends at `idx`: its block appended. */
  method AppendRunBlock(result: seq<string>, host: string, layout: Layout, c: char, sequenceLen: nat, idx: nat)
    returns (r: seq<string>)
    requires 0 < sequenceLen <= idx <= |host| && host[idx - sequenceLen] == c
    ensures r == result + RunBlock(host, layout, idx - sequenceLen, idx)
  {
    ghost var block := RunBlock(host, layout, idx - sequenceLen, idx);
    r := result;
    if sequenceLen > 1 {
      if [c] in layout {
        var neighbours := layout[[c]];
        for j := 0 to |neighbours|
          invariant r == result + block[..j]
        {
          r := r + [host[..idx - sequenceLen] + Repeat(neighbours[j], sequenceLen) + host[idx..]];
        }
        assert block[..|neighbours|] == block;
        return;
      }
    }
    assert block == [];
  }

  /** `s[a..b]` is a maximal run of one character: it cannot be extended either way. */
  predicate MaximalRun(s: string, a: int, b: int) {
    && 0 <= a < b <= |s|
    && (forall k :: a <= k < b ==> s[k] == s[a])
    && (a == 0 || s[a - 1] != s[a])
    && (b == |s| || s[b] != s[a])
  }

  /** A maximal run starting at `a` ends where `RunEnd` says. */
  lemma MaximalRunEnd(s: string, a: nat, b: nat)
    requires MaximalRun(s, a, b)
    ensures b == RunEnd(s, a)
  {
  }

  /** The sequence candidate made from neighbour `x` for the run `s[a..b]`. */
  function RunReplacement(s: string, a: nat, b: nat, x: string): string
    requires a <= b <= |s|
  {
    s[..a] + Repeat(x, b - a) + s[b..]
  }

  /** `x` replaces the maximal run `s[a..b]`, of length two or more, with neighbour `j` of its key. */
  predicate ReplacesRun(s: string, layout: Layout, a: int, b: int, j: int, x: string) {
    MaximalRun(s, a, b) && b - a >= 2 && [s[a]] in layout &&
      0 <= j < |layout[[s[a]]]| && x == RunReplacement(s, a, b, layout[[s[a]]][j])
  }

  /** `x` comes from a maximal run, from `start` on, of length at least two whose key has neighbours. */
  ghost predicate IsSequenceTypo(s: string, layout: Layout, start: nat, x: string) {
    exists a, b, j :: start <= a && ReplacesRun(s, layout, a, b, j, x)
  }

  /**
   * From a run boundary, the sequence candidates are exactly the
   * replacements of whole maximal runs of length two or more of a key, with
   * the text before and after the run untouched.
   */
  lemma SequenceTyposMember(s: string, layout: Layout, start: nat, x: string)
    requires start <= |s|
    requires start == 0 || start == |s| || s[start - 1] != s[start]
    ensures x in SequenceTypos(s, layout, start) <==> IsSequenceTypo(s, layout, start, x)
  {
    SequenceTyposSound(s, layout, start, x);
    SequenceTyposComplete(s, layout, start, x);
  }

  /** Every sequence candidate replaces a whole maximal run. */
  lemma {:induction false} SequenceTyposSound(s: string, layout: Layout, start: nat, x: string)
    requires start <= |s|
    requires start == 0 || start == |s| || s[start - 1] != s[start]
    ensures x in SequenceTypos(s, layout, start) ==> IsSequenceTypo(s, layout, start, x)
    decreases |s| - start
  {
    if start < |s| && x in SequenceTypos(s, layout, start) {
      var end := RunEnd(s, start);
      SequenceTyposStep(s, layout, start);
      var block := RunBlock(s, layout, start, end);
      if x in block {
        RunBlockSound(s, layout, start, x);
      } else {
        assert s[end - 1] == s[start];
        SequenceTyposSound(s, layout, end, x);
        var a, b, j :| end <= a && ReplacesRun(s, layout, a, b, j, x);
        assert start <= a;
      }
    }
  }

  /** A candidate of the block of the run from `start` replaces that run, when it is maximal. */
  lemma RunBlockSound(s: string, layout: Layout, start: nat, x: string)
    requires start < |s|
    requires x in RunBlock(s, layout, start, RunEnd(s, start))
    ensures IsSequenceTypo(s, layout, start, x) || (start > 0 && s[start - 1] == s[start])
  {
    var end := RunEnd(s, start);
    var block := RunBlock(s, layout, start, end);
    var j :| 0 <= j < |block| && block[j] == x;
    assert x == RunReplacement(s, start, end, layout[[s[start]]][j]);
    if start == 0 || s[start - 1] != s[start] {
      assert ReplacesRun(s, layout, start, end, j, x);
    }
  }

  /** Every replacement of a whole maximal run after a run boundary is a sequence candidate. */
  lemma {:induction false} SequenceTyposComplete(s: string, layout: Layout, start: nat, x: string)
    requires start <= |s|
    requires start == 0 || start == |s| || s[start - 1] != s[start]
    ensures IsSequenceTypo(s, layout, start, x) ==> x in SequenceTypos(s, layout, start)
    decreases |s| - start
  {
    if start < |s| && IsSequenceTypo(s, layout, start, x) {
      var end := RunEnd(s, start);
      SequenceTyposStep(s, layout, start);
      var a, b, j :| start <= a && ReplacesRun(s, layout, a, b, j, x);
      if a == start {
        MaximalRunEnd(s, a, b);
        assert RunBlock(s, layout, start, end)[j] == x;
      } else {
        RunInside(s, start, a);
        assert s[end - 1] == s[start];
        assert IsSequenceTypo(s, layout, end, x);
        SequenceTyposComplete(s, layout, end, x);
      }
    }
  }

  /** A maximal run starting after `start` starts at or after the end of the run from `start`. */
  lemma RunInside(s: string, start: nat, a: nat)
    requires start < a < |s| && s[a - 1] != s[a]
    ensures RunEnd(s, start) <= a
  {
    assert s[a - 1] != s[start] || s[a] != s[start];
  }

  /** With single-character neighbours every sequence candidate keeps the host's length. */
  lemma SequenceTypoLength(s: string, layout: Layout, x: string)
    requires SingleCharEntries(layout)
    requires x in SequenceTypos(s, layout, 0)
    ensures |x| == |s|
  {
    SequenceTyposMember(s, layout, 0, x);
    var a, b, j :| 0 <= a && ReplacesRun(s, layout, a, b, j, x);
    assert |layout[[s[a]]][j]| == 1;
  }
}
