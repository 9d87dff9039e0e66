/** The quick and rigorous lexical generators: missing, duplicated and transposed characters. */
module Lexical {
  import opened Lists
  import opened Edits

  /** One candidate per position, the character there left out. */
  function MissingCharacters(s: string): seq<string> {
    seq(|s|, i requires 0 <= i < |s| => Delete(s, i))
  }

  /** `generate_missing_character_typos`. */
  method GenerateMissingCharacterTypos(host: string) returns (result: seq<string>)
    ensures result == MissingCharacters(host)
  {
    result := [];
    var idx := 0;
    while idx < |host|
      invariant 0 <= idx <= |host|
      invariant result == MissingCharacters(host)[..idx]
    {
      var typo := host[0..idx] + host[idx + 1..];
      idx := idx + 1;
      result := result + [typo];
    }
  }

  /**
   * `|s|` candidates; the `i`-th is one shorter than `s` and becomes `s`
   * again when `s[i]` is put back at `i`.  The empty host has none.
   */
  lemma MissingCharactersShape(s: string)
    ensures |MissingCharacters(s)| == |s|
    ensures forall i :: 0 <= i < |s| ==>
      |MissingCharacters(s)[i]| == |s| - 1 && InsertAt(MissingCharacters(s)[i], i, [s[i]]) == s
  {
    forall i | 0 <= i < |s| ensures InsertAt(MissingCharacters(s)[i], i, [s[i]]) == s {
      DeleteInverse(s, i);
    }
  }

  /** `list(s)` with `s[i]` inserted before position `i` again. */
  function DuplicateAt(s: string, i: nat): string
    requires i < |s|
  {
    InsertAt(s, i, [s[i]])
  }

  function DuplicateBlock(s: string, i: nat): seq<string>
    requires i < |s|
  {
    if s[i] != '.' then [DuplicateAt(s, i)] else []
  }

  function DuplicateBlocks(s: string): seq<seq<string>> {
    seq(|s|, i requires 0 <= i < |s| => DuplicateBlock(s, i))
  }

  /** Position by position, each character other than '.' doubled in place. */
  function DuplicateCharacters(s: string): seq<string> {
    Flatten(DuplicateBlocks(s))
  }

  /** `generate_duplicate_character_typos`. */
  method GenerateDuplicateCharacterTypos(host: string) returns (result: seq<string>)
    ensures result == DuplicateCharacters(host)
  {
    ghost var blocks := DuplicateBlocks(host);
    result := [];
    var idx := 0;
    while idx < |host|
      invariant 0 <= idx <= |host|
      invariant result == Flatten(blocks[..idx])
    {
      FlattenSnoc(blocks, idx);
      var chars := host;
      if chars[idx] != '.' {
        var typo := chars[..idx] + [chars[idx]] + chars[idx..];
        result := result + [typo];
      }
      idx := idx + 1;
    }
    assert blocks[..|host|] == blocks;
  }

  /** The number of positions of `s` not holding '.'. */
  function NonDotCount(s: string): nat {
    |s| - multiset(s)['.']
  }

  /** One candidate per character that is not '.'. */
  lemma {:induction false} DuplicateCharactersCount(s: string, n: nat)
    requires n <= |s|
    ensures |Flatten(DuplicateBlocks(s)[..n])| == NonDotCount(s[..n])
  {
    if n > 0 {
      var blocks := DuplicateBlocks(s);
      DuplicateCharactersCount(s, n - 1);
      FlattenSnoc(blocks, n - 1);
      assert |Flatten(blocks[..n])| == |Flatten(blocks[..n - 1])| + |blocks[n - 1]|;
      assert |blocks[n - 1]| == if s[n - 1] != '.' then 1 else 0;
      assert s[..n] == s[..n - 1] + [s[n - 1]];
      NonDotCountSnoc(s[..n - 1], s[n - 1]);
    }
  }

  /** One more character adds one to the count unless it is '.'. */
  lemma NonDotCountSnoc(s: string, c: char)
    ensures NonDotCount(s + [c]) == NonDotCount(s) + if c != '.' then 1 else 0
  {
    assert multiset(s + [c]) == multiset(s) + multiset{c};
  }

  /**
   * The candidates are exactly the texts with one non-'.' character doubled
   * in place; there are `NonDotCount(s)` of them, each one longer than `s`
   * and equal to `s` once the doubled position is deleted.
   */
  lemma DuplicateCharactersShape(s: string, x: string)
    ensures |DuplicateCharacters(s)| == NonDotCount(s)
    ensures x in DuplicateCharacters(s) <==> exists i :: 0 <= i < |s| && s[i] != '.' && x == DuplicateAt(s, i)
    ensures x in DuplicateCharacters(s) ==> |x| == |s| + 1
    ensures forall i :: 0 <= i < |s| ==> Delete(DuplicateAt(s, i), i) == s
  {
    DuplicateCharactersCount(s, |s|);
    assert DuplicateBlocks(s)[..|s|] == DuplicateBlocks(s);
    assert s[..|s|] == s;
    DuplicateCharactersMember(s, x);
    forall i | 0 <= i < |s| ensures Delete(DuplicateAt(s, i), i) == s && |DuplicateAt(s, i)| == |s| + 1 {
      InsertInverse(s, i, s[i]);
    }
  }

  /** A candidate is the text with one non-'.' character doubled, and back. */
  lemma DuplicateCharactersMember(s: string, x: string)
    ensures x in DuplicateCharacters(s) <==> exists i :: 0 <= i < |s| && s[i] != '.' && x == DuplicateAt(s, i)
  {
    var blocks := DuplicateBlocks(s);
    FlattenMember(blocks, x);
    if x in DuplicateCharacters(s) {
      var i :| 0 <= i < |blocks| && x in blocks[i];
      assert s[i] != '.' && x == DuplicateAt(s, i);
    }
    if exists i :: 0 <= i < |s| && s[i] != '.' && x == DuplicateAt(s, i) {
      var i :| 0 <= i < |s| && s[i] != '.' && x == DuplicateAt(s, i);
      assert x in blocks[i];
    }
  }

  /** `s[:i] + s[i+1:i+2] + s[i:i+1] + s[i+2:]`. */
  function Swap(s: string, i: nat): string
    requires i + 1 < |s|
  {
    s[..i] + s[i + 1..i + 2] + s[i..i + 1] + s[i + 2..]
  }

  /** One candidate per adjacent pair, the pair swapped; none for fewer than two characters. */
  function Transpositions(s: string): seq<string> {
    seq(if |s| > 0 then |s| - 1 else 0, i requires 0 <= i < |s| - 1 => Swap(s, i))
  }

  /** `generate_transposed_character_typos`. */
  method GenerateTransposedCharacterTypos(host: string) returns (result: seq<string>)
    ensures result == Transpositions(host)
  {
    result := [];
    var n := if |host| > 0 then |host| - 1 else 0;
    for idx := 0 to n
      invariant result == Transpositions(host)[..idx]
    {
      result := result + [host[..idx] + host[idx + 1..idx + 2] + host[idx..idx + 1] + host[idx + 2..]];
    }
  }

  /**
   * The swap exchanges positions `i` and `i + 1` and keeps everything else,
   * so the length and the multiset of characters are unchanged and swapping
   * again restores the text.
   */
  lemma SwapShape(s: string, i: nat)
    requires i + 1 < |s|
    ensures |Swap(s, i)| == |s|
    ensures Swap(s, i)[i] == s[i + 1] && Swap(s, i)[i + 1] == s[i]
    ensures forall j :: 0 <= j < |s| && j != i && j != i + 1 ==> Swap(s, i)[j] == s[j]
    ensures multiset(Swap(s, i)) == multiset(s)
    ensures Swap(Swap(s, i), i) == s
  {
    var t := Swap(s, i);
    assert s == s[..i] + s[i..i + 1] + s[i + 1..i + 2] + s[i + 2..];
    assert t[..i] == s[..i] && t[i + 2..] == s[i + 2..];
    assert t[i + 1..i + 2] == s[i..i + 1] && t[i..i + 1] == s[i + 1..i + 2];
  }

  /** `max(|s| - 1, 0)` candidates, the `i`-th swapping positions `i` and `i + 1`. */
  lemma TranspositionsShape(s: string)
    ensures |Transpositions(s)| == if |s| > 0 then |s| - 1 else 0
    ensures forall i :: 0 <= i < |s| - 1 ==>
      Transpositions(s)[i] == Swap(s, i) && |Transpositions(s)[i]| == |s| && multiset(Transpositions(s)[i]) == multiset(s)
  {
    forall i | 0 <= i < |s| - 1 ensures |Swap(s, i)| == |s| && multiset(Swap(s, i)) == multiset(s) {
      SwapShape(s, i);
    }
  }
}
