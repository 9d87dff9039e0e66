/**
 * The one-position edits the generators apply, written with Python's
 * slices, and the table-driven substitution shared by the miskey and the
 * additional-homoglyph generators.
 */
module Edits {
  import opened Lists

  /** `s[:i] + s[i + 1:]`. */
  function Delete(s: string, i: nat): string
    requires i < |s|
  {
    s[..i] + s[i + 1..]
  }

  /** `s[:i] + x + s[i:]`. */
  function InsertAt(s: string, i: nat, x: string): string
    requires i <= |s|
  {
    s[..i] + x + s[i..]
  }

  /** `s[:i] + x + s[i + 1:]`. */
  function Substitute(s: string, i: nat, x: string): string
    requires i < |s|
  {
    s[..i] + x + s[i + 1..]
  }

  /** Inserting the deleted character again restores the text. */
  lemma DeleteInverse(s: string, i: nat)
    requires i < |s|
    ensures |Delete(s, i)| == |s| - 1
    ensures InsertAt(Delete(s, i), i, [s[i]]) == s
  {
    assert Delete(s, i)[..i] == s[..i];
    assert Delete(s, i)[i..] == s[i + 1..];
    assert s == s[..i] + [s[i]] + s[i + 1..];
  }

  /** Deleting an inserted text of one character restores the text. */
  lemma InsertInverse(s: string, i: nat, c: char)
    requires i <= |s|
    ensures |InsertAt(s, i, [c])| == |s| + 1
    ensures InsertAt(s, i, [c])[i] == c
    ensures Delete(InsertAt(s, i, [c]), i) == s
  {
    var t := InsertAt(s, i, [c]);
    assert t[..i] == s[..i];
    assert t[i + 1..] == s[i..];
  }

  /** A one-character substitution changes position `i` and nothing else. */
  lemma SubstituteOneChar(s: string, i: nat, c: char)
    requires i < |s|
    ensures |Substitute(s, i, [c])| == |s|
    ensures Substitute(s, i, [c])[i] == c
    ensures forall j :: 0 <= j < |s| && j != i ==> Substitute(s, i, [c])[j] == s[j]
  {
  }

  /** For the character at `i`, one candidate per table entry, in table order. */
  function SubstitutionBlock(s: string, table: map<string, seq<string>>, i: nat): seq<string>
    requires i < |s|
  {
    if [s[i]] in table then
      var alternatives := table[[s[i]]];
      seq(|alternatives|, j requires 0 <= j < |alternatives| => Substitute(s, i, alternatives[j]))
    else []
  }

  /** The per-position blocks of substitution candidates. */
  function SubstitutionBlocks(s: string, table: map<string, seq<string>>): seq<seq<string>> {
    seq(|s|, i requires 0 <= i < |s| => SubstitutionBlock(s, table, i))
  }

  /**
   * Position by position, each character that is a key of the table
   * replaced by each of its alternatives in turn.
   */
  function Substitutions(s: string, table: map<string, seq<string>>): seq<string> {
    Flatten(SubstitutionBlocks(s, table))
  }

  /**
   * The candidates are exactly the texts that replace one character that is
   * a key with one of its alternatives.
   */
  lemma SubstitutionsMember(s: string, table: map<string, seq<string>>, x: string)
    ensures x in Substitutions(s, table) <==>
      exists i, j :: 0 <= i < |s| && [s[i]] in table && 0 <= j < |table[[s[i]]]| && x == Substitute(s, i, table[[s[i]]][j])
  {
    var blocks := SubstitutionBlocks(s, table);
    FlattenMember(blocks, x);
    if x in Substitutions(s, table) {
      var i :| 0 <= i < |blocks| && x in blocks[i];
      var j :| 0 <= j < |blocks[i]| && blocks[i][j] == x;
      assert x == Substitute(s, i, table[[s[i]]][j]);
    }
    if exists i, j :: 0 <= i < |s| && [s[i]] in table && 0 <= j < |table[[s[i]]]| && x == Substitute(s, i, table[[s[i]]][j]) {
      var i, j :| 0 <= i < |s| && [s[i]] in table && 0 <= j < |table[[s[i]]]| && x == Substitute(s, i, table[[s[i]]][j]);
      assert blocks[i][j] == x;
    }
  }

  /** Every entry of the table is a single character. */
  predicate SingleCharEntries(table: map<string, seq<string>>) {
    forall k :: k in table ==> forall j :: 0 <= j < |table[k]| ==> |table[k][j]| == 1
  }

  /** `x` has the length of `s` and agrees with it everywhere except possibly at `i`. */
  predicate AgreesExcept(x: string, s: string, i: int) {
    |x| == |s| && forall j :: 0 <= j < |s| && j != i ==> x[j] == s[j]
  }

  /** With single-character entries, every substitution keeps the length and changes one position. */
  lemma SubstitutionsKeepLength(s: string, table: map<string, seq<string>>, x: string)
    requires SingleCharEntries(table)
    requires x in Substitutions(s, table)
    ensures exists i :: 0 <= i < |s| && AgreesExcept(x, s, i)
  {
    SubstitutionsMember(s, table, x);
    var i, j :| 0 <= i < |s| && [s[i]] in table && 0 <= j < |table[[s[i]]]| && x == Substitute(s, i, table[[s[i]]][j]);
    var alt := table[[s[i]]][j];
    assert alt == [alt[0]];
    SubstituteOneChar(s, i, alt[0]);
    assert AgreesExcept(x, s, i);
  }
}
