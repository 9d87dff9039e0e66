/**
 * The doppelganger generators: a country code or a subdomain put in front
 * of the host, or a dot put into it.  The word lists are passed in as the
 * lines a file iteration yields.
 */
module Doppelgangers {
  import opened Wrappers
  import opened Text
  import opened Lists
  import opened Edits

  /** A line the country list cannot split into two codes. */
  predicate BadLine(line: string) {
    !StartsWith(line, "#") && |Split(line, ';')| < 2
  }

  /** For one line of the country list: nothing for a comment, else the two-letter and the three-letter code. */
  function CountryCodeBlock(line: string, host: string, lower: string -> string): (r: Option<seq<string>>)
    ensures r.None? <==> BadLine(line)
  {
    if StartsWith(line, "#") then Some([])
    else
      var parts := Split(line, ';');
      if |parts| < 2 then None
      else Some([lower(Strip(parts[0])) + host, lower(Strip(parts[1])) + host])
  }

  /** Line by line, both country codes in front of the host; `None` when a line has no ';'. */
  function CountryCodeDoppelgangers(lines: seq<string>, host: string, lower: string -> string): Option<seq<string>> {
    if |lines| == 0 then Some([])
    else
      match CountryCodeDoppelgangers(lines[..|lines| - 1], host, lower)
      case None => None
      case Some(init) =>
        match CountryCodeBlock(lines[|lines| - 1], host, lower)
        case None => None
        case Some(block) => Some(init + block)
  }

  /** One more line of the country list extends the result by that line's block. */
  lemma CountryCodeStep(lines: seq<string>, host: string, lower: string -> string, i: nat, typos: seq<string>)
    requires i < |lines| && CountryCodeDoppelgangers(lines[..i], host, lower) == Some(typos)
    ensures CountryCodeDoppelgangers(lines[..i + 1], host, lower) ==
      match CountryCodeBlock(lines[i], host, lower)
      case None => None
      case Some(block) => Some(typos + block)
  {
    assert lines[..i + 1][..i] == lines[..i];
  }

  /** `generate_country_code_doppelgangers`. */
  method GenerateCountryCodeDoppelgangers(lines: seq<string>, host: string, lower: string -> string)
    returns (result: Option<seq<string>>)
    ensures result == CountryCodeDoppelgangers(lines, host, lower)
  {
    var typos := [];
    for i := 0 to |lines|
      invariant CountryCodeDoppelgangers(lines[..i], host, lower) == Some(typos)
    {
      CountryCodeStep(lines, host, lower, i, typos);
      var line := lines[i];
      if !StartsWith(line, "#") {
        var parts := Split(line, ';');
        if |parts| < 2 {
          CountryCodeFails(lines, host, lower, i);
          return None;
        }
        var block := [lower(Strip(parts[0])) + host, lower(Strip(parts[1])) + host];
        assert CountryCodeBlock(line, host, lower) == Some(block);
        typos := typos + block;
      } else {
        assert CountryCodeBlock(line, host, lower) == Some([]);
        assert typos + [] == typos;
      }
    }
    assert lines[..|lines|] == lines;
    result := Some(typos);
  }

  /** The lines that are not comments. */
  function DataLineCount(lines: seq<string>): nat {
    if |lines| == 0 then 0
    else DataLineCount(lines[..|lines| - 1]) + (if StartsWith(lines[|lines| - 1], "#") then 0 else 1)
  }

  /** `x` is some text followed by the host. */
  predicate EndsWithHost(x: string, host: string) {
    |host| <= |x| && x[|x| - |host|..] == host
  }

  /** One line that cannot be split fails the whole list. */
  lemma {:induction false} CountryCodeFails(lines: seq<string>, host: string, lower: string -> string, i: nat)
    requires i < |lines| && BadLine(lines[i])
    ensures CountryCodeDoppelgangers(lines, host, lower).None?
    decreases |lines|
  {
    if i < |lines| - 1 {
      assert lines[..|lines| - 1][i] == lines[i];
      CountryCodeFails(lines[..|lines| - 1], host, lower, i);
    }
  }

  /** With every line splittable the list does not fail. */
  lemma {:induction false} CountryCodeSucceeds(lines: seq<string>, host: string, lower: string -> string)
    requires forall i :: 0 <= i < |lines| ==> !BadLine(lines[i])
    ensures CountryCodeDoppelgangers(lines, host, lower).Some?
    ensures var r := CountryCodeDoppelgangers(lines, host, lower).value;
      |r| == 2 * DataLineCount(lines) && forall j :: 0 <= j < |r| ==> EndsWithHost(r[j], host)
  {
    if |lines| > 0 {
      var init := lines[..|lines| - 1];
      forall i | 0 <= i < |init| ensures !BadLine(init[i]) {
        assert init[i] == lines[i];
      }
      CountryCodeSucceeds(init, host, lower);
      var r0 := CountryCodeDoppelgangers(init, host, lower).value;
      var last := lines[|lines| - 1];
      assert !BadLine(last);
      var block := CountryCodeBlock(last, host, lower).value;
      BlockShape(last, host, lower);
      assert CountryCodeDoppelgangers(lines, host, lower) == Some(r0 + block);
      var r := r0 + block;
      forall j | 0 <= j < |r| ensures EndsWithHost(r[j], host) {
        if j < |r0| { assert r[j] == r0[j]; } else { assert r[j] == block[j - |r0|]; }
      }
    }
  }

  lemma BlockShape(line: string, host: string, lower: string -> string)
    requires !BadLine(line)
    ensures var block := CountryCodeBlock(line, host, lower).value;
      |block| == (if StartsWith(line, "#") then 0 else 2) && forall j :: 0 <= j < |block| ==> EndsWithHost(block[j], host)
  {
    if !StartsWith(line, "#") {
      var parts := Split(line, ';');
      var a := lower(Strip(parts[0]));
      var b := lower(Strip(parts[1]));
      var block := [a + host, b + host];
      assert CountryCodeBlock(line, host, lower).value == block;
      forall j | 0 <= j < |block| ensures EndsWithHost(block[j], host) {
        if j == 0 { Suffix(a, host); } else { Suffix(b, host); }
      }
    }
  }

  lemma Suffix(p: string, host: string)
    ensures EndsWithHost(p + host, host)
  {
    assert (p + host)[|p + host| - |host|..] == host;
  }

  /**
   * The country-code generator fails exactly when a non-comment line lacks
   * a ';'; otherwise it yields two candidates per non-comment line, each a
   * prefix followed by the host.
   */
  lemma CountryCodeShape(lines: seq<string>, host: string, lower: string -> string)
    ensures CountryCodeDoppelgangers(lines, host, lower).None? <==> exists i :: 0 <= i < |lines| && BadLine(lines[i])
    ensures CountryCodeDoppelgangers(lines, host, lower).Some? ==>
      var r := CountryCodeDoppelgangers(lines, host, lower).value;
      |r| == 2 * DataLineCount(lines) && forall j :: 0 <= j < |r| ==> EndsWithHost(r[j], host)
  {
    if exists i :: 0 <= i < |lines| && BadLine(lines[i]) {
      var i :| 0 <= i < |lines| && BadLine(lines[i]);
      CountryCodeFails(lines, host, lower, i);
    } else {
      CountryCodeSucceeds(lines, host, lower);
    }
  }

  /** Every wordlist line, stripped, in front of the host. */
  function SubdomainDoppelgangers(subdomains: seq<string>, host: string): seq<string> {
    seq(|subdomains|, i requires 0 <= i < |subdomains| => Strip(subdomains[i]) + host)
  }

  /** `generate_subdomain_doppelgangers`. */
  method GenerateSubdomainDoppelgangers(subdomains: seq<string>, host: string) returns (result: seq<string>)
    ensures result == SubdomainDoppelgangers(subdomains, host)
  {
    result := [];
    for i := 0 to |subdomains|
      invariant result == SubdomainDoppelgangers(subdomains, host)[..i]
    {
      result := result + [Strip(subdomains[i]) + host];
    }
  }

  /** One candidate per wordlist line, each ending with the host. */
  lemma SubdomainShape(subdomains: seq<string>, host: string)
    ensures |SubdomainDoppelgangers(subdomains, host)| == |subdomains|
    ensures forall j :: 0 <= j < |subdomains| ==> EndsWithHost(SubdomainDoppelgangers(subdomains, host)[j], host)
  {
    forall j | 0 <= j < |subdomains| ensures EndsWithHost(SubdomainDoppelgangers(subdomains, host)[j], host) {
      var x := Strip(subdomains[j]) + host;
      assert x[|x| - |host|..] == host;
    }
  }

  function ExtraDotBlock(s: string, i: nat): seq<string>
    requires i < |s|
  {
    [Substitute(s, i, "."), InsertAt(s, i, ".")]
  }

  function ExtraDotBlocks(s: string): seq<seq<string>> {
    seq(|s|, i requires 0 <= i < |s| => ExtraDotBlock(s, i))
  }

  /** Position by position: a dot instead of the character, then a dot before it. */
  function ExtraDots(s: string): seq<string> {
    Flatten(ExtraDotBlocks(s))
  }

  /** `generate_extra_dot_doppelgangers`. */
  method GenerateExtraDotDoppelgangers(host: string) returns (result: seq<string>)
    ensures result == ExtraDots(host)
  {
    ghost var blocks := ExtraDotBlocks(host);
    result := [];
    for idx := 0 to |host|
      invariant result == Flatten(blocks[..idx])
    {
      FlattenSnoc(blocks, idx);
      result := result + [host[..idx] + "." + host[idx + 1..]];
      result := result + [host[..idx] + "." + host[idx..]];
    }
    assert blocks[..|host|] == blocks;
  }

  /**
   * `2 * |s|` candidates: candidate `2i` is `s` with position `i` turned
   * into '.', candidate `2i + 1` is `s` with a '.' inserted before position
   * `i`, one character longer and `s` again once that dot is deleted.
   */
  lemma ExtraDotsShape(s: string)
    ensures |ExtraDots(s)| == 2 * |s|
    ensures forall i :: 0 <= i < |s| ==>
      && AgreesExcept(ExtraDots(s)[2 * i], s, i) && ExtraDots(s)[2 * i][i] == '.'
      && |ExtraDots(s)[2 * i + 1]| == |s| + 1 && ExtraDots(s)[2 * i + 1][i] == '.'
      && Delete(ExtraDots(s)[2 * i + 1], i) == s
  {
    var blocks := ExtraDotBlocks(s);
    FlattenUniformLength(blocks, 2);
    forall i | 0 <= i < |s|
      ensures AgreesExcept(ExtraDots(s)[2 * i], s, i) && ExtraDots(s)[2 * i][i] == '.'
      ensures |ExtraDots(s)[2 * i + 1]| == |s| + 1 && ExtraDots(s)[2 * i + 1][i] == '.'
      ensures Delete(ExtraDots(s)[2 * i + 1], i) == s
    {
      FlattenUniformAt(blocks, 2, i, 0);
      FlattenUniformAt(blocks, 2, i, 1);
      assert ExtraDots(s)[2 * i] == blocks[i][0] && ExtraDots(s)[2 * i + 1] == blocks[i][1];
      SubstituteOneChar(s, i, '.');
      InsertInverse(s, i, '.');
    }
  }
}
