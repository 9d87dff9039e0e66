/** `is_domain_valid`: the purely syntactic domain check. */
module Validator {
  import opened Text

  /** A character of the regular-expression class `[a-z0-9.-]`. */
  predicate IsHostChar(c: char) {
    'a' <= c <= 'z' || '0' <= c <= '9' || c == '.' || c == '-'
  }

  predicate AllHostChars(s: string) {
    forall i :: 0 <= i < |s| ==> IsHostChar(s[i])
  }

  /**
   * `re.match('^[a-z0-9.-]+$', d)`.  Python's `$` also matches just before
   * a newline that ends the string, so one trailing newline gets through.
   */
  predicate MatchesHostPattern(d: string) {
    || (|d| >= 1 && AllHostChars(d))
    || (|d| >= 2 && d[|d| - 1] == '\n' && AllHostChars(d[..|d| - 1]))
  }

  /** `d[d.rfind(".") + 1:]`: the text after the last dot, or all of `d`. */
  function TopLevelLabel(d: string): string {
    d[RFind(d, '.') + 1..]
  }

  /** `is_domain_valid`, branch by branch. */
  predicate IsDomainValid(d: string, tlds: seq<string>) {
    if !MatchesHostPattern(d) then false
    else if TopLevelLabel(d) !in tlds then false
    else if Contains(d, ".-") || Contains(d, "-.") || StartsWith(d, "-") then false
    else if Contains(d, "..") || StartsWith(d, ".") then false
    else true
  }

  /** `k` is where the text after the last dot of `d` begins. */
  predicate LastLabelStart(d: string, k: int) {
    0 <= k <= |d| && (k == 0 || d[k - 1] == '.') && forall j :: k <= j < |d| ==> d[j] != '.'
  }

  /** Two neighbouring characters that may not meet: ".-", "-." or "..". */
  predicate ForbiddenPair(a: char, b: char) {
    (a == '.' && b == '-') || (a == '-' && b == '.') || (a == '.' && b == '.')
  }

  /** The reference description of a valid domain, condition by condition. */
  ghost predicate WellFormed(d: string, tlds: seq<string>) {
    && |d| > 0
    && AllHostChars(d)
    && (exists k :: LastLabelStart(d, k) && d[k..] in tlds)
    && (forall i :: 0 <= i < |d| - 1 ==> !ForbiddenPair(d[i], d[i + 1]))
    && d[0] != '-' && d[0] != '.'
  }

  /** No TLD of the list ends in a newline (the loader strips line ends). */
  predicate NoNewlineTerminatedTld(tlds: seq<string>) {
    forall i :: 0 <= i < |tlds| ==> tlds[i] == [] || tlds[i][|tlds[i]| - 1] != '\n'
  }

  /** A two-character needle occurs exactly where its two characters stand side by side. */
  lemma ContainsPair(d: string, a: char, b: char)
    ensures Contains(d, [a, b]) <==> exists i :: 0 <= i < |d| - 1 && d[i] == a && d[i + 1] == b
  {
    ContainsIff(d, [a, b]);
    if exists i :: 0 <= i < |d| - 1 && d[i] == a && d[i + 1] == b {
      var i :| 0 <= i < |d| - 1 && d[i] == a && d[i + 1] == b;
      assert d[i..i + 2] == [a, b];
      assert OccursAt(d, [a, b], i);
    }
    if exists j :: OccursAt(d, [a, b], j) {
      var j :| OccursAt(d, [a, b], j);
      assert d[j..j + 2][0] == d[j] && d[j..j + 2][1] == d[j + 1];
    }
  }

  /** The text after the last dot is the suffix starting at `LastLabelStart`. */
  lemma TopLevelLabelStart(d: string)
    ensures LastLabelStart(d, RFind(d, '.') + 1)
    ensures forall k :: LastLabelStart(d, k) ==> k == RFind(d, '.') + 1
  {
  }

  /**
   * Whenever no TLD ends in a newline, `is_domain_valid` accepts exactly the
   * well-formed domains: non-empty, only `[a-z0-9.-]`, the text after the
   * last dot a listed TLD, none of ".-", "-.", "..", and no leading '-' or '.'.
   */
  lemma {:induction false} IsDomainValidIff(d: string, tlds: seq<string>)
    requires NoNewlineTerminatedTld(tlds)
    ensures IsDomainValid(d, tlds) <==> WellFormed(d, tlds)
  {
    ContainsPair(d, '.', '-');
    ContainsPair(d, '-', '.');
    ContainsPair(d, '.', '.');
    TopLevelLabelStart(d);
    var k := RFind(d, '.') + 1;
    if |d| >= 2 && d[|d| - 1] == '\n' {
      var top := TopLevelLabel(d);
      assert top[|top| - 1] == '\n';
      assert top !in tlds;
    }
    if |d| >= 1 {
      assert StartsWith(d, "-") <==> d[0] == '-';
      assert StartsWith(d, ".") <==> d[0] == '.';
    }
    if WellFormed(d, tlds) {
      assert LastLabelStart(d, k);
      assert TopLevelLabel(d) in tlds;
    }
  }

  /** After a dot, a text without dots is the top-level label. */
  lemma LabelAfterDot(p: string, t: string)
    requires !Contains(t, ".")
    ensures TopLevelLabel(p + "." + t) == t
  {
    var x := p + "." + t;
    ContainsIff(t, ".");
    forall j | |p| < j < |x| ensures x[j] != '.' {
      assert x[j] == t[j - |p| - 1];
      assert !OccursAt(t, ".", j - |p| - 1);
    }
    LastDotOf(x, |p|);
    assert x[|p| + 1..] == t;
  }

  /** A dot followed only by other characters is the last dot. */
  lemma LastDotOf(x: string, k: nat)
    requires k < |x| && x[k] == '.'
    requires forall j :: k < j < |x| ==> x[j] != '.'
    ensures RFind(x, '.') == k
  {
  }

  /** Every character is a lower-case ASCII letter. */
  predicate Letters(s: string) {
    forall i :: 0 <= i < |s| ==> 'a' <= s[i] <= 'z'
  }

  /** A non-empty name of letters, a dot and a listed TLD of letters pass the validator. */
  lemma SimpleDomainValid(name: string, tld: string, tlds: seq<string>)
    requires |name| > 0 && Letters(name) && Letters(tld)
    requires tld in tlds && NoNewlineTerminatedTld(tlds)
    ensures IsDomainValid(name + "." + tld, tlds)
    ensures TopLevelLabel(name + "." + tld) == tld
  {
    var d := name + "." + tld;
    var k := |name| + 1;
    IsDomainValidIff(d, tlds);
    assert d[k..] == tld;
    NoDot(tld);
    LabelAfterDot(name, tld);
    TopLevelLabelStart(d);
    SimpleNoForbiddenPair(name, tld);
    SimpleHostChars(name, tld);
    assert d[0] == name[0];
  }

  /** A text whose characters are no dots holds no ".". */
  lemma NoDot(t: string)
    requires forall j :: 0 <= j < |t| ==> t[j] != '.'
    ensures !Contains(t, ".")
  {
    ContainsIff(t, ".");
    forall j | 0 <= j < |t| ensures !OccursAt(t, ".", j) {
      assert t[j..j + 1][0] == t[j];
    }
  }

  /** Letters, one dot and letters hold no forbidden pair. */
  lemma SimpleNoForbiddenPair(name: string, tld: string)
    requires |name| > 0 && Letters(name) && Letters(tld)
    ensures var d := name + "." + tld; forall i :: 0 <= i < |d| - 1 ==> !ForbiddenPair(d[i], d[i + 1])
  {
    var d := name + "." + tld;
    forall i | 0 <= i < |d| - 1 ensures !ForbiddenPair(d[i], d[i + 1]) {
      if i < |name| - 1 {
        assert d[i] == name[i] && d[i + 1] == name[i + 1];
      } else if i == |name| - 1 {
        assert d[i] == name[i];
      } else if i == |name| {
        assert d[i + 1] == tld[0];
      } else {
        assert d[i] == tld[i - |name| - 1];
      }
    }
  }

  /** Letters, one dot and letters are host characters. */
  lemma SimpleHostChars(name: string, tld: string)
    requires Letters(name) && Letters(tld)
    ensures AllHostChars(name + "." + tld)
  {
    var d := name + "." + tld;
    forall i | 0 <= i < |d| ensures IsHostChar(d[i]) {
      if i < |name| {
        assert d[i] == name[i];
      } else if i > |name| {
        assert d[i] == tld[i - |name| - 1];
      }
    }
  }
}
