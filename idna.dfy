/**
 * The internationalised-domain-name codec the engine calls through Python's
 * "idna" codec: ToASCII and ToUnicode of RFC 3490, with Nameprep (RFC 3491)
 * and Punycode (RFC 3492).  The codec itself is foreign code, so the model
 * takes it as a pair of functions; `None` stands for the UnicodeError it
 * raises.
 */
module Idna {
  import opened Wrappers
  import opened Lists
  import Text

  datatype Codec = Codec(toAscii: string -> Option<string>, toUnicode: string -> Option<string>)

  /**
   * The round-trip filter used when the tables are built: the glyph,
   * wrapped as "a" + glyph + "b", encodes without error and decodes back to
   * exactly the same text.
   */
  predicate RoundTrips(codec: Codec, glyph: string) {
    var wrapped := "a" + glyph + "b";
    match codec.toAscii(wrapped)
    case None => false
    case Some(ascii) => codec.toUnicode(ascii) == Some(wrapped)
  }

  /**
   * Encodes every candidate in order, as a loop calling the codec does:
   * the first failure aborts the whole list.
   */
  function EncodeAll(codec: Codec, xs: seq<string>): Option<seq<string>> {
    if xs == [] then Some([])
    else
      match EncodeAll(codec, xs[..|xs| - 1])
      case None => None
      case Some(init) =>
        match codec.toAscii(xs[|xs| - 1])
        case None => None
        case Some(last) => Some(init + [last])
  }

  /**
   * The list encodes exactly when each member does, and then member by
   * member, in order.
   */
  lemma {:induction false} EncodeAllMeaning(codec: Codec, xs: seq<string>)
    ensures EncodeAll(codec, xs).Some? <==> forall i :: 0 <= i < |xs| ==> codec.toAscii(xs[i]).Some?
    ensures EncodeAll(codec, xs).Some? ==>
      var ys := EncodeAll(codec, xs).value;
      |ys| == |xs| && forall i :: 0 <= i < |xs| ==> codec.toAscii(xs[i]) == Some(ys[i])
  {
    if xs != [] {
      var init := xs[..|xs| - 1];
      EncodeAllMeaning(codec, init);
      assert forall i :: 0 <= i < |init| ==> init[i] == xs[i];
    }
  }

  /** The encodings of the members of `xs` that encode. */
  ghost function Encoded(codec: Codec, xs: set<string>): set<string> {
    set x | x in xs && codec.toAscii(x).Some? :: codec.toAscii(x).value
  }

  /** Every member of `xs` encodes. */
  ghost predicate AllEncode(codec: Codec, xs: set<string>) {
    forall x :: x in xs ==> codec.toAscii(x).Some?
  }

  /** Every member of `xs` encodes, and `typos` holds exactly their encodings. */
  ghost predicate EncodedAs(codec: Codec, xs: set<string>, typos: seq<string>) {
    AllEncode(codec, xs) && SetOf(typos) == Encoded(codec, xs)
  }

  /** Encodes every member of a set of candidates; `None` if any encoding fails. */
  ghost function EncodeSet(codec: Codec, xs: set<string>): (r: Option<set<string>>)
    ensures r.None? <==> exists x :: x in xs && codec.toAscii(x).None?
    ensures r.Some? ==> forall y :: y in r.value <==> exists x :: x in xs && codec.toAscii(x) == Some(y)
  {
    if AllEncode(codec, xs) then Some(Encoded(codec, xs)) else None
  }

  /** A member that fails to encode fails every set holding it. */
  lemma EncodeFails(codec: Codec, xs: set<string>, ys: set<string>, x: string)
    requires x in xs && xs <= ys && codec.toAscii(x).None?
    ensures !AllEncode(codec, ys)
  {
  }

  /** Encoding one more candidate adds its encoding. */
  lemma EncodedAdd(codec: Codec, xs: set<string>, x: string, y: string)
    requires codec.toAscii(x) == Some(y)
    ensures Encoded(codec, xs + {x}) == Encoded(codec, xs) + {y}
  {
  }

  /** Encoding one more element of a list appends its encoding. */
  lemma EncodeAllSnoc(codec: Codec, xs: seq<string>, x: string, ys: seq<string>, y: string)
    requires EncodeAll(codec, xs) == Some(ys) && codec.toAscii(x) == Some(y)
    ensures EncodeAll(codec, xs + [x]) == Some(ys + [y])
  {
    assert (xs + [x])[..|xs|] == xs;
  }

  /** Every code point is below 128. */
  predicate IsAscii(s: string) {
    forall i :: 0 <= i < |s| ==> s[i] < '\U{80}'
  }

  /**
   * Python's idna decoder returns pure ASCII input that holds no "xn--"
   * unchanged: only ACE labels are Punycode-decoded.
   */
  ghost predicate DecodesPlainAsciiUnchanged(codec: Codec) {
    forall s :: IsAscii(s) && !Text.Contains(s, "xn--") ==> codec.toUnicode(s) == Some(s)
  }
}
