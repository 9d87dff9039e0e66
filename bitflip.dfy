/** The bit-flip generator: every character with one of its low seven bits flipped. */
module BitFlip {
  import opened Lists
  import opened Edits
  import opened Bytes

  /** `b ^ (1 << k)`. */
  function Flip(b: bv8, k: nat): bv8
    requires k < 8
  {
    b ^ (1 << k)
  }

  /** `bitflipbyte`: the byte with bit `k` flipped, for `k` from 0 to 6. */
  method BitFlipByte(inputByte: bv8) returns (result: seq<bv8>)
    ensures |result| == 7
    ensures forall k :: 0 <= k < 7 ==> result[k] == Flip(inputByte, k)
  {
    result := [];
    var mask: bv8 := 1;
    for i := 0 to 7
      invariant |result| == i
      invariant mask == 1 << i
      invariant forall k :: 0 <= k < i ==> result[k] == Flip(inputByte, k)
    {
      result := result + [inputByte ^ mask];
      MaskStep(i);
      mask := mask << 1;
    }
  }

  /** Shifting the mask left once moves its bit one place up. */
  lemma MaskStep(i: nat)
    requires i < 7
    ensures ((1 as bv8) << i) << 1 == (1 as bv8) << (i + 1)
  {
  }

  /**
   * A flip of bit `k < 7` changes exactly that bit: the value differs from
   * the byte, bit 7 is untouched, and flipping again restores the byte.
   */
  lemma FlipOneLowBit(b: bv8, k: nat)
    requires k < 7
    ensures Flip(b, k) != b
    ensures Flip(b, k) ^ b == 1 << k
    ensures Flip(b, k) & 0x80 == b & 0x80
    ensures Flip(Flip(b, k), k) == b
  {
  }

  /** `character.encode("UTF-8")[0]`: the first byte of the UTF-8 encoding. */
  function Utf8LeadByte(c: char): (b: bv8)
    ensures c < '\U{80}' <==> b < 0x80
    ensures c < '\U{80}' ==> b as int == c as int
  {
    var cp := c as int;
    if cp < 0x80 then SmallByte(cp)
    else if cp < 0x800 then 0xC0 + SmallByte(cp / 0x40)
    else if cp < 0x10000 then 0xE0 + SmallByte(cp / 0x1000)
    else 0xF0 + SmallByte(cp / 0x40000)
  }

  /** `chr(b)` for a byte value. */
  function Chr(b: bv8): char {
    (b as int) as char
  }

  /** `chr(flipped)` for the lead byte of `c` with bit `k` flipped. */
  function FlipChar(c: char, k: nat): char
    requires k < 7
  {
    Chr(Flip(Utf8LeadByte(c), k))
  }

  /** Below 0x80 a low-bit flip stays below 0x80 and changes the byte. */
  lemma FlipBelow80(b: bv8, k: nat)
    requires k < 7 && b < 0x80
    ensures Flip(b, k) < 0x80 && Flip(b, k) != b
  {
  }

  /** An ASCII character flips to a different ASCII character. */
  lemma FlipAscii(c: char, k: nat)
    requires k < 7 && c < '\U{80}'
    ensures FlipChar(c, k) != c && FlipChar(c, k) < '\U{80}'
  {
    var b := Utf8LeadByte(c);
    FlipBelow80(b, k);
    ByteBelow(Flip(b, k));
    ByteValues(Flip(b, k), b);
  }

  /** For non-ASCII text the lead byte is what gets flipped: 'ã' (U+00E3, lead byte 0xC3) flips back to itself at bit 5. */
  lemma FlipNonAsciiCanReturnInput()
    ensures FlipChar('\U{e3}', 5) == '\U{e3}'
  {
    assert Utf8LeadByte('\U{e3}') == 0xC3;
    assert Flip(0xC3, 5) == 0xE3;
  }

  function BitFlipBlock(s: string, i: nat): seq<string>
    requires i < |s|
  {
    seq(7, k requires 0 <= k < 7 => Substitute(s, i, [FlipChar(s[i], k)]))
  }

  function BitFlipBlocks(s: string): seq<seq<string>> {
    seq(|s|, i requires 0 <= i < |s| => BitFlipBlock(s, i))
  }

  /** Position by position, the character replaced by each of its seven flips. */
  function BitFlips(s: string): seq<string> {
    Flatten(BitFlipBlocks(s))
  }

  /** `bitflipstring`. */
  method BitFlipString(input: string) returns (result: seq<string>)
    ensures result == BitFlips(input)
  {
    ghost var blocks := BitFlipBlocks(input);
    result := [];
    var i := 0;
    for idx := 0 to |input|
      invariant i == idx
      invariant result == Flatten(blocks[..idx])
    {
      FlattenSnoc(blocks, idx);
      var character := input[idx];
      var flipped := BitFlipByte(Utf8LeadByte(character));
      ghost var block := BitFlipBlock(input, idx);
      assert blocks[idx] == block;
      ghost var before := result;
      for k := 0 to |flipped|
        invariant result == before + block[..k]
      {
        assert Chr(flipped[k]) == FlipChar(character, k);
        assert block[k] == input[..i] + [Chr(flipped[k])] + input[i + 1..];
        result := result + [input[..i] + [Chr(flipped[k])] + input[i + 1..]];
      }
      assert block[..7] == block;
      i := i + 1;
    }
    assert blocks[..|input|] == blocks;
  }

  /**
   * `7 * |s|` candidates; candidate `7 * i + k` is `s` with position `i`
   * replaced by its flip at bit `k`, so it keeps the length and agrees with
   * `s` everywhere else, and for an ASCII character it differs from `s` at `i`.
   */
  lemma BitFlipsShape(s: string)
    ensures |BitFlips(s)| == 7 * |s|
    ensures forall i, k :: 0 <= i < |s| && 0 <= k < 7 ==>
      && BitFlips(s)[7 * i + k] == Substitute(s, i, [FlipChar(s[i], k)])
      && AgreesExcept(BitFlips(s)[7 * i + k], s, i)
      && (s[i] < '\U{80}' ==> BitFlips(s)[7 * i + k][i] != s[i])
  {
    var blocks := BitFlipBlocks(s);
    FlattenUniformLength(blocks, 7);
    forall i, k | 0 <= i < |s| && 0 <= k < 7
      ensures BitFlips(s)[7 * i + k] == Substitute(s, i, [FlipChar(s[i], k)])
      ensures AgreesExcept(BitFlips(s)[7 * i + k], s, i)
      ensures s[i] < '\U{80}' ==> BitFlips(s)[7 * i + k][i] != s[i]
    {
      FlattenUniformAt(blocks, 7, i, k);
      assert blocks[i][k] == Substitute(s, i, [FlipChar(s[i], k)]);
      SubstituteOneChar(s, i, FlipChar(s[i], k));
      if s[i] < '\U{80}' {
        FlipAscii(s[i], k);
      }
    }
  }
}
