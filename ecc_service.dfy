/**
 * The checksum service: a left fold over a string's characters, and the
 * default checksum, the XOR of all characters kept as a 16-bit char.
 */
module EccService {
  import opened JavaText

  /** The fold `apply` computes: `f` applied to each character, left to right. */
  function Fold<R>(content: JString, seed: R, f: (R, JChar) -> R): R
  {
    if content == [] then seed
    else f(Fold(content[..|content| - 1], seed, f), content[|content| - 1])
  }

  /** `ECCService.apply`: the for loop over the characters. */
  method Apply<R>(content: JString, seed: R, f: (R, JChar) -> R) returns (result: R)
    ensures result == Fold(content, seed, f)
  {
    result := seed;
    var i := 0;
    while i < |content|
      invariant 0 <= i <= |content|
      invariant result == Fold(content[..i], seed, f)
    {
      assert content[..i + 1][..i] == content[..i];
      result := f(result, content[i]);
      i := i + 1;
    }
    assert content[..i] == content;
  }

  /** The step of the default checksum: `(char) (result ^ character)`. */
  function XorStep(result: JChar, character: JChar): JChar
  {
    result ^ character
  }

  /** `ECCService.xor`: the fold of XorStep seeded with Character.MIN_VALUE. */
  function Xor(content: JString): JChar
  {
    Fold(content, 0 as JChar, XorStep)
  }

  /** The checksum of the empty string is the NUL character. */
  lemma XorOfEmpty()
    ensures Xor([]) == 0
  {
  }

  /** Appending one character XORs it into the checksum. */
  lemma XorSnoc(s: JString, c: JChar)
    ensures Xor(s + [c]) == Xor(s) ^ c
  {
    assert (s + [c])[..|s + [c]| - 1] == s;
  }

  /** The checksum of a concatenation is the XOR of the parts' checksums. */
  lemma {:induction false} XorAppend(a: JString, b: JString)
    ensures Xor(a + b) == Xor(a) ^ Xor(b)
    decreases |b|
  {
    if b == [] {
      assert a + b == a;
      XorOfEmpty();
    } else {
      var b' := b[..|b| - 1];
      var c := b[|b| - 1];
      assert a + b == (a + b') + [c];
      assert b == b' + [c];
      XorSnoc(a + b', c);
      XorSnoc(b', c);
      XorAppend(a, b');
    }
  }

  /** Replacing the character at `k` by `c` changes the checksum by `s[k] ^ c`. */
  lemma XorReplace(s: JString, k: nat, c: JChar)
    requires k < |s|
    ensures Xor(s[k := c]) == Xor(s) ^ s[k] ^ c
  {
    var pre, post := s[..k], s[k + 1..];
    assert s == pre + [s[k]] + post;
    assert s[k := c] == pre + [c] + post;
    XorAppend(pre + [s[k]], post);
    XorAppend(pre + [c], post);
    XorSnoc(pre, s[k]);
    XorSnoc(pre, c);
  }

  /** Any single-character change alters the default checksum. */
  lemma XorDetectsSingleChange(s: JString, k: nat, c: JChar)
    requires k < |s| && s[k] != c
    ensures Xor(s[k := c]) != Xor(s)
  {
    XorReplace(s, k, c);
  }

  /** The checksum of four characters. */
  lemma XorOfFour(a: JChar, b: JChar, c: JChar, d: JChar)
    ensures Xor([a, b, c, d]) == a ^ b ^ c ^ d
  {
    assert [a] == [] + [a];
    assert [a, b] == [a] + [b];
    assert [a, b, c] == [a, b] + [c];
    assert [a, b, c, d] == [a, b, c] + [d];
    XorSnoc([], a);
    XorSnoc([a], b);
    XorSnoc([a, b], c);
    XorSnoc([a, b, c], d);
  }

  /** The code units of "coming-*eccTest1" followed by ETX, the test suite's ECC block. */
  const TestBlock: JString :=
    [0x63, 0x6F, 0x6D, 0x69, 0x6E, 0x67, 0x2D, 0x2A, 0x65, 0x63, 0x63, 0x54, 0x65, 0x73, 0x74, 0x31, 0x03]

  lemma TestBlockUnits()
    ensures J("coming-*eccTest1") + [0x03] == TestBlock
    ensures J("coming-*eccTest2") + [0x03] == TestBlock[15 := 0x32]
    ensures J("coming-*eccTest3") + [0x03] == TestBlock[15 := 0x33]
  {
  }

  /** The checksum of the test block is 'g'. */
  lemma XorOfTestBlock()
    ensures Xor(TestBlock) == 0x67
  {
    var block := TestBlock;
    var p1, p2, p3, p4 := block[..4], block[4..8], block[8..12], block[12..16];
    assert block == p1 + p2 + p3 + p4 + [0x03];
    assert p1 == [p1[0], p1[1], p1[2], p1[3]] && p2 == [p2[0], p2[1], p2[2], p2[3]];
    assert p3 == [p3[0], p3[1], p3[2], p3[3]] && p4 == [p4[0], p4[1], p4[2], p4[3]];
    XorOfFour(p1[0], p1[1], p1[2], p1[3]);
    XorOfFour(p2[0], p2[1], p2[2], p2[3]);
    XorOfFour(p3[0], p3[1], p3[2], p3[3]);
    XorOfFour(p4[0], p4[1], p4[2], p4[3]);
    XorAppend(p1, p2);
    XorAppend(p1 + p2, p3);
    XorAppend(p1 + p2 + p3, p4);
    XorSnoc(p1 + p2 + p3 + p4, 0x03);
    assert Xor(p1) == 0x08 && Xor(p2) == 0x0E && Xor(p3) == 0x31 && Xor(p4) == 0x53;
  }

  /**
   * The checksums of the test suite's ECC message: the block "coming-*eccTest"
   * plus one digit and ETX gives 'g' for 1, 'd' for 2 and 'e' for 3. The last
   * two follow from the first by the single-change rule.
   */
  lemma XorOfTestBlocks()
    ensures Xor(J("coming-*eccTest1") + [0x03]) == Unit('g')
    ensures Xor(J("coming-*eccTest2") + [0x03]) == Unit('d')
    ensures Xor(J("coming-*eccTest3") + [0x03]) == Unit('e')
  {
    TestBlockUnits();
    TestBlockChecksums();
    ResultLetters();
  }

  /** The three blocks differ only in the digit before ETX. */
  lemma TestBlockChecksums()
    ensures Xor(TestBlock) == 0x67
    ensures Xor(TestBlock[15 := 0x32]) == 0x64 && Xor(TestBlock[15 := 0x33]) == 0x65
  {
    XorOfTestBlock();
    XorReplace(TestBlock, 15, 0x32);
    XorReplace(TestBlock, 15, 0x33);
    assert TestBlock[15] == 0x31;
  }

  lemma ResultLetters()
    ensures Unit('g') == 0x67 && Unit('d') == 0x64 && Unit('e') == 0x65
  {
  }
}
