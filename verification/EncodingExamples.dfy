/** Elements and their bytes in the encoding of Appendix A of the Matter Core Specification. */
module EncodingExamples {
  import opened Bytes
  import opened TlvFormat

  lemma OneByte(n: nat)
    ensures WriteLE(n, 1) == [n % 256] && WriteLE(n, 0) == []
  {
  }

  lemma TwoBytes(n: nat)
    ensures WriteLE(n, 2) == [n % 256, n / 256 % 256]
  {
    assert WriteLE(n, 2) == [n % 256] + WriteLE(n / 256, 1);
  }

  lemma FourBytes(n: nat)
    ensures WriteLE(n, 4) == [n % 256, n / 256 % 256, n / 256 / 256 % 256, n / 256 / 256 / 256 % 256]
  {
    TwoBytes(n / 256 / 256);
    assert WriteLE(n / 256, 3) == [n / 256 % 256] + WriteLE(n / 256 / 256, 2);
    assert WriteLE(n, 4) == [n % 256] + WriteLE(n / 256, 3);
  }

  lemma EightBytes(n: nat)
    ensures var m := n / 256 / 256 / 256 / 256;
            WriteLE(n, 8) == WriteLE(n, 4) + WriteLE(m, 4)
  {
    var a, b, c := n / 256, n / 256 / 256, n / 256 / 256 / 256;
    var m := c / 256;
    assert WriteLE(c, 5) == [c % 256] + WriteLE(m, 4);
    assert WriteLE(b, 6) == [b % 256] + WriteLE(c, 5);
    assert WriteLE(a, 7) == [a % 256] + WriteLE(b, 6);
    assert WriteLE(n, 8) == [n % 256] + WriteLE(a, 7);
    FourBytes(n);
  }

  lemma Simple()
    ensures Encode(Leaf(Anonymous, Boolean(false))) == [0x08]
    ensures Encode(Leaf(Anonymous, Boolean(true))) == [0x09]
    ensures Encode(Leaf(Anonymous, Null)) == [0x14]
  {
  }

  lemma ShortIntegers()
    ensures Encode(Leaf(Anonymous, Signed(1, 42))) == [0x00, 0x2A]
    ensures Encode(Leaf(Anonymous, Signed(1, -17))) == [0x00, 0xEF]
    ensures Encode(Leaf(Anonymous, Unsigned(1, 42))) == [0x04, 0x2A]
    ensures Encode(Leaf(Anonymous, Signed(2, 42))) == [0x01, 0x2A, 0x00]
    ensures Encode(Leaf(Anonymous, Unsigned(2, 0x0102))) == [0x05, 0x02, 0x01]
  {
    hide WriteLE;
    Widths();
    OneByte(42);
    OneByte(0xEF);
    TwoBytes(42);
    TwoBytes(0x0102);
  }

  lemma LongIntegers()
    ensures Encode(Leaf(Anonymous, Signed(4, -170000))) == [0x02, 0xF0, 0x67, 0xFD, 0xFF]
    ensures Encode(Leaf(Anonymous, Unsigned(4, 0x01020304))) == [0x06, 0x04, 0x03, 0x02, 0x01]
    ensures Encode(Leaf(Anonymous, Signed(8, 40000000000))) == [0x03, 0x00, 0x90, 0x2F, 0x50, 0x09, 0x00, 0x00, 0x00]
    ensures Encode(Leaf(Anonymous, Unsigned(8, 40000000000))) == [0x07, 0x00, 0x90, 0x2F, 0x50, 0x09, 0x00, 0x00, 0x00]
  {
    hide WriteLE;
    Widths();
    FourBytes(0xFFFD67F0);
    FourBytes(0x01020304);
    EightBytes(40000000000);
    FourBytes(40000000000);
    FourBytes(9);
  }

  lemma Floats()
    ensures Encode(Leaf(Anonymous, Float(4, 0x418F3333))) == [0x0A, 0x33, 0x33, 0x8F, 0x41]
    ensures Encode(Leaf(Anonymous, Float(8, 0x4031E66666666666))) ==
            [0x0B, 0x66, 0x66, 0x66, 0x66, 0x66, 0xE6, 0x31, 0x40]
  {
    hide WriteLE;
    FourBytes(0x418F3333);
    EightBytes(0x4031E66666666666);
    FourBytes(0x4031E66666666666);
    FourBytes(0x4031E666);
  }

  lemma Strings()
    ensures Encode(Text(Anonymous, true, 1, 6, [0x48, 0x65, 0x6C, 0x6C, 0x6F, 0x21])) ==
            [0x0C, 0x06, 0x48, 0x65, 0x6C, 0x6C, 0x6F, 0x21]
    ensures Encode(Text(Anonymous, false, 1, 5, [0, 1, 2, 3, 4])) == [0x10, 0x05, 0, 1, 2, 3, 4]
    ensures Encode(Text(Anonymous, true, 2, 1, [0x21])) == [0x0D, 0x01, 0x00, 0x21]
    ensures Encode(Text(Anonymous, false, 4, 1, [0x21])) == [0x12, 0x01, 0x00, 0x00, 0x00, 0x21]
  {
    hide WriteLE;
    TwoBytes(1);
    FourBytes(1);
    OneByte(6);
    OneByte(5);
  }

  lemma EmptyContainers()
    ensures Encode(Container(Anonymous, STRUCTURE, [], Anonymous)) == [0x15, 0x18]
    ensures Encode(Container(Anonymous, ARRAY, [], Anonymous)) == [0x16, 0x18]
    ensures Encode(Container(Anonymous, PATH, [], Anonymous)) == [0x17, 0x18]
  {
    assert Head(Anonymous, END_OF_CONTAINER, 0) == [0x18];
  }

  /** The structure {0 = 42, 1 = -17}. */
  lemma ShortStructure()
    ensures Encode(Container(Anonymous, STRUCTURE, [Leaf(Context(0), Signed(1, 42)), Leaf(Context(1), Signed(1, -17))],
                             Anonymous))
            == [0x15, 0x20, 0x00, 0x2A, 0x20, 0x01, 0xEF, 0x18]
  {
    var a, b := Leaf(Context(0), Signed(1, 42)), Leaf(Context(1), Signed(1, -17));
    hide WriteLE;
    Widths();
    OneByte(0);
    OneByte(1);
    OneByte(42);
    OneByte(0xEF);
    assert Encode(a) == [0x20, 0x00, 0x2A] && Encode(b) == [0x20, 0x01, 0xEF];
    assert [a, b][1..] == [b] && [b][1..] == [] && EncodeAll([]) == [];
    assert EncodeAll([b]) == Encode(b) && EncodeAll([a, b]) == Encode(a) + Encode(b);
    assert Head(Anonymous, END_OF_CONTAINER, 0) == [0x18];
  }

  /** The number 42 under every form of tag. */
  lemma ShortTags()
    ensures Encode(Leaf(Anonymous, Unsigned(1, 42))) == [0x04, 0x2A]
    ensures Encode(Leaf(Context(1), Unsigned(1, 42))) == [0x24, 0x01, 0x2A]
    ensures Encode(Leaf(Common16(1), Unsigned(1, 42))) == [0x44, 0x01, 0x00, 0x2A]
    ensures Encode(Leaf(Common32(100000), Unsigned(1, 42))) == [0x64, 0xA0, 0x86, 0x01, 0x00, 0x2A]
  {
    hide WriteLE;
    OneByte(1);
    OneByte(42);
    TwoBytes(1);
    FourBytes(100000);
  }

  lemma ImplicitTags()
    ensures Encode(Leaf(Implicit16(1), Unsigned(1, 42))) == [0x84, 0x01, 0x00, 0x2A]
    ensures Encode(Leaf(Implicit32(100000), Unsigned(1, 42))) == [0xA4, 0xA0, 0x86, 0x01, 0x00, 0x2A]
  {
    hide WriteLE;
    OneByte(42);
    TwoBytes(1);
    FourBytes(100000);
  }

  lemma LongTags()
    ensures Encode(Leaf(Full48(0xFFF1, 0xDEED, 1), Unsigned(1, 42))) == [0xC4, 0xF1, 0xFF, 0xED, 0xDE, 0x01, 0x00, 0x2A]
    ensures Encode(Leaf(Full64(0xFFF1, 0xDEED, 0xAA55FEED), Unsigned(1, 42))) ==
            [0xE4, 0xF1, 0xFF, 0xED, 0xDE, 0xED, 0xFE, 0x55, 0xAA, 0x2A]
  {
    hide WriteLE;
    OneByte(42);
    TwoBytes(1);
    TwoBytes(0xFFF1);
    TwoBytes(0xDEED);
    FourBytes(0xAA55FEED);
  }

  /** The numbers the reader reports for them, with an implicit profile of 0xFFF2. */
  lemma TagNumbers()
    ensures Anonymous.Number(0xFFF2) == 0xFFFF_FFFF_FFFF_FFFF
    ensures Context(1).Number(0xFFF2) == 0xFFFF_FFFF_0000_0001
    ensures Common16(1).Number(0xFFF2) == 1 && Common32(100000).Number(0xFFF2) == 100000
    ensures Implicit16(1).Number(0xFFF2) == 0x0000_FFF2_0000_0001
    ensures Implicit16(1).Number(0xFFFF_FFFF) == Implicit32(1).Number(0xFFFF_FFFF) == 0xFFFF_FFFF_FFFF_FFFE
    ensures Full48(0xFFF1, 0xDEED, 1).Number(0xFFF2) == 0xFFF1_DEED_0000_0001
    ensures Full64(0xFFF1, 0xDEED, 0xAA55FEED).Number(0xFFF2) == 0xFFF1_DEED_AA55_FEED
  {
  }
}
