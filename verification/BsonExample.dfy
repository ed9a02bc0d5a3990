/**
  Documents written out byte by byte.
 */
module BsonExample {
  import opened Bytes
  import opened BsonFormat

  lemma OneElement(e: Element)
    ensures ListBytes([e]) == ElementBytes(e)
  {
    assert [e][1..] == [];
    assert ElementBytes(e) + [] == ElementBytes(e);
  }

  /** {"hello": "world"}, the first example of the BSON specification. */
  lemma HelloWorld()
    ensures Encode([StringElement([0x68, 0x65, 0x6c, 0x6c, 0x6f], [0x77, 0x6f, 0x72, 0x6c, 0x64])]) ==
            [0x16, 0, 0, 0]
            + ([0x02, 0x68, 0x65, 0x6c, 0x6c, 0x6f, 0] + [0x06, 0, 0, 0, 0x77, 0x6f, 0x72, 0x6c, 0x64, 0])
            + [0]
  {
    var e := StringElement([0x68, 0x65, 0x6c, 0x6c, 0x6f], [0x77, 0x6f, 0x72, 0x6c, 0x64]);
    HelloWorldElement();
    hide ElementBytes, StringElement, ListBytes, LE32;
    OneElement(e);
    HelloWorldSize();
  }

  lemma HelloWorldSize()
    ensures LE32(0x16) == [0x16, 0, 0, 0]
  {
  }

  lemma HelloWorldElement()
    ensures ElementBytes(StringElement([0x68, 0x65, 0x6c, 0x6c, 0x6f], [0x77, 0x6f, 0x72, 0x6c, 0x64])) ==
            [0x02, 0x68, 0x65, 0x6c, 0x6c, 0x6f, 0] + [0x06, 0, 0, 0, 0x77, 0x6f, 0x72, 0x6c, 0x64, 0]
  {
    var e := StringElement([0x68, 0x65, 0x6c, 0x6c, 0x6f], [0x77, 0x6f, 0x72, 0x6c, 0x64]);
    assert LE32(6) == [6, 0, 0, 0];
    assert e.body == [6, 0, 0, 0, 0x77, 0x6f, 0x72, 0x6c, 0x64, 0];
  }

  /** One element of each other type the setters write, here and in the next lemma. */
  lemma OneOfEach()
    ensures ElementBytes(BooleanElement([0x61], 7)) == [0x08, 0x61, 0, 1]
    ensures ElementBytes(BooleanElement([0x61], 0)) == [0x08, 0x61, 0, 0]
    ensures ElementBytes(Int32Element([0x62], -2)) == [0x10, 0x62, 0, 0xfe, 0xff, 0xff, 0xff]
    ensures ElementBytes(NullElement([0x63])) == [0x0a, 0x63, 0]
  {
    assert LE32(-2) == [0xfe, 0xff, 0xff, 0xff];
  }

  lemma OneOfEachLonger()
    ensures ElementBytes(BinaryElement([0x64], [1, 2])) == [0x05, 0x64, 0, 2, 0, 0, 0, 0, 1, 2]
    ensures ElementBytes(DocumentElement([0x65], [])) == [0x03, 0x65, 0, 5, 0, 0, 0, 0]
    ensures ElementBytes(ArrayElement([0x66], [])) == [0x04, 0x66, 0, 5, 0, 0, 0, 0]
  {
    assert LE32(2) == [2, 0, 0, 0] && LE32(5) == [5, 0, 0, 0];
    assert Encode([]) == [5, 0, 0, 0, 0];
  }
}
