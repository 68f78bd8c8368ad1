/** Known bytes: small examples of every format, byte by byte. */
module Samples {
  import opened Bytes
  import opened Wrappers
  import opened Format
  import opened Varlena
  import opened Compressor
  import opened Page
  import opened Toast
  import opened Sql
  import opened Success

  /** A literal, and a tag of 98 bytes from 1 back: a control byte with the second bit set, the
      literal, and a tag with its length in the third byte. */
  lemma KnownPayload()
    ensures Serialize([Literal(97), Tag(98, 1)]) == [2, 97, 15, 1, 80]
  {
    var toks := [Literal(97), Tag(98, 1)];
    assert toks[1..] == [Tag(98, 1)] && toks[1..][1..] == [];
    assert Flat(toks[1..]) == [15, 1, 80] + [];
    assert Flat(toks) == [97] + [15, 1, 80];
    assert ControlByte(toks[1..][1..]) == 0 && ControlByte(toks[1..]) == 1 && ControlByte(toks) == 2;
  }

  /** A tag of 10 bytes from 2475 back, 0x9AB in hexadecimal: 0x97, 0xAB. */
  lemma KnownTag()
    ensures TokenBytes(Tag(10, 2475)) == [151, 171]
  {
  }

  /** 99 letters a, as the default strategy stores them: the length word with the compression mark, the
      raw size, the payload. */
  lemma KnownImage()
    ensures Compressed(Success.Run(97, 99), None).Some?
    ensures Image(Success.Run(97, 99), Compressed(Success.Run(97, 99), None).value)
         == [54, 0, 0, 0, 99, 0, 0, 0, 2, 97, 15, 1, 80]
  {
    hide Compressed, Serialize, LengthWord, Success.Run, Image;
    DefaultStoresRuns(97, 99);
    KnownPayload();
    ImageOfFive(Success.Run(97, 99), [Literal(97), Tag(98, 1)], [2, 97, 15, 1, 80]);
  }

  lemma ImageOfFive(src: seq<Byte>, toks: seq<Token>, payload: seq<Byte>)
    requires |src| == 99 && |payload| == 5 && Serialize(toks) == payload
    ensures Image(src, toks) == [54, 0, 0, 0, 99, 0, 0, 0] + payload
  {
    hide Serialize, LengthWord;
    LengthWordIs(13);
    assert Le32(54) == [54, 0, 0, 0] && Le32(99) == [99, 0, 0, 0];
    hide Le32;
  }

  /** A TOAST pointer: mark, length, raw size 130, stored size -2, value 7, table 9. */
  lemma KnownPointer()
    ensures PointerAt([1, 18, 130, 0, 0, 0, 254, 255, 255, 255, 7, 0, 0, 0, 9, 0, 0, 0], 0) == Pointer(130, -2, 7, 9)
  {
  }

  /** Four bytes with either plain header. */
  lemma KnownVarlenas(file: seq<Byte>, failed: bool, m: Index)
    ensures BuiltBytes(file, failed, m, [32, 0, 0, 0, 1, 2, 3, 4], 0) == Ok([1, 2, 3, 4])
    ensures BuiltBytes(file, failed, m, [11, 1, 2, 3, 4], 0) == Ok([1, 2, 3, 4])
  {
    var long, short: seq<Byte> := [32, 0, 0, 0, 1, 2, 3, 4], [11, 1, 2, 3, 4];
    assert long[4..8] == [1, 2, 3, 4] && short[1..5] == [1, 2, 3, 4];
  }

  /** The script of no rows and of two. */
  lemma KnownScripts(a: string, b: string)
    ensures ScriptOf([]) == [Begin, Semicolon, Commit]
    ensures ScriptOf([a, b]) == [Begin, Piece.Insert, Row(a), Comma, Row(b), Semicolon, Commit]
  {
    assert [a, b][1..] == [b] && [b][1..] == [];
    assert Body(2, []) == [] && Body(1, [b]) == [Comma] + [Row(b)] + [];
    assert Body(0, [a, b]) == [Piece.Insert] + [Row(a)] + ([Comma] + [Row(b)]);
  }

  /** The texts of a null, and of a string with a quote and a backslash. */
  lemma KnownTexts()
    ensures SqlText(None) == "NULL"
    ensures SqlText(Some(['a', '\'', '\\'])) == ['E', '\'', 'a', '\'', '\'', '\\', '\\', '\'']
  {
    var s := ['a', '\'', '\\'];
    hide Escaped;
    assert s[..3] == s;
    EscapedOfThree('a', '\'', '\\');
    assert EscapedChar('a') == ['a'] && EscapedChar('\'') == ['\'', '\''] && EscapedChar('\\') == ['\\', '\\'];
  }

  lemma EscapedOfThree(a: char, b: char, c: char)
    ensures Escaped([a, b, c]) == EscapedChar(a) + EscapedChar(b) + EscapedChar(c)
  {
    var s := [a, b, c];
    assert Escaped(s[..0]) == [];
    hide Escaped, EscapedChar;
    EscapedStep(s, 0);
    EscapedStep(s, 1);
    EscapedStep(s, 2);
    assert s[..3] == s;
    assert [] + EscapedChar(a) == EscapedChar(a);
  }
}
