/** Emitting tokens: a control byte is reserved first and patched in later. */
module Writer {
  import opened Bytes
  import opened Format

  const HEADER := 8

  /** The local that takes the place of the first control byte. */
  const DUMMY := -1

  /** A buffer with tokens half written: everything before the current control byte, at
      `ctrlp`, is final; the byte itself is still in `ctrlb`, `ctrl` is the bit of the next
      token. `done` are the tokens of whole groups, `cur` those of the current one. */
  ghost predicate Staged(buf: seq<Byte>, bp: nat, ctrlp: int, ctrlb: Byte, ctrl: Byte,
                         done: seq<Token>, cur: seq<Token>)
  {
    && HEADER <= bp <= |buf| && |done| % 8 == 0 && |cur| <= 8
    && ctrlb == ControlByte(cur)
    && (ctrlp == DUMMY ==> done == [] && cur == [] && bp == HEADER && ctrl == 0)
    && (ctrlp != DUMMY ==>
          && HEADER <= ctrlp < bp && ctrl == Pow2(|cur|) % 256
          && buf[HEADER..ctrlp] == Serialize(done) && buf[ctrlp + 1..bp] == Flat(cur))
  }

  lemma SliceUpdate(buf: seq<Byte>, lo: nat, at: nat, hi: nat, x: Byte)
    requires lo <= at < hi <= |buf|
    ensures buf[at := x][lo..hi] == buf[lo..at] + ([x] + buf[at + 1..hi])
  {
  }

  lemma SliceGrow(buf: seq<Byte>, buf': seq<Byte>, lo: nat, mid: nat, hi: nat)
    requires lo <= mid <= |buf| && mid <= hi <= |buf'| && buf'[..mid] == buf[..mid]
    ensures buf'[lo..mid] == buf[lo..mid] && buf'[lo..hi] == buf[lo..mid] + buf'[mid..hi]
  {
    assert buf'[lo..mid] == buf'[..mid][lo..] && buf[lo..mid] == buf[..mid][lo..];
  }

  /** With the pending control byte put in its place, the bytes emitted are exactly the
      serialization of the tokens emitted. */
  lemma PatchedIsSerialized(buf: seq<Byte>, bp: nat, ctrlp: int, ctrlb: Byte, ctrl: Byte,
                            done: seq<Token>, cur: seq<Token>)
    requires Staged(buf, bp, ctrlp, ctrlb, ctrl, done, cur) && ctrlp != DUMMY && cur != []
    ensures buf[ctrlp := ctrlb][HEADER..bp] == Serialize(done + cur)
  {
    SerializeAppend(done, cur);
    assert Serialize(cur) == Group(cur);
    hide Serialize, Flat, ControlByte;
    SliceUpdate(buf, HEADER, ctrlp, bp, ctrlb);
  }

  lemma StageGroup(buf: seq<Byte>, bp: nat, ctrlp: int, ctrlb: Byte, ctrl: Byte,
                   done: seq<Token>, cur: seq<Token>, buf': seq<Byte>)
    requires Staged(buf, bp, ctrlp, ctrlb, ctrl, done, cur) && bp < |buf|
    requires |cur| == if ctrlp == DUMMY then 0 else 8
    requires buf' == if ctrlp == DUMMY then buf else buf[ctrlp := ctrlb]
    ensures Staged(buf', bp + 1, bp, 0, 1, done + cur, [])
  {
    if ctrlp == DUMMY {
      assert Serialize(done + cur) == [];
    } else {
      PatchedIsSerialized(buf, bp, ctrlp, ctrlb, ctrl, done, cur);
    }
    assert Pow2(0) == 1 && ControlByte([]) == 0 && Flat([]) == [];
    hide Serialize, Flat, ControlByte;
  }

  /** The control bit is 0 exactly before the first group and after a full one. */
  lemma GroupIsFull(buf: seq<Byte>, bp: nat, ctrlp: int, ctrlb: Byte, ctrl: Byte, done: seq<Token>, cur: seq<Token>)
    requires Staged(buf, bp, ctrlp, ctrlb, ctrl, done, cur)
    ensures ctrl % 256 == 0 <==> ctrlp == DUMMY || |cur| == 8
    ensures |cur| <= 8 && HEADER <= bp <= |buf| && (if ctrlp == DUMMY then cur == [] else HEADER <= ctrlp < bp)
  {
    hide Serialize, Flat, ControlByte, Pow2;
    Pow2Byte(|cur|);
  }

  lemma AppendFlat(cur: seq<Token>, t: Token)
    ensures Flat(cur + [t]) == Flat(cur) + TokenBytes(t)
  {
    FlatAppend(cur, [t]);
    assert Flat([t]) == TokenBytes(t) + Flat([]);
  }

  lemma AppendControl(cur: seq<Token>, ctrlb: Byte, ctrl: Byte, t: Token)
    requires |cur| < 8 && ctrlb == ControlByte(cur) && ctrl == Pow2(|cur|) % 256
    ensures ctrl * 2 % 256 == Pow2(|cur| + 1) % 256
    ensures ControlByte(cur + [t]) == (if t.Tag? then BitOr(ctrlb, ctrl) else ctrlb) < 256
  {
    hide ControlByte, BitOr, Pow2;
    Pow2Byte(|cur|);
    Pow2Double(|cur|);
    BitOrTop(|cur|, ctrlb);
    ControlByteAppend(cur, t);
  }

  lemma StageToken(buf: seq<Byte>, bp: nat, ctrlp: int, ctrlb: Byte, ctrl: Byte,
                   done: seq<Token>, cur: seq<Token>, t: Token, buf': seq<Byte>, bp': nat)
    requires Staged(buf, bp, ctrlp, ctrlb, ctrl, done, cur) && ctrlp != DUMMY && |cur| < 8
    requires bp <= bp' <= |buf'| && buf'[..bp] == buf[..bp] && buf'[bp..bp'] == TokenBytes(t)
    ensures (if t.Tag? then BitOr(ctrlb, ctrl) else ctrlb) < 256
    ensures Staged(buf', bp', ctrlp, if t.Tag? then BitOr(ctrlb, ctrl) else ctrlb, ctrl * 2 % 256, done, cur + [t])
  {
    AppendControl(cur, ctrlb, ctrl, t);
    AppendFlat(cur, t);
    assert |cur + [t]| == |cur| + 1;
    hide Serialize, Flat, ControlByte, BitOr, TokenBytes, Pow2;
    SliceGrow(buf, buf', HEADER, ctrlp, ctrlp) by { assert buf'[..ctrlp] == buf'[..bp][..ctrlp] == buf[..ctrlp]; }
    SliceGrow(buf, buf', ctrlp + 1, bp, bp');
  }

  class TokenWriter {
    const dest: array<Byte>
    var bp: nat
    var ctrlp: int
    var ctrlDummy: Byte
    var ctrlb: Byte
    var ctrl: Byte
    ghost var done: seq<Token>
    ghost var cur: seq<Token>

    /** Between two tokens no control byte is reserved in vain. */
    ghost predicate Valid()
      reads this, dest
    {
      Staged(dest[..], bp, ctrlp, ctrlb, ctrl, done, cur) && (ctrlp == DUMMY || cur != [])
    }

    /** The tokens emitted. */
    ghost function Tokens(): seq<Token>
      reads this
    {
      done + cur
    }

    /** The bytes emitted, the pending control byte patched in. */
    ghost function Patched(): seq<Byte>
      requires Valid()
      reads this, dest
    {
      if ctrlp == DUMMY then [] else dest[..][ctrlp := ctrlb][HEADER..bp]
    }

    constructor (buffer: array<Byte>)
      requires buffer.Length >= HEADER
      ensures Valid() && Tokens() == [] && dest == buffer && bp == HEADER
    {
      dest := buffer;
      bp, ctrlp, ctrlDummy, ctrlb, ctrl := HEADER, DUMMY, 0, 0, 0;
      done, cur := [], [];
    }

    /** At every loop head, the bytes emitted are the serialization of the tokens emitted. */
    lemma PatchedIs()
      requires Valid()
      ensures Patched() == Serialize(Tokens()) && bp - HEADER == |Serialize(Tokens())|
    {
      if ctrlp != DUMMY {
        PatchedIsSerialized(dest[..], bp, ctrlp, ctrlb, ctrl, done, cur);
      }
    }

    /** `pglz_out_ctrl`: after eight tokens, write the control byte and reserve the next. */
    method OutCtrl()
      requires Valid() && bp < dest.Length
      modifies this, dest
      ensures Staged(dest[..], bp, ctrlp, ctrlb, ctrl, done, cur) && ctrlp != DUMMY && |cur| < 8
      ensures Tokens() == old(Tokens()) && old(bp) <= bp <= old(bp) + 1
      ensures forall k :: 0 <= k < HEADER || old(bp) <= k < dest.Length ==> dest[k] == old(dest[k])
    {
      hide Staged;
      GroupIsFull(dest[..], bp, ctrlp, ctrlb, ctrl, done, cur);
      if ctrl % 256 == 0 {
        ghost var before := dest[..];
        if ctrlp == DUMMY {
          ctrlDummy := ctrlb;
        } else {
          dest[ctrlp] := ctrlb;
        }
        StageGroup(before, bp, ctrlp, ctrlb, ctrl, done, cur, dest[..]);
        ctrlp := bp;
        bp := bp + 1;
        ctrlb := 0;
        ctrl := 1;
        done, cur := done + cur, [];
        assert done + [] == done;
      }
    }

    /** `pglz_out_literal`. */
    method OutLiteral(b: Byte)
      requires Valid() && bp + 4 <= dest.Length
      modifies this, dest
      ensures Valid() && Tokens() == old(Tokens()) + [Literal(b)]
      ensures old(bp) < bp <= old(bp) + 4
      ensures forall k :: 0 <= k < HEADER || bp <= k < dest.Length ==> dest[k] == old(dest[k])
    {
      hide Staged, Pow2;
      OutCtrl();
      GroupIsFull(dest[..], bp, ctrlp, ctrlb, ctrl, done, cur);
      ghost var before, bp0 := dest[..], bp;
      dest[bp] := b;
      bp := bp + 1;
      assert dest[..bp0] == before[..bp0] && dest[bp0..bp] == [b];
      StageToken(before, bp0, ctrlp, ctrlb, ctrl, done, cur, Literal(b), dest[..], bp);
      ctrl := ctrl * 2 % 256;
      assert done + (cur + [Literal(b)]) == (done + cur) + [Literal(b)];
      cur := cur + [Literal(b)];
    }

    /** The two or three bytes of a tag. */
    method PutTagBytes(len: Length, off: Offset)
      requires bp + 3 <= dest.Length
      modifies this`bp, dest
      ensures bp == old(bp) + |TokenBytes(Tag(len, off))| && dest[old(bp)..bp] == TokenBytes(Tag(len, off))
      ensures forall k :: 0 <= k < old(bp) || bp <= k < dest.Length ==> dest[k] == old(dest[k])
    {
      hide BitOr, Pow2;
      NibbleOr(off / 256, if len > 17 then 15 else len - 3);
      ghost var raw := TokenBytes(Tag(len, off));
      assert |raw| == if len > 17 then 3 else 2;
      if len > 17 {
        dest[bp] := BitOr(off / 256 * 16, 15);
        dest[bp + 1] := off % 256;
        dest[bp + 2] := len - 18;
        bp := bp + 3;
        assert dest[old(bp)..bp] == raw;
      } else {
        dest[bp] := BitOr(off / 256 * 16, len - 3);
        dest[bp + 1] := off % 256;
        bp := bp + 2;
        assert dest[old(bp)..bp] == raw;
      }
    }

    /** `pglz_out_tag`. */
    method OutTag(len: Length, off: Offset)
      requires Valid() && bp + 4 <= dest.Length
      modifies this, dest
      ensures Valid() && Tokens() == old(Tokens()) + [Tag(len, off)]
      ensures old(bp) < bp <= old(bp) + 4
      ensures forall k :: 0 <= k < HEADER || bp <= k < dest.Length ==> dest[k] == old(dest[k])
    {
      hide Staged, Pow2, TokenBytes;
      OutCtrl();
      GroupIsFull(dest[..], bp, ctrlp, ctrlb, ctrl, done, cur);
      ghost var before, bp0 := dest[..], bp;
      PutTagBytes(len, off);
      assert dest[..bp0] == before[..bp0];
      StageToken(before, bp0, ctrlp, ctrlb, ctrl, done, cur, Tag(len, off), dest[..], bp);
      ctrlb := BitOr(ctrlb, ctrl);
      ctrl := ctrl * 2 % 256;
      assert done + (cur + [Tag(len, off)]) == (done + cur) + [Tag(len, off)];
      cur := cur + [Tag(len, off)];
    }

    /** Write out the last control byte. */
    method Finish()
      requires Valid()
      modifies this, dest
      ensures bp == old(bp) && Tokens() == old(Tokens())
      ensures HEADER <= bp <= dest.Length && dest[HEADER..bp] == Serialize(Tokens())
      ensures forall k :: 0 <= k < HEADER || bp <= k < dest.Length ==> dest[k] == old(dest[k])
    {
      ghost var before := dest[..];
      if ctrlp == DUMMY {
        ctrlDummy := ctrlb;
      } else {
        PatchedIsSerialized(before, bp, ctrlp, ctrlb, ctrl, done, cur);
        dest[ctrlp] := ctrlb;
        assert dest[..] == before[ctrlp := ctrlb];
      }
    }
  }
}
