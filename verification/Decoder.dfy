/** `pglz_decompress` over an arbitrary payload. */
module Decoder {
  import opened Bytes
  import opened Format
  import opened Varlena

  /** How a call ends. `Overread` is a read outside the memory holding the payload. */
  datatype Outcome =
    | Returned(dest: seq<Byte>, dp: nat, sp: nat)
    | GaveUp(dest: seq<Byte>)
    | Aborted
    | Overread

  /** The item at `sp` lies in memory, given its control bit. */
  predicate ItemFits(mem: seq<Byte>, sp: nat, tag: bool)
  {
    if tag then sp + 2 <= |mem| && (mem[sp] % 16 == 15 ==> sp + 3 <= |mem|) else sp < |mem|
  }

  /** Read the item at `sp`: the token and the position after it. */
  function Item(mem: seq<Byte>, sp: nat, tag: bool): (r: (Token, nat))
    requires ItemFits(mem, sp, tag)
    ensures sp < r.1 <= sp + 3 && r.1 <= |mem|
    ensures r.0.Tag? <==> tag
  {
    if !tag then (Literal(mem[sp]), sp + 1)
    else
      var len := mem[sp] as int % 16 + 3;
      var off := mem[sp] as int / 16 * 256 + mem[sp + 1] as int;
      if len == 18 then (Tag(len + mem[sp + 2] as int, off), sp + 3) else (Tag(len, off), sp + 2)
  }

  /** What `len` forward single-byte copies from `off` back leave in `dest`:
      a periodic extension. With `off == 0` every byte is copied onto itself. */
  function Copied(dest: seq<Byte>, dp: nat, off: nat, len: nat): (r: seq<Byte>)
    requires off <= dp && dp + len <= |dest|
    ensures |r| == |dest|
  {
    seq(|dest|, i requires 0 <= i < |dest| =>
      if off != 0 && dp <= i < dp + len then dest[dp - off + Phase(i - dp, off)] else dest[i])
  }

  /** The tests after the loop. */
  function Conclude(dest: seq<Byte>, dp: nat, sp: nat, srcend: int, rawsize: int): Outcome
  {
    if dp < rawsize && sp != srcend then Aborted else Returned(dest, dp, sp)
  }

  /** The decompressor from inside its loops: `left` items of the current control
      byte remain, `ctrl` holds their bits. */
  function Decode(mem: seq<Byte>, srcend: int, rawsize: int,
                  sp: nat, ctrl: Byte, left: nat, dest: seq<Byte>, dp: nat): Outcome
    requires rawsize <= |dest|
    decreases if sp < srcend then srcend - sp else 0
  {
    if sp >= srcend then Conclude(dest, dp, sp, srcend, rawsize)
    else if left == 0 then
      if dp >= rawsize then Conclude(dest, dp, sp, srcend, rawsize)
      else if sp >= |mem| then Overread
      else Decode(mem, srcend, rawsize, sp + 1, mem[sp], 8, dest, dp)
    else
      var tag := ctrl % 2 == 1;
      if !tag && dp >= rawsize then Conclude(dest, dp, sp, srcend, rawsize)
      else if !ItemFits(mem, sp, tag) then Overread
      else
        var (t, next) := Item(mem, sp, tag);
        if dp + Span(t) > rawsize then Conclude(dest, dp + Span(t), next, srcend, rawsize)
        else if t.Tag? && t.off > dp then GaveUp(Marked(dest))
        else Decode(mem, srcend, rawsize, next, ctrl / 2, left - 1, Written(dest, dp, t), dp + Span(t))
  }

  /** The call ends in `out` when continued from the given point. */
  ghost predicate EndsIn(out: Outcome, mem: seq<Byte>, srcend: int, rawsize: int,
                         sp: nat, ctrl: Byte, left: nat, dest: seq<Byte>, dp: nat)
    requires rawsize <= |dest|
  {
    out == Decode(mem, srcend, rawsize, sp, ctrl, left, dest, dp)
  }

  /** One item that fits and reaches back no too far: the call continues after it. */
  lemma DecodeItem(out: Outcome, mem: seq<Byte>, srcend: int, rawsize: int, sp: nat, ctrl: Byte, left: nat,
                   dest: seq<Byte>, dp: nat, t: Token, next: nat, dest': seq<Byte>, dp': nat)
    requires rawsize <= |dest| && sp < srcend && left > 0 && ItemFits(mem, sp, ctrl % 2 == 1)
    requires (t, next) == Item(mem, sp, ctrl % 2 == 1)
    requires dp' == dp + Span(t) <= rawsize && (t.Tag? ==> t.off <= dp)
    requires dest' == Written(dest, dp, t)
    requires EndsIn(out, mem, srcend, rawsize, sp, ctrl, left, dest, dp)
    ensures EndsIn(out, mem, srcend, rawsize, next, ctrl / 2, left - 1, dest', dp')
  {
  }

  /** `dest` after one in-range token at `dp`. */
  function Written(dest: seq<Byte>, dp: nat, t: Token): (r: seq<Byte>)
    requires dp + Span(t) <= |dest| && (t.Tag? ==> t.off <= dp)
    ensures |r| == |dest|
  {
    match t
    case Literal(b) => dest[dp := b]
    case Tag(len, off) => Copied(dest, dp, off, len)
  }

  /** The give-up marker, `cc`. */
  function Marked(dest: seq<Byte>): seq<Byte>
    requires |dest| >= 2
  {
    dest[0 := 99][1 := 99]
  }

  /** The text begins with the give-up marker. */
  predicate BeginsMarked(text: seq<Byte>)
  {
    |text| >= 2 && text[0] == 99 && text[1] == 99
  }

  /** The whole call on a compressed datum: header of 8 bytes, then payload. */
  function Decompressed(mem: seq<Byte>, dest: seq<Byte>): Outcome
    requires |mem| >= 8 && Signed32(Word32(mem, 4)) <= |dest|
  {
    Decode(mem, VarSize4(Word32(mem, 0)), Signed32(Word32(mem, 4)), 8, 0, 0, dest, 0)
  }

  datatype Status = Normal | GiveUp | Abort

  /** The in-place copy loop of a tag. It gives up on the first byte or never. */
  method CopyTag(dest: array<Byte>, dp: nat, off: nat, len: nat) returns (ok: bool)
    requires 2 <= dp + len <= dest.Length && len > 0
    modifies dest
    ensures ok == (off <= dp)
    ensures ok ==> dest[..] == Copied(old(dest[..]), dp, off, len)
    ensures !ok ==> dest[..] == Marked(old(dest[..]))
  {
    ghost var before := dest[..];
    var k := 0;
    while k < len
      invariant k <= len && (k > 0 ==> off <= dp)
      invariant dest[..] == if k > 0 then Copied(before, dp, off, k) else before
    {
      if dp + k - off < 0 {
        dest[0] := 99;
        dest[1] := 99;
        return false;
      }
      ghost var now := dest[..];
      assert off <= dp by { if k == 0 { assert off <= dp; } }
      dest[dp + k] := dest[dp + k - off];
      assert dest[..] == now[dp + k := now[dp + k - off]];
      CopyStep(before, now, dp, off, k);
      k := k + 1;
    }
    return true;
  }

  lemma CopyStep(before: seq<Byte>, now: seq<Byte>, dp: nat, off: nat, k: nat)
    requires off <= dp && dp + k < |before|
    requires now == if k > 0 then Copied(before, dp, off, k) else before
    ensures now[dp + k := now[dp + k - off]] == Copied(before, dp, off, k + 1)
  {
    if off > 0 && k >= off {
      assert now[dp + k - off] == before[dp - off + Phase(k - off, off)];
    }
    var after := now[dp + k := now[dp + k - off]];
    forall i | 0 <= i < |before| ensures after[i] == Copied(before, dp, off, k + 1)[i] {
      if i == dp + k && off > 0 {
        assert Phase(k, off) == if k < off then k else Phase(k - off, off);
      }
    }
  }

  /** The decompressor. It reads only inside `source` and, as `Decompressed` says,
      changes nothing in `dest` past `rawsize`. */
  method Decompress(source: seq<Byte>, dest: array<Byte>) returns (status: Status)
    requires |source| >= 8 && Signed32(Word32(source, 4)) <= dest.Length
    requires !Decompressed(source, dest[..]).Overread?
    modifies dest
    ensures match Decompressed(source, old(dest[..]))
            case Returned(d, _, _) => status == Normal && dest[..] == d
            case GaveUp(d) => status == GiveUp && dest[..] == d
            case Aborted => status == Abort
            case Overread => false
  {
    var sp: nat := 8;
    var srcend := VarSize4(Word32(source, 0));
    var dp: nat := 0;
    var destend := Signed32(Word32(source, 4));
    ghost var out := Decompressed(source, dest[..]);
    while sp < srcend && dp < destend
      invariant sp < srcend && dp < destend ==> EndsIn(out, source, srcend, destend, sp, 0, 0, dest[..], dp)
      invariant !(sp < srcend && dp < destend) ==> out == Conclude(dest[..], dp, sp, srcend, destend)
      decreases srcend - sp
    {
      var ctrl := source[sp];
      sp := sp + 1;
      var gaveUp;
      sp, dp, gaveUp := DecodeGroup(source, srcend, destend, sp, ctrl, dest, dp, out);
      if gaveUp {
        return GiveUp;
      }
    }
    if dp < destend && sp != srcend {
      return Abort;
    }
    return Normal;
  }

  /** Read a tag's two or three bytes. */
  method ReadTag(source: seq<Byte>, sp: nat) returns (len: Length, off: Offset, next: nat)
    requires ItemFits(source, sp, true)
    ensures (Tag(len, off), next) == Item(source, sp, true)
  {
    Pow2Byte(8);
    BitOrDisjoint(source[sp] / 16, 8, source[sp + 1]);
    len := source[sp] as int % 16 + 3;
    off := BitOr(source[sp] as int / 16 * 256, source[sp + 1]);
    next := sp + 2;
    if len == 18 {
      len := len + source[next] as int;
      next := next + 1;
    }
  }

  /** The inner loop: the items of one control byte. */
  method DecodeGroup(source: seq<Byte>, srcend: nat, destend: int, sp0: nat, ctrl0: Byte,
                     dest: array<Byte>, dp0: nat, ghost out: Outcome)
    returns (sp: nat, dp: nat, gaveUp: bool)
    requires destend <= dest.Length && dp0 < destend
    requires EndsIn(out, source, srcend, destend, sp0, ctrl0, 8, dest[..], dp0) && !out.Overread?
    modifies dest
    ensures sp0 <= sp
    ensures gaveUp ==> out == GaveUp(dest[..])
    ensures !gaveUp && sp < srcend && dp < destend ==> EndsIn(out, source, srcend, destend, sp, 0, 0, dest[..], dp)
    ensures !gaveUp && !(sp < srcend && dp < destend) ==> out == Conclude(dest[..], dp, sp, srcend, destend)
  {
    hide Copied;
    sp, dp, gaveUp := sp0, dp0, false;
    var ctrl := ctrl0;
    var ctrlc := 0;
    while ctrlc < 8 && sp < srcend
      invariant 0 <= ctrlc <= 8 && sp0 <= sp
      invariant EndsIn(out, source, srcend, destend, sp, ctrl, 8 - ctrlc, dest[..], dp)
      decreases 8 - ctrlc
    {
      ghost var now, left := dest[..], 8 - ctrlc;
      if ctrl % 2 == 1 {
        var len, off, next := ReadTag(source, sp);
        if dp + len > destend {
          sp, dp := next, dp + len;
          break;
        }
        var ok := CopyTag(dest, dp, off, len);
        if !ok {
          return sp, dp, true;
        }
        DecodeItem(out, source, srcend, destend, sp, ctrl, left, now, dp, Tag(len, off), next, dest[..], dp + len);
        sp, dp := next, dp + len;
      } else {
        if dp >= destend {
          break;
        }
        dest[dp] := source[sp];
        assert dest[..] == now[dp := source[sp]];
        DecodeItem(out, source, srcend, destend, sp, ctrl, left, now, dp,
                   Literal(source[sp]), sp + 1, dest[..], dp + 1);
        sp, dp := sp + 1, dp + 1;
      }
      ctrl, ctrlc := ctrl / 2, ctrlc + 1;
    }
  }
}
