/** What the decompressor computes: a token semantics, and the inverse of `Serialize`. */
module DecoderTheory {
  import opened Bytes
  import opened Format
  import opened Varlena
  import opened Decoder

  // ---- arbitrary payloads: the decoder refines a replay of its tokens -----------------

  /** Split a payload into tokens without looking at the output: the tokens,
      and the position after the last of them. */
  function Lex(mem: seq<Byte>, srcend: int, sp: nat, ctrl: Byte, left: nat): (seq<Token>, nat)
    requires srcend + 2 <= |mem|
    decreases if sp < srcend then srcend - sp else 0
  {
    if sp >= srcend then ([], sp)
    else if left == 0 then Lex(mem, srcend, sp + 1, mem[sp], 8)
    else
      var (t, next) := Item(mem, sp, ctrl % 2 == 1);
      var (toks, end) := Lex(mem, srcend, next, ctrl / 2, left - 1);
      ([t] + toks, end)
  }

  datatype Replayed = Full(dest: seq<Byte>) | Short(dest: seq<Byte>, dp: nat) | Ungrounded(dest: seq<Byte>)

  /** Write tokens one after the other until the output is full. A tag that would
      overrun the output writes nothing; one that reaches before it stops the replay. */
  function Replay(dest: seq<Byte>, dp: nat, rawsize: int, toks: seq<Token>): (r: Replayed)
    requires rawsize <= |dest|
    ensures |r.dest| == |dest|
    ensures forall i :: 0 <= i < |dest| && (i < dp || i >= rawsize) ==> r.dest[i] == dest[i]
    ensures r.Short? ==> dp <= r.dp < rawsize
    decreases |toks|
  {
    if dp >= rawsize then Full(dest)
    else if toks == [] then Short(dest, dp)
    else if dp + Span(toks[0]) > rawsize then Full(dest)
    else if toks[0].Tag? && toks[0].off > dp then Ungrounded(dest)
    else Replay(Written(dest, dp, toks[0]), dp + Span(toks[0]), rawsize, toks[1..])
  }

  /** How a call ends for a replay: it aborts exactly when the tokens fall short
      and the last one crosses the end of the payload. */
  ghost predicate EndsAs(out: Outcome, replayed: Replayed, rawsize: int, end: nat, srcend: int)
  {
    match replayed
    case Full(d) => out.Returned? && out.dest == d && out.dp >= rawsize
    case Short(d, k) => out == if end == srcend then Returned(d, k, srcend) else Aborted
    case Ungrounded(d) => |d| >= 3 && out == GaveUp(Marked(d))
  }

  /** The two ways an item ends the call. */
  lemma DecodeStops(out: Outcome, mem: seq<Byte>, srcend: int, rawsize: int, sp: nat, ctrl: Byte, left: nat,
                    dest: seq<Byte>, dp: nat, t: Token, next: nat)
    requires rawsize <= |dest| && sp < srcend && left > 0 && ItemFits(mem, sp, ctrl % 2 == 1)
    requires (t, next) == Item(mem, sp, ctrl % 2 == 1) && (t.Literal? ==> dp < rawsize)
    requires EndsIn(out, mem, srcend, rawsize, sp, ctrl, left, dest, dp)
    ensures dp + Span(t) > rawsize ==> out == Returned(dest, dp + Span(t), next)
    ensures dp + Span(t) <= rawsize && t.Tag? && t.off > dp ==> out == GaveUp(Marked(dest))
  {
  }

  lemma LexItem(mem: seq<Byte>, srcend: int, sp: nat, ctrl: Byte, left: nat)
    returns (t: Token, next: nat, rest: seq<Token>)
    requires srcend + 2 <= |mem| && sp < srcend && left > 0
    ensures (t, next) == Item(mem, sp, ctrl % 2 == 1) && rest == Lex(mem, srcend, next, ctrl / 2, left - 1).0
    ensures Lex(mem, srcend, sp, ctrl, left) == ([t] + rest, Lex(mem, srcend, next, ctrl / 2, left - 1).1)
    ensures ([t] + rest)[0] == t && ([t] + rest)[1..] == rest
  {
    t, next := Item(mem, sp, ctrl % 2 == 1).0, Item(mem, sp, ctrl % 2 == 1).1;
    rest := Lex(mem, srcend, next, ctrl / 2, left - 1).0;
  }

  /** On any payload readable two bytes past its end the decompressor stays inside
      the memory and ends as the replay of its tokens says. */
  lemma {:induction false} DecodeIsReplay(out: Outcome, mem: seq<Byte>, srcend: int, rawsize: int,
                                          sp: nat, ctrl: Byte, left: nat, dest: seq<Byte>, dp: nat)
    requires rawsize <= |dest| && srcend + 2 <= |mem|
    requires EndsIn(out, mem, srcend, rawsize, sp, ctrl, left, dest, dp)
    ensures var lexed := Lex(mem, srcend, sp, ctrl, left);
            EndsAs(out, Replay(dest, dp, rawsize, lexed.0), rawsize, lexed.1, srcend)
    decreases if sp < srcend then srcend - sp else 0
  {
    hide Copied, Item;
    if sp >= srcend || (dp >= rawsize && (left == 0 || ctrl % 2 == 0)) {
      // both loops end here
    } else if left == 0 {
      DecodeIsReplay(out, mem, srcend, rawsize, sp + 1, mem[sp], 8, dest, dp);
    } else {
      var t, next, rest := LexItem(mem, srcend, sp, ctrl, left);
      if dp + Span(t) <= rawsize && (t.Tag? ==> t.off <= dp) {
        var dest', dp' := Written(dest, dp, t), dp + Span(t);
        DecodeItem(out, mem, srcend, rawsize, sp, ctrl, left, dest, dp, t, next, dest', dp');
        DecodeIsReplay(out, mem, srcend, rawsize, next, ctrl / 2, left - 1, dest', dp');
        assert Replay(dest, dp, rawsize, [t] + rest) == Replay(dest', dp', rawsize, rest);
      } else {
        DecodeStops(out, mem, srcend, rawsize, sp, ctrl, left, dest, dp, t, next);
      }
    }
  }

  /** Copying from 0 back leaves the output as it is. */
  lemma ZeroOffsetKeeps(dest: seq<Byte>, dp: nat, len: nat)
    requires dp + len <= |dest|
    ensures Copied(dest, dp, 0, len) == dest
  {
  }

  /** The marker is two letters c, and leaves the rest of the output as it is. */
  lemma MarkedIs(dest: seq<Byte>)
    requires |dest| >= 2
    ensures Marked(dest) == [99, 99] + dest[2..]
  {
  }

  /** A text begins with the marker exactly when its first two letters are c. */
  lemma BeginsMarkedIff(text: seq<Byte>)
    ensures BeginsMarked(text) <==> [99, 99] <= text
  {
  }

  // ---- serialized tokens: decoding inverts Serialize and Expand --------------------

  /** `mem` goes on at `sp` with the rest of a group and the groups after it. */
  ghost predicate At(mem: seq<Byte>, sp: nat, cur: seq<Token>, rest: seq<Token>)
  {
    sp <= |mem| && mem[sp..] == Flat(cur) + Serialize(rest)
  }

  /** The bytes of a token are read back as that token. */
  lemma ItemOfToken(mem: seq<Byte>, sp: nat, t: Token)
    requires sp + |TokenBytes(t)| <= |mem| && mem[sp..sp + |TokenBytes(t)|] == TokenBytes(t)
    ensures ItemFits(mem, sp, t.Tag?)
    ensures Item(mem, sp, t.Tag?) == (t, sp + |TokenBytes(t)|)
  {
    var bytes := TokenBytes(t);
    assert mem[sp] == mem[sp..sp + |bytes|][0];
    if t.Tag? {
      assert mem[sp + 1] == mem[sp..sp + |bytes|][1];
      if t.len > 17 {
        assert mem[sp + 2] == mem[sp..sp + |bytes|][2];
      }
    }
  }

  lemma Cut(mem: seq<Byte>, sp: nat, a: seq<Byte>, b: seq<Byte>)
    requires sp <= |mem| && mem[sp..] == a + b
    ensures sp + |a| <= |mem| && mem[sp..sp + |a|] == a && mem[sp + |a|..] == b
  {
    assert mem[sp..sp + |a|] == mem[sp..][..|a|];
    assert mem[sp + |a|..] == mem[sp..][|a|..];
  }

  lemma NextToken(mem: seq<Byte>, sp: nat, cur: seq<Token>, rest: seq<Token>, next: nat)
    requires At(mem, sp, cur, rest) && cur != [] && next == sp + |TokenBytes(cur[0])|
    ensures ItemFits(mem, sp, cur[0].Tag?) && Item(mem, sp, cur[0].Tag?) == (cur[0], next)
    ensures At(mem, next, cur[1..], rest)
  {
    hide TokenBytes, Serialize;
    ConcatAssoc(TokenBytes(cur[0]), Flat(cur[1..]), Serialize(rest));
    Cut(mem, sp, TokenBytes(cur[0]), Flat(cur[1..]) + Serialize(rest));
    ItemOfToken(mem, sp, cur[0]);
  }

  lemma NextControl(cur: seq<Token>)
    requires cur != []
    ensures ControlByte(cur) % 2 == (if cur[0].Tag? then 1 else 0) && ControlByte(cur) / 2 == ControlByte(cur[1..])
  {
  }

  lemma NextGroup(mem: seq<Byte>, sp: nat, toks: seq<Token>, n: nat)
    requires At(mem, sp, [], toks) && toks != [] && n == if |toks| <= 8 then |toks| else 8
    ensures sp < |mem| && mem[sp] == ControlByte(toks[..n])
    ensures At(mem, sp + 1, toks[..n], toks[n..])
  {
    Pow2Byte(n);
    SerializeSplit(toks, n);
    var ctrl := [ControlByte(toks[..n])];
    ConcatAssoc(ctrl, Flat(toks[..n]), Serialize(toks[n..]));
    assert mem[sp..] == ctrl + (Flat(toks[..n]) + Serialize(toks[n..]));
    assert mem[sp] == mem[sp..][0];
    assert mem[sp + 1..] == mem[sp..][1..];
  }

  lemma CopiedAt(dest: seq<Byte>, dp: nat, off: nat, len: nat, i: nat)
    requires 1 <= off <= dp && dp + len <= |dest| && i < dp + len
    ensures Copied(dest, dp, off, len)[i] == Repeat(dest[..dp], off, len)[i]
  {
    hide Phase;
    if i >= dp {
      RepeatAt(dest[..dp], off, len, i - dp);
    }
  }

  lemma RepeatAt(out: seq<Byte>, off: nat, n: nat, k: nat)
    requires 1 <= off <= |out| && k < n
    ensures Repeat(out, off, n)[|out| + k] == out[|out| - off + Phase(k, off)]
  {
    hide Phase;
  }

  lemma WrittenTag(dest: seq<Byte>, dp: nat, len: Length, off: Offset)
    requires dp + len <= |dest| && 1 <= off <= dp
    ensures Copied(dest, dp, off, len)[..dp + len] == Repeat(dest[..dp], off, len)
  {
    hide Copied, Repeat;
    forall i | 0 <= i < dp + len ensures Copied(dest, dp, off, len)[i] == Repeat(dest[..dp], off, len)[i] {
      CopiedAt(dest, dp, off, len, i);
    }
  }

  /** Writing a token in place extends the written prefix as `Expand` does. */
  lemma WrittenPrefix(dest: seq<Byte>, dp: nat, toks: seq<Token>, dest': seq<Byte>, dp': nat)
    requires toks != [] && Grounded(dp, toks)
    requires dp' == dp + Span(toks[0]) <= |dest| && dest' == Written(dest, dp, toks[0])
    ensures Grounded(dp', toks[1..]) && Expand(dest[..dp], toks) == Expand(dest'[..dp'], toks[1..])
    ensures dest'[dp'..] == dest[dp'..]
  {
    match toks[0] {
      case Literal(b) => assert dest'[..dp'] == dest[..dp] + [b];
      case Tag(len, off) => WrittenTag(dest, dp, len, off);
    }
  }

  /** The output written so far and the tokens to come make up `text`. */
  ghost predicate Leads(dest: seq<Byte>, dp: nat, toks: seq<Token>, text: seq<Byte>, tail: seq<Byte>)
  {
    && dp <= |text| <= |dest| && dest[|text|..] == tail
    && Grounded(dp, toks) && Expand(dest[..dp], toks) == text
  }

  lemma LeadsOn(dest: seq<Byte>, dp: nat, toks: seq<Token>, text: seq<Byte>, tail: seq<Byte>,
                dest': seq<Byte>, dp': nat)
    requires toks != [] && Leads(dest, dp, toks, text, tail)
    requires dp' == dp + Span(toks[0]) && (dp' <= |dest| ==> dest' == Written(dest, dp, toks[0]))
    ensures dp' <= |text| && Leads(dest', dp', toks[1..], text, tail)
  {
    assert dp' <= |text|;
    WrittenPrefix(dest, dp, toks, dest', dp');
    assert dest'[|text|..] == dest'[dp'..][|text| - dp'..];
    assert dest[|text|..] == dest[dp'..][|text| - dp'..];
  }

  /** Decoding stands inside a serialized stream: `cur` is what remains of the current
      control byte's group, `rest` the groups after it, and the call ends in `out`. The end
      of the input may be given anywhere at or past the real end. */
  ghost predicate InStream(out: Outcome, mem: seq<Byte>, srcend: int,
                           sp: nat, ctrl: Byte, left: nat, dest: seq<Byte>, dp: nat,
                           cur: seq<Token>, rest: seq<Token>, text: seq<Byte>, tail: seq<Byte>)
  {
    && |mem| <= srcend && At(mem, sp, cur, rest)
    && |cur| <= left <= 8 && ctrl == ControlByte(cur) && (rest != [] ==> |cur| == left)
    && Leads(dest, dp, cur + rest, text, tail)
    && EndsIn(out, mem, srcend, |text|, sp, ctrl, left, dest, dp)
  }

  /** All tokens are consumed: clear control bits or a full output stop the decoder. */
  lemma StreamEnds(out: Outcome, mem: seq<Byte>, srcend: int, sp: nat, ctrl: Byte, left: nat,
                   dest: seq<Byte>, dp: nat, text: seq<Byte>, tail: seq<Byte>)
    requires InStream(out, mem, srcend, sp, ctrl, left, dest, dp, [], [], text, tail)
    ensures out == Returned(text + tail, |text|, |mem|)
  {
    assert sp == |mem| by { assert mem[sp..] == []; }
    assert dest[..dp] + tail == dest;
  }

  lemma StreamGroup(out: Outcome, mem: seq<Byte>, srcend: int, sp: nat, ctrl: Byte, left: nat,
                    dest: seq<Byte>, dp: nat, rest: seq<Token>, text: seq<Byte>, tail: seq<Byte>, n: nat)
    requires InStream(out, mem, srcend, sp, ctrl, left, dest, dp, [], rest, text, tail)
    requires rest != [] && n == if |rest| <= 8 then |rest| else 8
    ensures sp < |mem|
    ensures InStream(out, mem, srcend, sp + 1, mem[sp], 8, dest, dp, rest[..n], rest[n..], text, tail)
  {
    NextGroup(mem, sp, rest, n);
    assert [] + rest == rest == rest[..n] + rest[n..];
    ExpandGrows(dest[..dp], rest);
  }

  lemma StreamToken(out: Outcome, mem: seq<Byte>, srcend: int, sp: nat, ctrl: Byte, left: nat,
                    dest: seq<Byte>, dp: nat, cur: seq<Token>, rest: seq<Token>, text: seq<Byte>, tail: seq<Byte>)
    returns (next: nat, dest': seq<Byte>, dp': nat)
    requires InStream(out, mem, srcend, sp, ctrl, left, dest, dp, cur, rest, text, tail) && cur != []
    ensures InStream(out, mem, srcend, next, ctrl / 2, left - 1, dest', dp', cur[1..], rest, text, tail)
  {
    hide Copied, TokenBytes, Serialize, Flat, ControlByte, Decode;
    var toks := cur + rest;
    next, dp' := sp + |TokenBytes(cur[0])|, dp + Span(cur[0]);
    assert toks[0] == cur[0] && toks[1..] == cur[1..] + rest;
    assert dp' <= |text|;
    dest' := Written(dest, dp, cur[0]);
    NextToken(mem, sp, cur, rest, next);
    NextControl(cur);
    LeadsOn(dest, dp, toks, text, tail, dest', dp');
    DecodeItem(out, mem, srcend, |text|, sp, ctrl, left, dest, dp, cur[0], next, dest', dp');
  }

  /** Decoding a serialized stream yields what the tokens expand to, consumes exactly the
      payload, and reads nothing behind it. */
  lemma {:induction false} DecodeSerialized(out: Outcome, mem: seq<Byte>, srcend: int,
                                            sp: nat, ctrl: Byte, left: nat, dest: seq<Byte>, dp: nat,
                                            cur: seq<Token>, rest: seq<Token>, text: seq<Byte>, tail: seq<Byte>)
    requires InStream(out, mem, srcend, sp, ctrl, left, dest, dp, cur, rest, text, tail)
    ensures out == Returned(text + tail, |text|, |mem|)
    decreases |cur| + |rest|, |rest|
  {
    hide Copied, TokenBytes, Serialize, Flat, ControlByte, Decode, Expand, Grounded;
    if cur == [] && rest == [] {
      StreamEnds(out, mem, srcend, sp, ctrl, left, dest, dp, text, tail);
    } else if cur == [] {
      var n := if |rest| <= 8 then |rest| else 8;
      StreamGroup(out, mem, srcend, sp, ctrl, left, dest, dp, rest, text, tail, n);
      DecodeSerialized(out, mem, srcend, sp + 1, mem[sp], 8, dest, dp, rest[..n], rest[n..], text, tail);
    } else {
      var next, dest', dp' := StreamToken(out, mem, srcend, sp, ctrl, left, dest, dp, cur, rest, text, tail);
      DecodeSerialized(out, mem, srcend, next, ctrl / 2, left - 1, dest', dp', cur[1..], rest, text, tail);
    }
  }

  lemma SerializeSplit(toks: seq<Token>, n: nat)
    requires toks != [] && n == if |toks| <= 8 then |toks| else 8
    ensures Serialize(toks) == Group(toks[..n]) + Serialize(toks[n..])
  {
    if |toks| <= 8 {
      assert toks[..n] == toks;
      assert Serialize(toks[n..]) == [];
      var group := Group(toks);
      assert group + [] == group;
    } else {
      SerializeFirst(toks);
    }
  }

  lemma {:induction false} ExpandGrows(out: seq<Byte>, toks: seq<Token>)
    requires Grounded(|out|, toks)
    ensures |Expand(out, toks)| >= |out| + |toks|
    decreases |toks|
  {
    if toks != [] {
      match toks[0] {
        case Literal(b) => ExpandGrows(out + [b], toks[1..]);
        case Tag(len, off) => ExpandGrows(Repeat(out, off, len), toks[1..]);
      }
    }
  }

  /** A call on a serialized token list, its length word telling the truth or more. */
  lemma DecompressSerialized(mem: seq<Byte>, dest: seq<Byte>, toks: seq<Token>)
    requires |mem| >= 8 && mem[8..] == Serialize(toks) && Grounded(0, toks)
    requires VarSize4(Word32(mem, 0)) >= |mem|
    requires Signed32(Word32(mem, 4)) == |Expand([], toks)| <= |dest|
    ensures var text := Expand([], toks);
            Decompressed(mem, dest) == Returned(text + dest[|text|..], |text|, |mem|)
  {
    var text := Expand([], toks);
    assert dest[..0] == [] && [] + toks == toks;
    DecodeSerialized(Decompressed(mem, dest), mem, VarSize4(Word32(mem, 0)), 8, 0, 0, dest, 0,
                     [], toks, text, dest[|text|..]);
  }

  /** A call that stays inside its memory does not depend on what lies behind it. */
  lemma {:induction false} DecodeLocal(mem: seq<Byte>, more: seq<Byte>, srcend: int, rawsize: int,
                                       sp: nat, ctrl: Byte, left: nat, dest: seq<Byte>, dp: nat)
    requires rawsize <= |dest|
    requires !Decode(mem, srcend, rawsize, sp, ctrl, left, dest, dp).Overread?
    ensures Decode(mem + more, srcend, rawsize, sp, ctrl, left, dest, dp)
         == Decode(mem, srcend, rawsize, sp, ctrl, left, dest, dp)
    decreases if sp < srcend then srcend - sp else 0
  {
    hide Copied;
    if sp < srcend && !(dp >= rawsize && (left == 0 || ctrl % 2 == 0)) {
      if left == 0 {
        DecodeLocal(mem, more, srcend, rawsize, sp + 1, mem[sp], 8, dest, dp);
      } else {
        var tag := ctrl % 2 == 1;
        assert ItemFits(mem, sp, tag);
        var (t, next) := Item(mem, sp, tag);
        assert ItemFits(mem + more, sp, tag) && Item(mem + more, sp, tag) == (t, next);
        if dp + Span(t) <= rawsize && (t.Tag? ==> t.off <= dp) {
          DecodeLocal(mem, more, srcend, rawsize, next, ctrl / 2, left - 1, Written(dest, dp, t), dp + Span(t));
        }
      }
    }
  }

  /** Giving up leaves the marker at the start of the output. */
  lemma {:induction false} GiveUpIsMarked(mem: seq<Byte>, srcend: int, rawsize: int,
                                          sp: nat, ctrl: Byte, left: nat, dest: seq<Byte>, dp: nat)
    requires rawsize <= |dest|
    ensures var out := Decode(mem, srcend, rawsize, sp, ctrl, left, dest, dp);
            out.GaveUp? ==> |out.dest| == |dest| && BeginsMarked(out.dest) && rawsize >= 3
    ensures var out := Decode(mem, srcend, rawsize, sp, ctrl, left, dest, dp);
            out.Returned? ==> |out.dest| == |dest|
    decreases if sp < srcend then srcend - sp else 0
  {
    hide Copied, Item;
    if sp < srcend && !(dp >= rawsize && (left == 0 || ctrl % 2 == 0)) {
      if left == 0 {
        if sp < |mem| { GiveUpIsMarked(mem, srcend, rawsize, sp + 1, mem[sp], 8, dest, dp); }
      } else if ItemFits(mem, sp, ctrl % 2 == 1) {
        var (t, next) := Item(mem, sp, ctrl % 2 == 1);
        if dp + Span(t) <= rawsize && (t.Tag? ==> t.off <= dp) {
          GiveUpIsMarked(mem, srcend, rawsize, next, ctrl / 2, left - 1, Written(dest, dp, t), dp + Span(t));
        }
      }
    }
  }
}
