/** Where the attributes of a tuple lie: PostgreSQL's writer and reader, and the dumper. */
module TupleLayout {
  import opened Bytes
  import opened Wrappers
  import opened Varlena
  import opened Page

  // ---- alignment -------------------------------------------------------------------------

  datatype Align = Int | Char | Double | Short

  /** Column length: a fixed width, -1 for a varlena, -2 for a C string. */
  datatype Column = Column(attlen: int, attalign: Align)

  const VARLENA := -1
  const CSTRING := -2

  /** `TYPEALIGN` for a power of two. */
  function TypeAlign(alignval: nat, len: nat): nat
    requires alignval > 0
  {
    (len + (alignval - 1)) / alignval * alignval
  }

  /** `att_align_nominal`. */
  function AlignNominal(cur: nat, align: Align): (r: nat)
    ensures cur <= r < cur + 8
  {
    match align
    case Int => TypeAlign(4, cur)
    case Char => cur
    case Double => TypeAlign(8, cur)
    case Short => TypeAlign(2, cur)
  }

  lemma RoundUp2(cur: nat)
    ensures TypeAlign(2, cur) % 2 == 0 && cur <= TypeAlign(2, cur) < cur + 2
  {
    var q := (cur + 1) / 2;
    assert TypeAlign(2, cur) == 2 * q;
    hide TypeAlign;
  }

  lemma RoundUp4(cur: nat)
    ensures TypeAlign(4, cur) % 4 == 0 && cur <= TypeAlign(4, cur) < cur + 4
  {
    var q := (cur + 3) / 4;
    assert TypeAlign(4, cur) == 4 * q;
    hide TypeAlign;
  }

  lemma RoundUp8(cur: nat)
    ensures TypeAlign(8, cur) % 8 == 0 && cur <= TypeAlign(8, cur) < cur + 8
  {
    var q := (cur + 7) / 8;
    assert TypeAlign(8, cur) == 8 * q;
    hide TypeAlign;
  }

  /** The nominal place is the first multiple of the alignment from `cur` on. */
  lemma AlignNominalIsLeast(cur: nat, align: Align)
    ensures var a := match align case Int => 4 case Char => 1 case Double => 8 case Short => 2;
            AlignNominal(cur, align) % a == 0 && cur <= AlignNominal(cur, align) < cur + a
  {
    hide TypeAlign;
    match align {
      case Int => RoundUp4(cur);
      case Char =>
      case Double => RoundUp8(cur);
      case Short => RoundUp2(cur);
    }
  }

  /** `att_align_datum`: a short varlena is not aligned. */
  function AlignDatum(cur: nat, col: Column, value: seq<Byte>): (r: nat)
    requires value != []
    ensures cur <= r
  {
    if col.attlen == VARLENA && Is1B(value[0]) then cur else AlignNominal(cur, col.attalign)
  }

  /** `att_align_pointer`: peek whether a pad byte or a value comes next. */
  function AlignPointer(cur: nat, col: Column, data: seq<Byte>): (r: nat)
    requires cur < |data|
    ensures cur <= r
  {
    if col.attlen == VARLENA && data[cur] != 0 then cur else AlignNominal(cur, col.attalign)
  }

  /** `strlen` of the string at `at`, if it ends inside `s`. */
  function StrLen(s: seq<Byte>, at: nat): (r: Option<nat>)
    requires at <= |s|
    ensures r.Some? ==> at + r.value < |s|
    decreases |s| - at
  {
    if at == |s| then None
    else if s[at] == 0 then Some(0)
    else match StrLen(s, at + 1) case None => None case Some(n) => Some(n + 1)
  }

  /** `att_addlength_pointer`: the offset after the value at `off`, if its size can be read. */
  function AddLength(off: nat, col: Column, s: seq<Byte>): Option<nat>
    requires off <= |s|
  {
    if col.attlen > 0 then Some(off + col.attlen)
    else if col.attlen == VARLENA then (if HasHeader(s, off) then Some(off + VarSizeAny(s, off)) else None)
    else match StrLen(s, off) case None => None case Some(n) => Some(off + n + 1)
  }

  // ---- tuples ------------------------------------------------------------------------------

  /** A value as it is stored. One of a fixed width has it. A varlena has one of three headers: a
      byte 1 and a byte with the length; an odd byte, twice the length and 1; or a word of four times
      the length, its low two bits free for the compression mark. A C string ends with its only zero
      byte. */
  predicate Fits(col: Column, value: seq<Byte>)
  {
    && value != []
    && (col.attlen > 0 || col.attlen == VARLENA || col.attlen == CSTRING)
    && (col.attlen > 0 ==> |value| == col.attlen)
    && (col.attlen == VARLENA ==>
          if value[0] == 1 then |value| >= 2 && value[1] as int == |value|
          else if value[0] % 2 == 1 then value[0] as int / 2 == |value|
          else |value| >= 4 && value[0] as int + 256 * value[1] as int + 65536 * value[2] as int
                               + 16777216 * value[3] as int < 4 * |value| + 4
               && 4 * |value| <= value[0] as int + 256 * value[1] as int + 65536 * value[2] as int
                                 + 16777216 * value[3] as int)
    && (col.attlen == CSTRING ==>
          value[|value| - 1] == 0 && forall k :: 0 <= k < |value| - 1 ==> value[k] != 0)
  }

  lemma {:induction false} StrLenIs(s: seq<Byte>, k: nat)
    requires k < |s| && s[|s| - 1] == 0 && forall j :: 0 <= j < |s| - 1 ==> s[j] != 0
    ensures StrLen(s, k) == Some(|s| - 1 - k)
    decreases |s| - k
  {
    if k < |s| - 1 { StrLenIs(s, k + 1); }
  }

  lemma QuarterIs(w: nat, n: nat)
    requires 4 * n <= w < 4 * n + 4 && w < WORD
    ensures VarSize4(w) == n
  {
  }

  /** The reader's length of a value is the length it is stored with. */
  lemma LengthIs(col: Column, value: seq<Byte>)
    requires Fits(col, value)
    ensures AddLength(0, col, value) == Some(|value|)
  {
    if col.attlen == CSTRING {
      StrLenIs(value, 0);
    } else if col.attlen == VARLENA && value[0] % 2 == 0 {
      QuarterIs(Word32(value, 0), |value|);
    }
  }

  /** A row: a value, or null, for each column. */
  predicate Row(cols: seq<Column>, vals: seq<Option<seq<Byte>>>)
  {
    |cols| == |vals| && forall k :: 0 <= k < |cols| && vals[k].Some? ==> Fits(cols[k], vals[k].value)
  }

  /** The user data of a row, after `done`: each value at its aligned place, zero padding between. */
  function Form(cols: seq<Column>, vals: seq<Option<seq<Byte>>>, done: seq<Byte>): (r: seq<Byte>)
    requires Row(cols, vals)
    ensures done <= r
  {
    if cols == [] then done
    else if vals[0].None? then Form(cols[1..], vals[1..], done)
    else
      var off := AlignDatum(|done|, cols[0], vals[0].value);
      Form(cols[1..], vals[1..], done + seq(off - |done|, _ => 0) + vals[0].value)
  }

  /** The offsets the writer computes, without the bytes: one for each non-null value. */
  function Offsets(cols: seq<Column>, vals: seq<Option<seq<Byte>>>, cur: nat): seq<nat>
    requires Row(cols, vals)
  {
    if cols == [] then []
    else if vals[0].None? then Offsets(cols[1..], vals[1..], cur)
    else
      var off := AlignDatum(cur, cols[0], vals[0].value);
      [off] + Offsets(cols[1..], vals[1..], off + |vals[0].value|)
  }

  /** PostgreSQL's reader: the offsets it visits and where it ends, if it stays inside `data`. */
  function Walk(cols: seq<Column>, nulls: seq<bool>, data: seq<Byte>, cur: nat): Option<(seq<nat>, nat)>
    requires |cols| == |nulls|
  {
    if cols == [] then Some(([], cur))
    else if nulls[0] then Walk(cols[1..], nulls[1..], data, cur)
    else if cur >= |data| then None
    else
      var off := AlignPointer(cur, cols[0], data);
      if off > |data| then None
      else
        match AddLength(off, cols[0], data)
        case None => None
        case Some(next) =>
          match Walk(cols[1..], nulls[1..], data, next)
          case None => None
          case Some(rest) => Some(([off] + rest.0, rest.1))
  }

  function Nulls(vals: seq<Option<seq<Byte>>>): (r: seq<bool>)
    ensures |r| == |vals|
  {
    seq(|vals|, k requires 0 <= k < |vals| => vals[k].None?)
  }

  // ---- writer and reader agree ------------------------------------------------------------------

  lemma {:induction false} StrLenLocal(s: seq<Byte>, at: nat, value: seq<Byte>, k: nat)
    requires k <= |value| && at + |value| <= |s| && s[at..at + |value|] == value && StrLen(value, k).Some?
    ensures StrLen(s, at + k) == StrLen(value, k)
    decreases |value| - k
  {
    if k < |value| {
      assert s[at + k] == s[at..at + |value|][k];
      if value[k] != 0 { StrLenLocal(s, at, value, k + 1); }
    }
  }

  /** A stored value has the length it had on its own. */
  lemma LengthLocal(s: seq<Byte>, at: nat, col: Column, value: seq<Byte>)
    requires Fits(col, value) && at + |value| <= |s| && s[at..at + |value|] == value
    ensures AddLength(at, col, s) == Some(at + |value|)
    ensures s[at] == value[0]
  {
    LengthIs(col, value);
    assert s[at] == s[at..at + |value|][0];
    if col.attlen == VARLENA {
      if |value| >= 2 { assert s[at + 1] == s[at..at + |value|][1]; }
      if Is4B(value[0]) {
        assert s[at + 2] == s[at..at + |value|][2] && s[at + 3] == s[at..at + |value|][3];
      }
    } else if col.attlen == CSTRING {
      StrLenLocal(s, at, value, 0);
    }
  }

  /** The value written next stands at its aligned place, behind zero bytes only. */
  lemma Placed(done: seq<Byte>, col: Column, value: seq<Byte>, data: seq<Byte>)
    requires value != []
    requires done + seq(AlignDatum(|done|, col, value) - |done|, _ => 0) + value <= data
    ensures var off := AlignDatum(|done|, col, value);
            && off + |value| <= |data| && data[off..off + |value|] == value
            && forall k :: |done| <= k < off ==> data[k] == 0
  {
    var off := AlignDatum(|done|, col, value);
    var front := done + seq(off - |done|, _ => 0);
    assert data[..|front + value|] == front + value;
    assert data[off..off + |value|] == data[..|front + value|][off..];
  }

  /** The reader, peeking at what may be a pad byte, aligns exactly as the writer did. */
  lemma SameAlignment(done: seq<Byte>, col: Column, value: seq<Byte>, data: seq<Byte>)
    requires Fits(col, value)
    requires done + seq(AlignDatum(|done|, col, value) - |done|, _ => 0) + value <= data
    ensures |done| < |data| && AlignPointer(|done|, col, data) == AlignDatum(|done|, col, value)
  {
    hide TypeAlign;
    Placed(done, col, value, data);
    LengthLocal(data, AlignDatum(|done|, col, value), col, value);
  }

  /** The values of a row that are not null. */
  function Present(vals: seq<Option<seq<Byte>>>): seq<seq<Byte>>
  {
    if vals == [] then [] else (match vals[0] case None => [] case Some(v) => [v]) + Present(vals[1..])
  }

  /** At each offset stands the value. */
  ghost predicate Found(data: seq<Byte>, offs: seq<nat>, values: seq<seq<Byte>>)
  {
    |offs| == |values| &&
    forall k :: 0 <= k < |offs| ==> offs[k] + |values[k]| <= |data| && data[offs[k]..offs[k] + |values[k]|] == values[k]
  }

  /** For every row the reader visits the offsets the writer chose and ends at the end of the
      data; at those offsets stand the values. */
  lemma {:induction false} ReaderAgrees(cols: seq<Column>, vals: seq<Option<seq<Byte>>>, done: seq<Byte>,
                                        data: seq<Byte>)
    requires Row(cols, vals) && data == Form(cols, vals, done)
    ensures Walk(cols, Nulls(vals), data, |done|) == Some((Offsets(cols, vals, |done|), |data|))
    ensures Found(data, Offsets(cols, vals, |done|), Present(vals))
    decreases |cols|
  {
    hide AlignDatum, AlignPointer, AddLength, Found;
    if cols == [] {
      NoneFound(data);
    } else {
      assert Nulls(vals)[1..] == Nulls(vals[1..]) && Nulls(vals)[0] == vals[0].None?;
      if vals[0].None? {
        ReaderAgrees(cols[1..], vals[1..], done, data);
        assert Present(vals) == Present(vals[1..]);
        hide Form;
      } else {
        var value := vals[0].value;
        var off := AlignDatum(|done|, cols[0], value);
        var done' := done + seq(off - |done|, _ => 0) + value;
        assert data == Form(cols[1..], vals[1..], done');
        assert Offsets(cols, vals, |done|) == [off] + Offsets(cols[1..], vals[1..], |done'|);
        assert Present(vals) == [value] + Present(vals[1..]);
        hide Form, Offsets, Present, Walk, Nulls, Fits;
        SameAlignment(done, cols[0], value, data);
        Placed(done, cols[0], value, data);
        LengthLocal(data, off, cols[0], value);
        ReaderAgrees(cols[1..], vals[1..], done', data);
        var rest := Offsets(cols[1..], vals[1..], |done'|);
        WalkStep(cols, Nulls(vals), data, |done|, off, |done'|, rest, |data|);
        FoundMore(data, off, value, rest, Present(vals[1..]));
      }
    }
  }

  lemma WalkStep(cols: seq<Column>, nulls: seq<bool>, data: seq<Byte>, cur: nat, off: nat, next: nat,
                 rest: seq<nat>, end: nat)
    requires |cols| == |nulls| && cols != [] && !nulls[0] && cur < |data|
    requires AlignPointer(cur, cols[0], data) == off <= |data| && AddLength(off, cols[0], data) == Some(next)
    requires Walk(cols[1..], nulls[1..], data, next) == Some((rest, end))
    ensures Walk(cols, nulls, data, cur) == Some(([off] + rest, end))
  {
    hide AlignPointer, AddLength;
  }

  lemma NoneFound(data: seq<Byte>)
    ensures Found(data, [], [])
  {
  }

  lemma FoundMore(data: seq<Byte>, off: nat, value: seq<Byte>, offs: seq<nat>, values: seq<seq<Byte>>)
    requires off + |value| <= |data| && data[off..off + |value|] == value && Found(data, offs, values)
    ensures Found(data, [off] + offs, [value] + values)
  {
  }

  // ---- where the values lie ----------------------------------------------------------------------

  /** The alignment in bytes. */
  function Width(align: Align): nat
  {
    match align case Int => 4 case Char => 1 case Double => 8 case Short => 2
  }

  /** `off` is the right place for the value when the data reaches to `cur`: a varlena whose first
      byte is odd follows at once, any other value at the next multiple of its alignment. */
  ghost predicate InPlace(col: Column, value: seq<Byte>, cur: nat, off: nat)
    requires value != []
  {
    if col.attlen == VARLENA && value[0] % 2 == 1 then off == cur
    else off % Width(col.attalign) == 0 && cur <= off < cur + Width(col.attalign)
  }

  /** Each of the values lies in its right place behind the one before it. */
  ghost predicate AllInPlace(cols: seq<Column>, vals: seq<Option<seq<Byte>>>, offs: seq<nat>, cur: nat)
    requires Row(cols, vals)
  {
    if cols == [] then offs == []
    else if vals[0].None? then AllInPlace(cols[1..], vals[1..], offs, cur)
    else
      && offs != [] && InPlace(cols[0], vals[0].value, cur, offs[0])
      && AllInPlace(cols[1..], vals[1..], offs[1..], offs[0] + |vals[0].value|)
  }

  /** The writer puts every value in its right place. */
  lemma {:induction false} OffsetsInPlace(cols: seq<Column>, vals: seq<Option<seq<Byte>>>, cur: nat)
    requires Row(cols, vals)
    ensures AllInPlace(cols, vals, Offsets(cols, vals, cur), cur)
  {
    hide InPlace, AlignDatum, AddLength;
    if cols != [] {
      if vals[0].None? {
        OffsetsInPlace(cols[1..], vals[1..], cur);
      } else {
        var value := vals[0].value;
        var off := AlignDatum(cur, cols[0], value);
        DatumInPlace(cols[0], value, cur);
        OffsetsInPlace(cols[1..], vals[1..], off + |value|);
        assert ([off] + Offsets(cols[1..], vals[1..], off + |value|))[1..]
            == Offsets(cols[1..], vals[1..], off + |value|);
      }
    }
  }

  lemma DatumInPlace(col: Column, value: seq<Byte>, cur: nat)
    requires value != []
    ensures InPlace(col, value, cur, AlignDatum(cur, col, value))
  {
    hide AlignNominal;
    AlignNominalIsLeast(cur, col.attalign);
  }

  /** The reader's place on any data, whatever stands there: a varlena is read at once if the byte is
      not zero; everything else at the next multiple of its alignment. */
  lemma PointerInPlace(cur: nat, col: Column, data: seq<Byte>)
    requires cur < |data|
    ensures var off := AlignPointer(cur, col, data);
            if col.attlen == VARLENA && data[cur] != 0 then off == cur
            else off % Width(col.attalign) == 0 && cur <= off < cur + Width(col.attalign)
  {
    hide AlignNominal;
    AlignNominalIsLeast(cur, col.attalign);
  }

  function Joined(values: seq<seq<Byte>>): seq<Byte>
  {
    if values == [] then [] else values[0] + Joined(values[1..])
  }

  /** So a row of short varlenas is stored as its values, one directly after the other. */
  lemma {:induction false} ShortRowIsJoined(cols: seq<Column>, vals: seq<Option<seq<Byte>>>, done: seq<Byte>)
    requires Row(cols, vals)
    requires forall k :: 0 <= k < |cols| && vals[k].Some? ==> cols[k].attlen == VARLENA && vals[k].value[0] % 2 == 1
    ensures Form(cols, vals, done) == done + Joined(Present(vals))
    decreases |cols|
  {
    if cols == [] {
      assert done + [] == done;
    } else if vals[0].None? {
      ShortRowIsJoined(cols[1..], vals[1..], done);
      assert [] + Present(vals[1..]) == Present(vals[1..]);
    } else {
      var value := vals[0].value;
      DatumInPlace(cols[0], value, |done|);
      hide Fits, AlignDatum;
      assert AlignDatum(|done|, cols[0], value) == |done|;
      assert done + seq(0, _ => 0) + value == done + value;
      ShortRowIsJoined(cols[1..], vals[1..], done + value);
      ConcatAssoc(done, value, Joined(Present(vals[1..])));
      assert [value] + Present(vals[1..]) == Present(vals);
      assert ([value] + Present(vals[1..]))[1..] == Present(vals[1..]);
    }
  }

  // ---- the dumper's walk ----------------------------------------------------------------------------

  /** The columns the dumper knows: aligned four-byte integers, and varlenas. */
  predicate DumperColumn(col: Column)
  {
    col == Column(4, Int) || col == Column(VARLENA, Int)
  }

  /** The dumper's walk: it pads before an integer, never before a varlena. */
  function DumperWalk(cols: seq<Column>, nulls: seq<bool>, data: seq<Byte>, pos: nat): Option<(seq<nat>, nat)>
    requires |cols| == |nulls|
  {
    if cols == [] then Some(([], pos))
    else if nulls[0] then DumperWalk(cols[1..], nulls[1..], data, pos)
    else
      var off: nat := if cols[0].attlen == VARLENA then pos else pos + WordPadding(pos);
      if cols[0].attlen == VARLENA && !SizeReadable(data, off) then None
      else
        var next := if cols[0].attlen == VARLENA then off + Size(data, off) else off + 4;
        match DumperWalk(cols[1..], nulls[1..], data, next)
        case None => None
        case Some(rest) => Some(([off] + rest.0, rest.1))
  }

  /** No varlena of the row has a pad byte before it. */
  predicate NoPaddedVarlena(cols: seq<Column>, vals: seq<Option<seq<Byte>>>, cur: nat)
    requires Row(cols, vals)
  {
    if cols == [] then true
    else if vals[0].None? then NoPaddedVarlena(cols[1..], vals[1..], cur)
    else
      var off := AlignDatum(cur, cols[0], vals[0].value);
      (cols[0].attlen == VARLENA ==> off == cur) && NoPaddedVarlena(cols[1..], vals[1..], off + |vals[0].value|)
  }

  /** A TOAST pointer is 18 bytes long, its length byte included. */
  predicate PointerIs18(value: seq<Byte>)
    requires value != []
  {
    Is1BE(value[0]) ==> |value| == 18
  }

  /** Rows of the dumper's columns, TOAST pointers 18 bytes long. */
  predicate DumperRow(cols: seq<Column>, vals: seq<Option<seq<Byte>>>)
  {
    && Row(cols, vals)
    && (forall k :: 0 <= k < |cols| ==> DumperColumn(cols[k]))
    && forall k :: 0 <= k < |cols| && cols[k].attlen == VARLENA && vals[k].Some? ==> PointerIs18(vals[k].value)
  }

  lemma DumperSize(s: seq<Byte>, at: nat, value: seq<Byte>)
    requires Fits(Column(VARLENA, Int), value) && at + |value| <= |s| && s[at..at + |value|] == value
    requires PointerIs18(value)
    ensures SizeReadable(s, at) && Size(s, at) == |value|
  {
    LengthLocal(s, at, Column(VARLENA, Int), value);
    SizesAgree(s, at);
  }

  /** The dumper's padding is integer alignment. */
  lemma PaddingAligns(pos: nat)
    ensures pos + WordPadding(pos) == AlignNominal(pos, Int)
  {
  }

  /** One step of the dumper at the place the writer put the value. */
  lemma DumperStep(done: seq<Byte>, col: Column, value: seq<Byte>, data: seq<Byte>)
    requires Fits(col, value) && DumperColumn(col) && (col.attlen == VARLENA ==> PointerIs18(value))
    requires done + seq(AlignDatum(|done|, col, value) - |done|, _ => 0) + value <= data
    ensures var off := AlignDatum(|done|, col, value);
            if col.attlen == VARLENA then off == |done| ==> SizeReadable(data, off) && Size(data, off) == |value|
            else off == |done| + WordPadding(|done|) && |value| == 4
  {
    Placed(done, col, value, data);
    if col.attlen == VARLENA {
      DumperSize(data, AlignDatum(|done|, col, value), value);
    } else {
      PaddingAligns(|done|);
    }
  }

  /** The dumper visits the writer's offsets and ends at the end of the data exactly when no
      varlena of the row is preceded by padding. */
  lemma {:induction false} DumperAgreesIff(cols: seq<Column>, vals: seq<Option<seq<Byte>>>, done: seq<Byte>,
                                           data: seq<Byte>)
    requires DumperRow(cols, vals) && data == Form(cols, vals, done)
    ensures DumperWalk(cols, Nulls(vals), data, |done|) == Some((Offsets(cols, vals, |done|), |data|))
       <==> NoPaddedVarlena(cols, vals, |done|)
    decreases |cols|
  {
    hide AlignDatum, WordPadding, SizeReadable, Size, AddLength;
    if cols != [] {
      assert Nulls(vals)[1..] == Nulls(vals[1..]);
      if vals[0].None? {
        DumperAgreesIff(cols[1..], vals[1..], done, data);
      } else {
        var value := vals[0].value;
        var off := AlignDatum(|done|, cols[0], value);
        var done' := done + seq(off - |done|, _ => 0) + value;
        assert DumperColumn(cols[0]);
        DumperStep(done, cols[0], value, data);
        DumperAgreesIff(cols[1..], vals[1..], done', data);
        var tail := DumperWalk(cols[1..], Nulls(vals)[1..], data, off + |value|);
        if tail.Some? {
          assert ([off] + tail.value.0)[1..] == tail.value.0;
          var offs := Offsets(cols[1..], vals[1..], off + |value|);
          assert ([off] + offs)[1..] == offs;
        }
      }
    }
  }

  // ---- the null bitmap ---------------------------------------------------------------------------

  /** The bitmap byte of up to eight attributes: a set bit for each that is not null. */
  function BitmapByte(vals: seq<Option<seq<Byte>>>): (r: nat)
    ensures r < Pow2(|vals|)
  {
    if vals == [] then 0 else 2 * BitmapByte(vals[1..]) + (if vals[0].Some? then 1 else 0)
  }

  function Bitmap(vals: seq<Option<seq<Byte>>>): seq<nat>
  {
    if vals == [] then []
    else if |vals| <= 8 then [BitmapByte(vals)]
    else [BitmapByte(vals[..8])] + Bitmap(vals[8..])
  }

  /** `att_isnull`. */
  predicate AttIsNull(att: nat, bits: seq<nat>)
    requires att / 8 < |bits|
  {
    Bit(bits[att / 8], att % 8) == 0
  }

  lemma {:induction false} BitmapByteBit(vals: seq<Option<seq<Byte>>>, k: nat)
    requires k < |vals|
    ensures Bit(BitmapByte(vals), k) == if vals[k].Some? then 1 else 0
  {
    if k > 0 { BitmapByteBit(vals[1..], k - 1); }
  }

  /** The bitmap tells exactly which attributes are null. */
  lemma {:induction false} BitmapTellsNulls(vals: seq<Option<seq<Byte>>>, att: nat)
    requires att < |vals|
    ensures att / 8 < |Bitmap(vals)| && (AttIsNull(att, Bitmap(vals)) <==> vals[att].None?)
    decreases |vals|
  {
    if |vals| <= 8 {
      BitmapByteBit(vals, att);
    } else if att < 8 {
      BitmapByteBit(vals[..8], att);
    } else {
      BitmapTellsNulls(vals[8..], att - 8);
    }
  }

  /** The bitmap is stored only if some attribute is null. */
  function StoredBitmap(vals: seq<Option<seq<Byte>>>): Option<seq<nat>>
  {
    if exists k :: 0 <= k < |vals| && vals[k].None? then Some(Bitmap(vals)) else None
  }

  /** `has_attribute`, negated, for the first `n` attributes. */
  function NullsRead(bitmap: Option<seq<nat>>, n: nat): seq<bool>
    requires bitmap.Some? ==> n <= 8 * |bitmap.value|
  {
    seq(n, att requires 0 <= att < n => bitmap.Some? && AttIsNull(att, bitmap.value))
  }

  lemma NullsAreRead(vals: seq<Option<seq<Byte>>>)
    ensures var bitmap := StoredBitmap(vals);
            (bitmap.Some? ==> |vals| <= 8 * |bitmap.value|) && NullsRead(bitmap, |vals|) == Nulls(vals)
  {
    hide Bitmap, AttIsNull;
    forall att | 0 <= att < |vals|
      ensures att / 8 < |Bitmap(vals)| && (AttIsNull(att, Bitmap(vals)) <==> vals[att].None?)
    {
      BitmapTellsNulls(vals, att);
    }
    if vals != [] { BitmapTellsNulls(vals, |vals| - 1); }
  }

  // ---- the sample table --------------------------------------------------------------------------------

  /** The columns `user_code` walks through. */
  const GRUPO: seq<Column> :=
    [Column(4, Int), Column(VARLENA, Int), Column(VARLENA, Int), Column(VARLENA, Int), Column(VARLENA, Int),
     Column(4, Int), Column(VARLENA, Int), Column(VARLENA, Int), Column(4, Int), Column(VARLENA, Int),
     Column(VARLENA, Int)]

  /** Eleven int-aligned columns: an id, four texts, a number, two texts, a number, a text, a point. */
  lemma GrupoColumns()
    ensures |GRUPO| == 11 && forall k :: 0 <= k < 11 ==>
      GRUPO[k] == Column(if k == 0 || k == 5 || k == 8 then 4 else -1, Int)
  {
  }

  /** `user_code`, walking one row: the offsets it reads at, if its assertions hold. The first
      two attributes must not be null, and the walk must end at the end of the data. */
  function UserCodeOffsets(nulls: seq<bool>, data: seq<Byte>): Option<seq<nat>>
    requires |nulls| == |GRUPO|
  {
    if nulls[0] || nulls[1] then None
    else
      match DumperWalk(GRUPO, nulls, data, 0)
      case None => None
      case Some(w) => if w.1 == |data| then Some(w.0) else None
  }

  /** Whatever the data: the three assertions, and where the values are read. */
  lemma UserCodeAsserts(nulls: seq<bool>, data: seq<Byte>)
    requires |nulls| == 11
    ensures var walk := DumperWalk(GRUPO, nulls, data, 0);
            && (UserCodeOffsets(nulls, data).Some? <==> !nulls[0] && !nulls[1] && walk.Some? && walk.value.1 == |data|)
            && (UserCodeOffsets(nulls, data).Some? ==> UserCodeOffsets(nulls, data).value == walk.value.0)
  {
    GrupoColumns();
    hide DumperWalk, GRUPO;
  }

  /** On a row of the sample table, guided by the stored null bitmap, the dumper passes its
      assertions and reads at the offsets PostgreSQL's reader visits exactly when the first two
      attributes are not null and no varlena is preceded by padding. */
  lemma UserCodeWalk(vals: seq<Option<seq<Byte>>>)
    requires DumperRow(GRUPO, vals)
    ensures var bitmap, data := StoredBitmap(vals), Form(GRUPO, vals, []);
            && (bitmap.Some? ==> |GRUPO| <= 8 * |bitmap.value|)
            && var nulls := NullsRead(bitmap, |GRUPO|);
            && Walk(GRUPO, nulls, data, 0).Some?
            && (UserCodeOffsets(nulls, data) == Some(Walk(GRUPO, nulls, data, 0).value.0)
                <==> vals[0].Some? && vals[1].Some? && NoPaddedVarlena(GRUPO, vals, 0))
  {
    NullsAreRead(vals);
    ReaderAgrees(GRUPO, vals, [], Form(GRUPO, vals, []));
    DumperAgreesIff(GRUPO, vals, [], Form(GRUPO, vals, []));
    assert Nulls(vals)[0] == vals[0].None? && Nulls(vals)[1] == vals[1].None?;
    hide Form, DumperWalk, Walk, Offsets, NoPaddedVarlena, StoredBitmap, NullsRead, Nulls;
  }
}
