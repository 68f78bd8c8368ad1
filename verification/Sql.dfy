/** The SQL script: string literals, and rows batched into INSERT statements. */
module Sql {
  import opened Bytes
  import opened Wrappers

  // ---- string literals ---------------------------------------------------------------------

  /** What a character becomes inside an escape string. */
  function EscapedChar(c: char): string
  {
    if c == '\\' then "\\\\" else if c == '\'' then "''" else [c]
  }

  function Escaped(s: string): string
  {
    if s == [] then [] else Escaped(s[..|s| - 1]) + EscapedChar(s[|s| - 1])
  }

  /** The text written for a varlena, null or not. */
  function SqlText(v: Option<string>): string
  {
    match v case None => "NULL" case Some(s) => "E'" + Escaped(s) + "'"
  }

  lemma EscapedStep(s: string, k: nat)
    requires k < |s|
    ensures Escaped(s[..k + 1]) == Escaped(s[..k]) + EscapedChar(s[k])
  {
    assert s[..k + 1][..k] == s[..k];
  }

  lemma EscapedNothing(t: string, s: string)
    ensures t + Escaped(s[..0]) == t
  {
  }

  /** `sql_varlena`: append to the stream, character by character. */
  method SqlVarlena(stream0: string, v: Option<string>) returns (stream: string)
    ensures stream == stream0 + SqlText(v)
  {
    if v.None? {
      return stream0 + "NULL";
    }
    hide Escaped;
    var str := v.value;
    stream := stream0 + "E'";
    var each := 0;
    EscapedNothing(stream, str);
    while each < |str|
      invariant 0 <= each <= |str| && stream == (stream0 + "E'") + Escaped(str[..each])
    {
      EscapedStep(str, each);
      ConcatAssoc(stream0 + "E'", Escaped(str[..each]), EscapedChar(str[each]));
      if str[each] == '\\' {
        stream := stream + "\\\\";
      } else if str[each] == '\'' {
        stream := stream + "''";
      } else {
        stream := stream + [str[each]];
      }
      each := each + 1;
    }
    assert str[..each] == str;
    ConcatAssoc(stream0 + "E'", Escaped(str), "'");
    ConcatAssoc(stream0, "E'", Escaped(str) + "'");
    ConcatAssoc("E'", Escaped(str), "'");
    stream := stream + "'";
  }

  /** The rest of an escape string, per section 4.1.2.2 of the PostgreSQL documentation: its
      value and what follows it. Numeric escapes are not read. */
  function ReadBody(t: string): Option<(string, string)>
    decreases |t|
  {
    if t == [] then None
    else if t[0] == '\'' then
      if |t| > 1 && t[1] == '\'' then Prepend('\'', ReadBody(t[2..])) else Some(([], t[1..]))
    else if t[0] == '\\' then
      if |t| == 1 || t[1] in "01234567xuU" then None
      else Prepend(BackslashChar(t[1]), ReadBody(t[2..]))
    else Prepend(t[0], ReadBody(t[1..]))
  }

  function BackslashChar(c: char): char
  {
    if c == 'b' then 8 as char else if c == 'f' then 12 as char else if c == 'n' then '\n'
    else if c == 'r' then '\r' else if c == 't' then '\t' else c
  }

  function Prepend(c: char, r: Option<(string, string)>): Option<(string, string)>
  {
    match r case None => None case Some(p) => Some(([c] + p.0, p.1))
  }

  /** A whole escape string constant. */
  function ReadLiteral(t: string): Option<(string, string)>
  {
    if |t| >= 2 && t[0] == 'E' && t[1] == '\'' then ReadBody(t[2..]) else None
  }

  lemma ReadChar(c: char, t: string)
    requires t != []
    ensures ReadBody(EscapedChar(c) + t) == Prepend(c, ReadBody(t))
  {
    var u := EscapedChar(c) + t;
    assert u[|EscapedChar(c)|..] == t;
  }

  lemma {:induction false} ReadEscaped(s: string, t: string)
    requires t != []
    ensures ReadBody(Escaped(s) + t)
         == match ReadBody(t) case None => None case Some(p) => Some((s + p.0, p.1))
  {
    if s == [] {
      assert Escaped(s) + t == t;
      if ReadBody(t).Some? { assert s + ReadBody(t).value.0 == ReadBody(t).value.0; }
    } else {
      hide ReadBody;
      var init, c := s[..|s| - 1], s[|s| - 1];
      ConcatAssoc(Escaped(init), EscapedChar(c), t);
      ReadEscaped(init, EscapedChar(c) + t);
      ReadChar(c, t);
      if ReadBody(t).Some? {
        ConcatAssoc(init, [c], ReadBody(t).value.0);
        assert init + [c] == s;
      }
    }
  }

  /** Whatever the string holds, the literal written for it reads back as that string, and
      ends where it should, provided no quote follows it. */
  lemma LiteralReadsBack(s: string, rest: string)
    requires rest == [] || rest[0] != '\''
    ensures ReadLiteral(SqlText(Some(s)) + rest) == Some((s, rest))
  {
    var t := SqlText(Some(s)) + rest;
    assert t[2..] == Escaped(s) + ("'" + rest);
    ReadEscaped(s, "'" + rest);
    assert ("'" + rest)[1..] == rest;
    assert s + [] == s;
  }

  /** A value in a list: the keyword NULL, or an escape string constant, up to a comma or the closing
      parenthesis. */
  function ReadValue(t: string): Option<(Option<string>, string)>
  {
    if |t| >= 5 && t[..4] == ['N', 'U', 'L', 'L'] && (t[4] == ',' || t[4] == ')') then Some((None, t[4..]))
    else
      match ReadLiteral(t)
      case None => None
      case Some(r) => if r.1 != [] && (r.1[0] == ',' || r.1[0] == ')') then Some((Some(r.0), r.1)) else None
  }

  /** Any value, null or not, reads back as itself. */
  lemma ValueReadsBack(v: Option<string>, rest: string)
    requires rest != [] && (rest[0] == ',' || rest[0] == ')')
    ensures ReadValue(SqlText(v) + rest) == Some((v, rest))
  {
    var t := SqlText(v) + rest;
    match v {
      case None =>
        assert t[..4] == ['N', 'U', 'L', 'L'] && t[4..] == rest;
      case Some(s) =>
        LiteralReadsBack(s, rest);
        assert t[0] == 'E';
    }
  }

  // ---- batching -------------------------------------------------------------------------------

  /** What the run writes, one stream insertion each; row text is kept opaque. */
  datatype Piece = Begin | Insert | Row(text: string) | Comma | Semicolon | Commit

  /** What becomes of an item: its row is printed, an exception was thrown while its text was
      made, or the walk did not end at the end of the data. */
  datatype RowResult = Printed(text: string) | Threw | AssertFailed

  const BATCH := 500

  /** What goes before a row when the counter, an `unsigned int`, stands at `count`. */
  function Lead(count: nat): seq<Piece>
  {
    if count % BATCH == 0 then (if count != 0 then [Semicolon, Insert] else [Insert]) else [Comma]
  }

  /** The rows, each after its lead, when `n` have been printed before. */
  function Body(n: nat, rows: seq<string>): seq<Piece>
    decreases |rows|
  {
    if rows == [] then [] else Lead(n % WORD) + [Row(rows[0])] + Body(n + 1, rows[1..])
  }

  lemma {:induction false} BodyAppend(n: nat, a: seq<string>, b: seq<string>)
    ensures Body(n, a + b) == Body(n, a) + Body(n + |a|, b)
    decreases |a|
  {
    hide Lead;
    if a == [] {
      assert a + b == b;
      assert [] + Body(n, b) == Body(n, b);
    } else {
      BodyAppend(n + 1, a[1..], b);
      assert (a + b)[0] == a[0] && (a + b)[1..] == a[1..] + b;
      ConcatAssoc(Lead(n % WORD) + [Row(a[0])], Body(n + 1, a[1..]), Body(n + |a|, b));
    }
  }

  lemma BodyOne(n: nat, text: string)
    ensures Body(n, [text]) == Lead(n % WORD) + [Row(text)]
  {
    assert Body(n + 1, [text][1..]) == [];
  }

  /** The script writer and its static counter. */
  class Script {
    var stream: seq<Piece>
    var insertionCount: nat
    /** The rows printed so far. */
    ghost var rows: seq<string>

    ghost predicate Valid()
      reads this
    {
      insertionCount == |rows| % WORD && stream == [Begin] + Body(0, rows)
    }

    /** `user_code_setup`. */
    constructor ()
      ensures Valid() && rows == []
    {
      stream, insertionCount, rows := [Begin], 0, [];
    }

    /** `user_code`: all of a row or nothing. A failed assertion ends the process. */
    method UserCode(row: RowResult) returns (alive: bool)
      requires Valid()
      modifies this
      ensures alive == !row.AssertFailed?
      ensures Valid() && rows == if row.Printed? then old(rows) + [row.text] else old(rows)
    {
      hide Body;
      var allOutput: seq<Piece> := [];
      if insertionCount % BATCH == 0 {
        if insertionCount != 0 {
          allOutput := allOutput + [Semicolon];
        }
        allOutput := allOutput + [Insert];
      } else {
        allOutput := allOutput + [Comma];
      }
      assert allOutput == Lead(insertionCount);
      hide Lead;
      match row {
        case AssertFailed => return false;
        case Threw =>
        case Printed(text) =>
          allOutput := allOutput + [Row(text)];
          BodyAppend(0, rows, [text]);
          BodyOne(|rows|, text);
          ConcatAssoc([Begin], Body(0, rows), allOutput);
          stream := stream + allOutput;
          insertionCount := (insertionCount + 1) % WORD;
          rows := rows + [text];
      }
      return true;
    }

    /** `user_code_finish`. */
    method Finish()
      requires Valid()
      modifies this
      ensures stream == ScriptOf(rows) && rows == old(rows)
    {
      stream := stream + [Semicolon];
      stream := stream + [Commit];
    }
  }

  function ScriptOf(rows: seq<string>): seq<Piece>
  {
    [Begin] + Body(0, rows) + [Semicolon] + [Commit]
  }

  /** The texts of the rows that were printed. */
  function PrintedRows(items: seq<RowResult>): seq<string>
  {
    if items == [] then []
    else
      var last := items[|items| - 1];
      PrintedRows(items[..|items| - 1]) + (if last.Printed? then [last.text] else [])
  }

  lemma NonePrinted(items: seq<RowResult>)
    ensures PrintedRows(items[..0]) == []
  {
  }

  lemma PrintedStep(items: seq<RowResult>, k: nat)
    requires k < |items|
    ensures PrintedRows(items[..k + 1])
         == PrintedRows(items[..k]) + (if items[k].Printed? then [items[k].text] else [])
  {
    assert items[..k + 1][..k] == items[..k];
  }

  /** A whole run over the items of a file. */
  method Run(items: seq<RowResult>) returns (done: bool, stream: seq<Piece>)
    ensures done <==> forall k :: 0 <= k < |items| ==> !items[k].AssertFailed?
    ensures done ==> stream == ScriptOf(PrintedRows(items))
  {
    hide Body, ScriptOf, Lead, PrintedRows;
    assert PrintedRows(items[..0]) == [] by { NonePrinted(items); }
    var script := new Script();
    var i := 0;
    while i < |items|
      invariant 0 <= i <= |items| && script.Valid() && fresh(script)
      invariant script.rows == PrintedRows(items[..i])
      invariant forall k :: 0 <= k < i ==> !items[k].AssertFailed?
    {
      PrintedStep(items, i);
      var alive := script.UserCode(items[i]);
      if !alive {
        return false, script.stream;
      }
      i := i + 1;
    }
    assert items[..i] == items;
    script.Finish();
    return true, script.stream;
  }

  // ---- reading the script back ----------------------------------------------------------------------

  /** The rows of one statement, and what follows its semicolon. */
  function ReadRows(p: seq<Piece>): (r: Option<(seq<string>, seq<Piece>)>)
    ensures r.Some? ==> |r.value.1| < |p|
    decreases |p|
  {
    if |p| < 2 || !p[0].Row? then None
    else if p[1] == Semicolon then Some(([p[0].text], p[2..]))
    else if p[1] == Comma then
      match ReadRows(p[2..])
      case None => None
      case Some(r) => Some(([p[0].text] + r.0, r.1))
    else None
  }

  function ReadStatements(p: seq<Piece>): Option<seq<seq<string>>>
    decreases |p|
  {
    if p == [] then Some([])
    else if p[0] != Insert then None
    else
      match ReadRows(p[1..])
      case None => None
      case Some(r) =>
        match ReadStatements(r.1) case None => None case Some(more) => Some([r.0] + more)
  }

  /** A script: INSERT statements in a transaction, or a single empty statement. */
  function ReadScript(p: seq<Piece>): Option<seq<seq<string>>>
  {
    if |p| < 3 || p[0] != Begin || p[|p| - 1] != Commit then None
    else if p[1..|p| - 1] == [Semicolon] then Some([])
    else ReadStatements(p[1..|p| - 1])
  }

  /** The rows in order, 500 to a statement and the remainder in the last. */
  function Batches(rows: seq<string>): seq<seq<string>>
  {
    if rows == [] then [] else if |rows| <= BATCH then [rows] else [rows[..BATCH]] + Batches(rows[BATCH..])
  }

  /** Where the k-th batch ends. */
  function BatchEnd(n: nat, k: nat): nat
  {
    if 500 * (k + 1) <= n then 500 * (k + 1) else n
  }

  lemma {:induction false} BatchesAre(rows: seq<string>)
    ensures |Batches(rows)| == (|rows| + 499) / 500
    ensures forall k :: 0 <= k < |Batches(rows)| ==>
      500 * k < BatchEnd(|rows|, k) <= |rows| && Batches(rows)[k] == rows[500 * k..BatchEnd(|rows|, k)]
  {
    if |rows| > BATCH {
      var rest := rows[BATCH..];
      BatchesAre(rest);
      forall k | 0 < k < |Batches(rows)|
        ensures BATCH * k < BatchEnd(|rows|, k) <= |rows| && Batches(rows)[k] == rows[BATCH * k..BatchEnd(|rows|, k)]
      {
        var from, to := BATCH * (k - 1), BatchEnd(|rest|, k - 1);
        assert Batches(rows)[k] == Batches(rest)[k - 1] == rest[from..to];
        LaterSlice(rows, BATCH, from, to);
      }
    }
  }

  lemma LaterSlice<T>(s: seq<T>, n: nat, from: nat, to: nat)
    requires n <= |s| && from <= to <= |s| - n
    ensures s[n..][from..to] == s[n + from..n + to]
  {
  }

  /** Inside a batch every row but the first follows a comma. */
  function Joined(rows: seq<string>): seq<Piece>
    requires rows != []
  {
    if |rows| == 1 then [Row(rows[0])] else [Row(rows[0]), Comma] + Joined(rows[1..])
  }

  /** The pieces of a body without its first lead. */
  function Rest(n: nat, rows: seq<string>): seq<Piece>
    requires rows != []
  {
    [Row(rows[0])] + Body(n + 1, rows[1..])
  }

  lemma NextRemainder(n: nat)
    requires n % 500 + 2 <= 500
    ensures (n + 1) % 500 == n % 500 + 1
  {
    var q, r := n / 500, n % 500;
    assert n + 1 == 500 * q + (r + 1);
  }

  /** Inside a batch the lead is a comma. */
  lemma LeadInside(n: nat)
    requires n % BATCH + 2 <= BATCH && n + 1 < WORD
    ensures (n + 1) % BATCH == n % BATCH + 1 && Lead((n + 1) % WORD) == [Comma]
  {
    NextRemainder(n);
    assert (n + 1) % WORD == n + 1;
  }

  /** After a full batch the lead closes its statement. */
  lemma LeadAfter(n: nat)
    requires n % BATCH == 0 && n + BATCH < WORD
    ensures (n + BATCH) % BATCH == 0 && Lead((n + BATCH) % WORD) == [Semicolon, Insert]
  {
    assert (n + BATCH) % BATCH == 0;
  }

  /** Up to the end of a batch, rows are joined by commas. */
  lemma {:induction false} RestSplit(n: nat, rows: seq<string>, k: nat)
    requires 1 <= k <= |rows| && n % BATCH + k <= BATCH && n + k <= WORD
    ensures Rest(n, rows) == Joined(rows[..k]) + Body(n + k, rows[k..])
    decreases k
  {
    if k == 1 {
      assert rows[..1] == [rows[0]];
      assert Joined([rows[0]]) == [Row(rows[0])];
      hide Body, Joined;
    } else {
      var tail := rows[1..];
      JoinedComma(rows, k);
      hide Lead, Rest, Body, Joined;
      LeadInside(n);
      RestSplit(n + 1, tail, k - 1);
      assert tail[k - 1..] == rows[k..];
      RestComma(n, rows);
      ConcatAssoc([Row(rows[0]), Comma], Joined(tail[..k - 1]), Body(n + k, rows[k..]));
    }
  }

  lemma JoinedComma(rows: seq<string>, k: nat)
    requires 1 < k <= |rows|
    ensures Joined(rows[..k]) == [Row(rows[0]), Comma] + Joined(rows[1..][..k - 1])
  {
    assert rows[..k][1..] == rows[1..][..k - 1];
  }

  lemma RestComma(n: nat, rows: seq<string>)
    requires |rows| > 1 && Lead((n + 1) % WORD) == [Comma]
    ensures Rest(n, rows) == [Row(rows[0]), Comma] + Rest(n + 1, rows[1..])
  {
    BodyIs(n + 1, rows[1..]);
    hide Body, Lead;
    var rest := Rest(n + 1, rows[1..]);
    assert Rest(n, rows) == [Row(rows[0])] + ([Comma] + rest);
    hide Rest;
    ConcatAssoc([Row(rows[0])], [Comma], rest);
    assert [Row(rows[0])] + [Comma] == [Row(rows[0]), Comma];
  }

  lemma RestAppend(n: nat, a: seq<string>, b: seq<string>)
    requires a != []
    ensures Rest(n, a + b) == Rest(n, a) + Body(n + |a|, b)
  {
    assert (a + b)[0] == a[0] && (a + b)[1..] == a[1..] + b;
    BodyAppend(n + 1, a[1..], b);
    assert Rest(n, a + b) == [Row(a[0])] + Body(n + 1, a[1..] + b);
    hide Body;
    ConcatAssoc([Row(a[0])], Body(n + 1, a[1..]), Body(n + |a|, b));
  }

  lemma BodyIs(n: nat, rows: seq<string>)
    requires rows != []
    ensures Body(n, rows) == Lead(n % WORD) + Rest(n, rows)
  {
    ConcatAssoc(Lead(n % WORD), [Row(rows[0])], Body(n + 1, rows[1..]));
  }

  lemma {:induction false} ReadJoined(rows: seq<string>, rest: seq<Piece>)
    requires rows != []
    ensures ReadRows(Joined(rows) + ([Semicolon] + rest)) == Some((rows, rest))
    ensures rest != [] && rest[0] == Insert ==> ReadRows(Joined(rows) + rest) == None
  {
    if |rows| == 1 {
      ReadLast(rows[0], rest);
      assert Joined(rows) == [Row(rows[0])] && [rows[0]] == rows;
      hide ReadRows, Joined;
    } else {
      var more := rows[1..];
      assert Joined(rows) == [Row(rows[0]), Comma] + Joined(more);
      hide Joined;
      ReadJoined(more, rest);
      ConcatAssoc([Row(rows[0]), Comma], Joined(more), [Semicolon] + rest);
      ConcatAssoc([Row(rows[0]), Comma], Joined(more), rest);
      ReadNext(rows[0], Joined(more) + ([Semicolon] + rest));
      ReadNext(rows[0], Joined(more) + rest);
      hide ReadRows;
      assert [rows[0]] + more == rows;
    }
  }

  lemma ReadLast(text: string, rest: seq<Piece>)
    ensures ReadRows([Row(text)] + ([Semicolon] + rest)) == Some(([text], rest))
    ensures rest != [] && rest[0] == Insert ==> ReadRows([Row(text)] + rest) == None
  {
    var closed, open := [Row(text)] + ([Semicolon] + rest), [Row(text)] + rest;
    assert closed[0] == Row(text) && closed[1] == Semicolon && closed[2..] == rest;
    assert open[0] == Row(text) && (rest != [] ==> |open| >= 2 && open[1] == rest[0]);
  }

  lemma ReadNext(text: string, p: seq<Piece>)
    ensures ReadRows([Row(text), Comma] + p)
         == match ReadRows(p) case None => None case Some(r) => Some(([text] + r.0, r.1))
  {
    assert ([Row(text), Comma] + p)[2..] == p;
  }

  lemma ReadOne(rows: seq<string>, rest: seq<Piece>)
    requires rows != []
    ensures ReadStatements([Insert] + (Joined(rows) + ([Semicolon] + rest)))
         == match ReadStatements(rest) case None => None case Some(more) => Some([rows] + more)
    ensures rest != [] && rest[0] == Insert ==> ReadStatements([Insert] + (Joined(rows) + rest)) == None
  {
    ReadJoined(rows, rest);
    hide ReadRows, Joined;
    var p := [Insert] + (Joined(rows) + ([Semicolon] + rest));
    assert p[1..] == Joined(rows) + ([Semicolon] + rest);
    assert ([Insert] + (Joined(rows) + rest))[1..] == Joined(rows) + rest;
  }

  /** What remains is at most a batch. */
  lemma RestIsLast(n: nat, rows: seq<string>)
    requires 1 <= |rows| <= BATCH && n % BATCH == 0 && n + |rows| <= WORD
    ensures Rest(n, rows) == Joined(rows) && Batches(rows) == [rows] + []
  {
    RestSplit(n, rows, |rows|);
    assert rows[..|rows|] == rows && Body(n + |rows|, rows[|rows|..]) == [];
    hide Rest, Body, Joined;
  }

  /** A full batch, and more. */
  lemma RestIsFull(n: nat, rows: seq<string>)
    requires |rows| > BATCH && n % BATCH == 0 && n + |rows| <= WORD
    ensures (n + BATCH) % BATCH == 0
    ensures Rest(n, rows) == Joined(rows[..BATCH]) + ([Semicolon, Insert] + Rest(n + BATCH, rows[BATCH..]))
  {
    LeadAfter(n);
    hide Rest, Body, Joined, Lead;
    RestSplit(n, rows, BATCH);
    BodyIs(n + BATCH, rows[BATCH..]);
  }

  /** From a full batch on, as long as the counter does not wrap: closed by a semicolon, the
      statements read back are the batches; if another INSERT follows at once, nothing is. */
  lemma {:induction false} ReadRest(n: nat, rows: seq<string>, next: seq<Piece>)
    requires rows != [] && n % BATCH == 0 && n + |rows| <= WORD
    ensures ReadStatements([Insert] + (Rest(n, rows) + [Semicolon])) == Some(Batches(rows))
    ensures next != [] && next[0] == Insert ==> ReadStatements([Insert] + (Rest(n, rows) + next)) == None
    decreases |rows|
  {
    if |rows| <= BATCH {
      RestIsLast(n, rows);
      assert ReadStatements([]) == Some([]);
      hide Rest, Joined, ReadStatements, Batches;
      assert [Semicolon] + [] == [Semicolon];
      ReadOne(rows, []);
      ReadOne(rows, next);
    } else {
      var head, tail := rows[..BATCH], rows[BATCH..];
      assert Batches(rows) == [head] + Batches(tail);
      hide Rest, Joined, ReadStatements, Batches;
      RestIsFull(n, rows);
      var more := Rest(n + BATCH, tail);
      ReadRest(n + BATCH, tail, next);
      TwoMore(Joined(head), more, [Semicolon]);
      TwoMore(Joined(head), more, next);
      ReadOne(head, [Insert] + (more + [Semicolon]));
      ReadOne(head, [Insert] + (more + next));
    }
  }

  lemma TwoMore(a: seq<Piece>, b: seq<Piece>, c: seq<Piece>)
    ensures a + ([Semicolon, Insert] + b) + c == a + ([Semicolon] + ([Insert] + (b + c)))
  {
  }

  lemma ReadScriptIs(rows: seq<string>)
    requires rows != []
    ensures ReadScript(ScriptOf(rows)) == ReadStatements([Insert] + (Rest(0, rows) + [Semicolon]))
  {
    BodyIs(0, rows);
    assert Lead(0) == [Insert];
    hide ReadStatements, Body, Rest, Lead;
    var p := ScriptOf(rows);
    var inner := [Insert] + (Rest(0, rows) + [Semicolon]);
    assert p == [Begin] + inner + [Commit];
    assert p[1..|p| - 1] == inner;
    assert inner[0] == Insert;
  }

  lemma EmptyScript()
    ensures ReadScript(ScriptOf([])) == Some(Batches([]))
  {
    var p := ScriptOf([]);
    assert p == [Begin, Semicolon, Commit];
    assert p[1..|p| - 1] == [Semicolon];
  }

  /** The script of a run reads back as its rows, 500 to a statement, exactly when at most 2^32
      rows are printed: after that many the counter is 0 again and an INSERT follows a row
      without a semicolon. */
  lemma ScriptReadsBackIff(rows: seq<string>)
    ensures |rows| <= 4294967296 ==> ReadScript(ScriptOf(rows)) == Some(Batches(rows))
    ensures |rows| > 4294967296 ==> ReadScript(ScriptOf(rows)) == None
  {
    hide Rest, Body, ReadStatements, Batches, ReadScript, ScriptOf;
    if rows == [] {
      EmptyScript();
    } else {
      ReadScriptIs(rows);
      if |rows| <= WORD {
        ReadRest(0, rows, []);
      } else {
        WrapsAround(rows);
      }
    }
  }

  /** Behind 2^32 rows the next INSERT comes at once, and nothing is read back. */
  lemma WrapsAround(rows: seq<string>)
    requires |rows| > WORD
    ensures ReadStatements([Insert] + (Rest(0, rows) + [Semicolon])) == None
  {
    var head, tail := rows[..WORD], rows[WORD..];
    assert head + tail == rows && |head| == WORD && tail != [];
    BodyIs(WORD, tail);
    assert Lead(WORD % WORD) == [Insert];
    hide Rest, Body, Lead, ReadStatements, Batches;
    RestAppend(0, head, tail);
    var next := Body(WORD, tail) + [Semicolon];
    assert next[0] == Insert;
    ReadRest(0, head, next);
    ConcatAssoc(Rest(0, head), Body(WORD, tail), [Semicolon]);
  }
}
