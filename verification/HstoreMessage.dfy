/** The messages that hstore_recv accepts, described by what they are made of. */
module HstoreMessage {
  import opened HstoreBinary
  import opened HstoreFormat
  import opened HstorePairs
  import opened Options

  /** A value on the wire: its text, or any negative length for a null. */
  datatype Sent = Sent(text: Str) | Absent(length: int32)

  datatype Row = Row(key: Str, val: Sent)

  /** Texts have to leave room for a final NUL in an allocation. */
  ghost predicate Fits(row: Row) {
    |row.key| < 0x3FFF_FFFF && if row.val.Sent? then |row.val.text| < 0x3FFF_FFFF else row.val.length < 0
  }

  ghost predicate AllFit(rows: seq<Row>) { forall i :: 0 <= i < |rows| ==> Fits(rows[i]) }

  ghost function RowBytes(row: Row): Str
    requires Fits(row)
  {
    Int32(|row.key|) + row.key +
    match row.val
    case Sent(text) => Int32(|text|) + text
    case Absent(length) => Int32(length)
  }

  ghost function Bytes(rows: seq<Row>): Str
    requires AllFit(rows)
  {
    if rows == [] then [] else RowBytes(rows[0]) + Bytes(rows[1..])
  }

  function PairOf(row: Row): Pair {
    if row.val.Sent? then Pair(row.key, row.val.text, false, true) else Pair(row.key, [], true, true)
  }

  function PairsOf(rows: seq<Row>): seq<Pair> {
    if rows == [] then [] else [PairOf(rows[0])] + PairsOf(rows[1..])
  }

  /** A message starts with the number of rows, and the rows follow; more may follow. */
  ghost predicate Message(b: Str, rows: seq<Row>) {
    |rows| <= 26843545 && AllFit(rows) && Int32(|rows|) + Bytes(rows) <= b
  }

  // ---------------------------------------------------------------- one text

  lemma IntWritesBack(b: Str, at: nat)
    requires at + 4 <= |b|
    ensures Int32(GetInt32(b, at)) == b[at..at + 4]
  {
    var b3: int, b2: int, b1: int, b0: int := b[at], b[at + 1], b[at + 2], b[at + 3];
    Bytewise(b3, b2, b1, b0);
    hide Unsigned;
    var u := Unsigned(b3, b2, b1, b0);
    assert Int32(GetInt32(b, at)) == [u / 0x100_0000, u / 0x1_0000 % 0x100, u / 0x100 % 0x100, u % 0x100];
  }

  lemma Bytewise(b3: int, b2: int, b1: int, b0: int)
    requires 0 <= b3 < 256 && 0 <= b2 < 256 && 0 <= b1 < 256 && 0 <= b0 < 256
    ensures var u := Unsigned(b3, b2, b1, b0);
            && u / 0x100_0000 == b3 && u / 0x1_0000 % 0x100 == b2 && u / 0x100 % 0x100 == b1 && u % 0x100 == b0
            && 0 <= u < 0x1_0000_0000
  {
    var u := Unsigned(b3, b2, b1, b0);
    assert u / 0x100 == 0x1_0000 * b3 + 0x100 * b2 + b1;
    assert u / 0x1_0000 == 0x100 * b3 + b2;
  }

  /** A text is read exactly where its length and its bytes stand. */
  lemma TextThere(b: Str, at: nat, text: Str)
    requires at <= |b| && |text| < 0x3FFF_FFFF && Int32(|text|) + text <= b[at..]
    ensures GetText(b, at) == Text(text, at + 4 + |text|)
  {
    assert Int32(|text|) <= b[at..];
    IntReadsBack(b, at, |text|);
    hide Int32, GetInt32;
    assert b[at + 4..at + 4 + |text|] == b[at..][4..4 + |text|] == text;
  }

  lemma TextFound(b: Str, at: nat)
    requires at <= |b| && GetText(b, at).Text?
    ensures var t := GetText(b, at);
            |t.text| < 0x3FFF_FFFF && t.next == at + 4 + |t.text| <= |b| && Int32(|t.text|) + t.text <= b[at..]
  {
    IntWritesBack(b, at);
    hide Int32, GetInt32;
    var t := GetText(b, at);
    assert b[at..at + 4] + t.text == b[at..][..4 + |t.text|];
  }

  lemma NullFound(b: Str, at: nat)
    requires at <= |b| && GetText(b, at).Null?
    ensures var n := GetInt32(b, at);
            at + 4 <= |b| && n < 0 && GetText(b, at).next == at + 4 && Int32(n) <= b[at..]
  {
    IntWritesBack(b, at);
    hide Int32, GetInt32;
  }

  // ---------------------------------------------------------------- one row

  lemma RowThere(b: Str, at: nat, row: Row, n: nat, pairs: seq<Pair>)
    requires at <= |b| && Fits(row) && RowBytes(row) <= b[at..] && n > 0
    ensures at + |RowBytes(row)| <= |b|
    ensures RecvFrom(b, at, n, pairs) == RecvFrom(b, at + |RowBytes(row)|, n - 1, pairs + [PairOf(row)])
  {
    hide Int32, GetInt32, GetText;
    var key := Int32(|row.key|) + row.key;
    assert key <= RowBytes(row);
    TextThere(b, at, row.key);
    var next := at + |key|;
    assert b[next..] == b[at..][|key|..];
    if row.val.Sent? {
      assert Int32(|row.val.text|) + row.val.text <= b[next..];
      TextThere(b, next, row.val.text);
    } else {
      assert Int32(row.val.length) <= b[next..];
      AbsentThere(b, next, row.val.length);
    }
  }

  lemma AbsentThere(b: Str, at: nat, length: int32)
    requires at <= |b| && length < 0 && Int32(length) <= b[at..]
    ensures GetText(b, at) == Null(at + 4)
  {
    IntReadsBack(b, at, length);
    hide Int32, GetInt32;
  }

  lemma RowFound(b: Str, at: nat) returns (row: Row)
    requires at <= |b| && GetText(b, at).Text? && !GetText(b, GetText(b, at).next).Bad?
    ensures Fits(row) && RowBytes(row) <= b[at..]
  {
    hide Int32, GetInt32, GetText;
    TextFound(b, at);
    var key := GetText(b, at);
    var val := GetText(b, key.next);
    if val.Text? {
      TextFound(b, key.next);
      row := Row(key.text, Sent(val.text));
    } else {
      NullFound(b, key.next);
      row := Row(key.text, Absent(GetInt32(b, key.next)));
    }
    var rest := RowBytes(row)[4 + |key.text|..];
    assert RowBytes(row) == Int32(|key.text|) + key.text + rest;
    Joined(b, at, Int32(|key.text|) + key.text, rest);
  }

  lemma Joined(b: Str, at: nat, u: Str, v: Str)
    requires at <= |b| && u <= b[at..] && v <= b[at + |u|..]
    ensures u + v <= b[at..]
  {
    assert b[at + |u|..] == b[at..][|u|..];
  }

  lemma Parted(b: Str, at: nat, u: Str, v: Str)
    requires at <= |b| && u + v <= b[at..]
    ensures at + |u| <= |b| && u <= b[at..] && v <= b[at + |u|..]
  {
    assert b[at + |u|..] == b[at..][|u|..];
    assert u == (u + v)[..|u|] && v == (u + v)[|u|..];
  }

  // ---------------------------------------------------------------- all rows

  lemma {:induction false} RowsThere(b: Str, at: nat, rows: seq<Row>, pairs: seq<Pair>)
    requires at <= |b| && AllFit(rows) && Bytes(rows) <= b[at..]
    ensures RecvFrom(b, at, |rows|, pairs) == Some(pairs + PairsOf(rows))
    decreases |rows|
  {
    hide RowBytes, Fits, AllFit, PairOf, PairsOf, Bytes, RecvFrom;
    if rows == [] {
      NoRows(b, at, pairs);
    } else {
      var row, rest := rows[0], rows[1..];
      FirstRow(rows, pairs);
      Parted(b, at, RowBytes(row), Bytes(rest));
      RowThere(b, at, row, |rows|, pairs);
      RowsThere(b, at + |RowBytes(row)|, rest, pairs + [PairOf(row)]);
    }
  }

  lemma NoRows(b: Str, at: nat, pairs: seq<Pair>)
    ensures RecvFrom(b, at, 0, pairs) == Some(pairs + PairsOf([]))
  {
    assert pairs + [] == pairs;
  }

  lemma FirstRow(rows: seq<Row>, pairs: seq<Pair>)
    requires rows != [] && AllFit(rows)
    ensures Fits(rows[0]) && AllFit(rows[1..]) && Bytes(rows) == RowBytes(rows[0]) + Bytes(rows[1..])
    ensures pairs + [PairOf(rows[0])] + PairsOf(rows[1..]) == pairs + PairsOf(rows)
  {
    hide RowBytes, Fits, PairOf;
  }

  lemma {:induction false} RowsFound(b: Str, at: nat, n: nat, pairs: seq<Pair>) returns (rows: seq<Row>)
    requires at <= |b| && RecvFrom(b, at, n, pairs).Some?
    ensures |rows| == n && AllFit(rows) && Bytes(rows) <= b[at..]
    decreases n
  {
    hide RowBytes, Fits, PairOf, GetText;
    if n == 0 {
      rows := [];
    } else {
      var row := RowFound(b, at);
      RowThere(b, at, row, n, pairs);
      hide RecvFrom;
      var rest := RowsFound(b, at + |RowBytes(row)|, n - 1, pairs + [PairOf(row)]);
      rows := [row] + rest;
      assert rows[1..] == rest;
      Joined(b, at, RowBytes(row), Bytes(rest));
    }
  }

  // ---------------------------------------------------------------- whole messages

  lemma MessageIsReceived(b: Str, rows: seq<Row>)
    requires Message(b, rows)
    ensures Received(b) == Some(PairsOf(rows))
  {
    hide Int32, GetInt32, AllFit, Bytes, RecvFrom, PairsOf;
    assert b[0..] == b;
    Parted(b, 0, Int32(|rows|), Bytes(rows));
    IntReadsBack(b, 0, |rows|);
    RowsThere(b, 4, rows, []);
    assert [] + PairsOf(rows) == PairsOf(rows);
  }

  lemma ReceivedIsMessage(b: Str) returns (rows: seq<Row>)
    requires Received(b).Some?
    ensures Message(b, rows)
  {
    hide Int32, GetInt32, AllFit, Bytes, RecvFrom, PairsOf;
    var n := GetInt32(b, 0);
    rows := RowsFound(b, 4, n, []);
    IntWritesBack(b, 0);
    assert b[0..] == b && b[0..4] <= b;
    Joined(b, 0, Int32(n), Bytes(rows));
  }

  /** hstore_recv takes exactly the messages made of rows, for the pairs that the rows stand for. */
  lemma ReceivedIff(b: Str, ps: seq<Pair>)
    ensures Received(b) == Some(ps) <==> exists rows :: Message(b, rows) && PairsOf(rows) == ps
  {
    hide Message, PairsOf, Received;
    if Received(b) == Some(ps) {
      var rows := ReceivedIsMessage(b);
      MessageIsReceived(b, rows);
    }
    if rows :| Message(b, rows) && PairsOf(rows) == ps {
      MessageIsReceived(b, rows);
    }
  }

  /** And it refuses all others. */
  lemma RefusedIff(b: Str)
    ensures Received(b) == None <==> forall rows :: !Message(b, rows)
  {
    hide Message, PairsOf, Received;
    if Received(b).Some? {
      var rows := ReceivedIsMessage(b);
    }
    if rows :| Message(b, rows) {
      MessageIsReceived(b, rows);
    }
  }
}
