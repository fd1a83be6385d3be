/**
 The columnar payloads: the batch encoder of the Go client (sdk/go/client.go:273-347) with
 the event parser of the C client (cli/tsdb_client.c:319-390), and the two decoders of a
 result chunk (sdk/go/client.go:632-701 and cli/tsdb_client.c:234-302).  The Go decoder
 reads a symbol column in one pass; the C decoders walk it again from its start for every
 row.  A number is a 64-bit pattern and the way it is read; the digits it is printed with
 are not part of the model.
 */
module Columns {
  import opened Entities
  import opened Bytes

  const TIMESTAMP: Byte := 1
  const INT64: Byte := 2
  const FLOAT64: Byte := 3
  const SYMBOL: Byte := 4
  const FLOAT32: Byte := 5
  const MAX_COLS: nat := 64

  predicate Known(t: Byte) { 1 <= t <= 5 }

  function Cut(s: seq<Byte>, n: nat): seq<Byte> {
    if |s| > n then s[..n] else s
  }

  /** How a 64-bit pattern is read. */
  datatype Reading = Signed | Double | Unsigned

  /** A cell as a decoder shows it; `Missing` is the question mark of the C decoders, `Nil` the
      absent value of the Go decoder. */
  datatype Cell = Number(raw: nat, reading: Reading) | Str(bytes: seq<Byte>) | Missing | Nil

  /** How the sender means a number, and the Go decoder reads it, for a known type. */
  function Meant(t: Byte): Reading {
    if t in {FLOAT64, FLOAT32} then Double else Signed
  }

  /** How the C client prints a number: a type its switch does not name is printed unsigned. */
  function Printed(t: Byte): Reading {
    if t in {TIMESTAMP, INT64} then Signed else if t == FLOAT64 then Double else Unsigned
  }

  /** What C takes a byte string for: the bytes before the first NUL. */
  function UpToNul(s: seq<Byte>): seq<Byte> {
    if s == [] || s[0] == 0 then [] else [s[0]] + UpToNul(s[1..])
  }

  /** A string in a 512-byte cell buffer, printed. */
  function Shown(s: seq<Byte>): Cell {
    Str(UpToNul(Cut(s, 511)))
  }

  lemma {:induction false} UpToNulIsAll(s: seq<Byte>)
    ensures UpToNul(s) == s <==> 0 !in s
    ensures |UpToNul(s)| <= |s|
  {
    if s != [] {
      UpToNulIsAll(s[1..]);
      assert s == [s[0]] + s[1..];
    }
  }

  /** A cell shows the whole string exactly when it is short enough and holds no NUL. */
  lemma ShownWhole(s: seq<Byte>)
    ensures Shown(s) == Str(s) <==> |s| <= 511 && 0 !in s
  {
    UpToNulIsAll(Cut(s, 511));
  }

  // ---------------------------------------------------------------------
  // Length-prefixed strings

  function PutStrings(vs: seq<seq<Byte>>): seq<Byte> {
    if vs == [] then [] else LE(|vs[0]|, 2) + vs[0] + PutStrings(vs[1..])
  }

  function Len(b: seq<Byte>): nat
    requires |b| >= 2
  {
    UnLE(b[..2])
  }

  /** One pass over `n` strings. */
  function Strings(b: seq<Byte>, n: nat): Got<seq<seq<Byte>>>
    decreases n
  {
    if n == 0 then Got([], b)
    else if |b| < 2 || |b| < 2 + Len(b) then Err
    else match Strings(b[2 + Len(b)..], n - 1)
      case Err => Err
      case Got(vs, rest) => Got([b[2..2 + Len(b)]] + vs, rest)
  }

  /** The walk of the chunk decoder to row `r`: it skips without looking, and shows what is
      left of a string that is cut off. */
  function WalkChunk(b: seq<Byte>, r: nat): Cell
    decreases r
  {
    if |b| < 2 then Missing
    else
      var end := if 2 + Len(b) > |b| then |b| else 2 + Len(b);
      if r == 0 then Shown(b[2..end]) else WalkChunk(b[end..], r - 1)
  }

  /** The walk of the event parser: it stops at a string that is cut off. */
  function WalkEvent(b: seq<Byte>, r: nat): Cell
    decreases r
  {
    if |b| < 2 || |b| < 2 + Len(b) then Missing
    else if r == 0 then Shown(b[2..2 + Len(b)])
    else WalkEvent(b[2 + Len(b)..], r - 1)
  }

  method ReadStrings(b: seq<Byte>, n: nat) returns (vs: Got<seq<seq<Byte>>>)
    ensures vs == Strings(b, n)
  {
    hide Len;
    var acc: seq<seq<Byte>>, sp, k: nat := [], b, 0;
    assert Strings(b, n).Got? ==> acc + Strings(b, n).value == Strings(b, n).value;
    while k < n
      invariant k <= n
      invariant match Strings(sp, n - k)
                case Err => Strings(b, n) == Err
                case Got(more, rest) => Strings(b, n) == Got(acc + more, rest)
    {
      if |sp| < 2 || |sp| < 2 + Len(sp) {
        return Err;
      }
      var v := sp[2..2 + Len(sp)];
      var next := sp[2 + Len(sp)..];
      assert Strings(next, n - k - 1).Got? ==>
          acc + ([v] + Strings(next, n - k - 1).value) == acc + [v] + Strings(next, n - k - 1).value;
      acc, sp, k := acc + [v], next, k + 1;
    }
    assert acc + [] == acc;
    return Got(acc, sp);
  }

  method WalkToRow(b: seq<Byte>, r: nat) returns (c: Cell)
    ensures c == WalkChunk(b, r)
  {
    var sp, k: nat := b, 0;
    while k < r
      invariant k <= r && WalkChunk(sp, r - k) == WalkChunk(b, r)
    {
      if |sp| < 2 {
        return Missing;
      }
      sp := sp[if 2 + Len(sp) > |sp| then |sp| else 2 + Len(sp)..];
      k := k + 1;
    }
    if |sp| < 2 {
      return Missing;
    }
    return Shown(sp[2..if 2 + Len(sp) > |sp| then |sp| else 2 + Len(sp)]);
  }

  lemma {:induction false} StringsCount(b: seq<Byte>, n: nat)
    ensures Strings(b, n).Got? ==> |Strings(b, n).value| == n
    decreases n
  {
    hide Len;
    if n > 0 && |b| >= 2 && |b| >= 2 + Len(b) {
      StringsCount(b[2 + Len(b)..], n - 1);
    }
  }

  /** Where the single pass succeeds, both walks show its strings, row by row. */
  lemma {:induction false} WalksAgree(b: seq<Byte>, n: nat, r: nat)
    requires Strings(b, n).Got? && r < n
    ensures |Strings(b, n).value| == n
    ensures WalkChunk(b, r) == WalkEvent(b, r) == Shown(Strings(b, n).value[r])
    decreases n
  {
    hide Len;
    StringsCount(b, n);
    if r > 0 {
      WalksAgree(b[2 + Len(b)..], n - 1, r - 1);
    }
  }

  /** Where the walks part.  Past a string that is cut off both show nothing; the cut-off string
      itself is shown, as far as it goes, by the chunk decoder alone. */
  lemma {:induction false} WalksPart(b: seq<Byte>, r: nat)
    ensures Strings(b, r).Err? ==> WalkChunk(b, r) == WalkEvent(b, r) == Missing
    ensures Strings(b, r).Got? && Strings(b, r + 1).Err? ==>
              var rest := Strings(b, r).rest;
              && WalkEvent(b, r) == Missing
              && WalkChunk(b, r) == if |rest| < 2 then Missing else Shown(rest[2..])
    decreases r
  {
    hide Len, Shown;
    if |b| >= 2 {
      if r > 0 {
        if |b| >= 2 + Len(b) {
          WalksPart(b[2 + Len(b)..], r - 1);
          assert Strings(b, r + 1).Err? <==> Strings(b[2 + Len(b)..], r).Err?;
        } else {
          assert b[|b|..] == [];
        }
      } else {
        assert |b| >= 2 + Len(b) ==> Strings(b[2 + Len(b)..], 0).Got?;
        assert b[2..|b|] == b[2..];
      }
    }
  }

  ghost predicate Short(vs: seq<seq<Byte>>) {
    forall i :: 0 <= i < |vs| ==> |vs[i]| < 0x1_0000
  }

  lemma StringHead(v: seq<Byte>, tail: seq<Byte>)
    requires |v| < 0x1_0000
    ensures var b := LE(|v|, 2) + v + tail;
            |b| >= 2 + |v| && Len(b) == |v| && b[2..2 + |v|] == v && b[2 + |v|..] == tail
  {
    hide LE;
    var b := LE(|v|, 2) + v + tail;
    assert b[..2] == LE(|v|, 2);
    SmallFits(|v|);
    UnLEInverts(|v|, 2);
  }

  lemma {:induction false} StringsBack(vs: seq<seq<Byte>>, rest: seq<Byte>)
    requires Short(vs)
    ensures Strings(PutStrings(vs) + rest, |vs|) == Got(vs, rest)
  {
    if vs == [] {
      assert PutStrings(vs) + rest == rest;
    } else {
      hide LE, Len;
      var v, tail := vs[0], PutStrings(vs[1..]) + rest;
      var b := PutStrings(vs) + rest;
      assert b == LE(|v|, 2) + v + tail;
      StringHead(v, tail);
      StringsBack(vs[1..], rest);
      assert vs == [v] + vs[1..];
    }
  }

  // ---------------------------------------------------------------------
  // Fixed-width words

  function PutWords(ws: seq<nat>): (b: seq<Byte>)
    ensures |b| == 8 * |ws|
  {
    if ws == [] then [] else LE(ws[0], 8) + PutWords(ws[1..])
  }

  function WordAt(b: seq<Byte>, r: nat): nat
    requires |b| >= 8 * r + 8
  {
    UnLE(b[8 * r..8 * r + 8])
  }

  lemma {:induction false} WordsBack(ws: seq<nat>, r: nat)
    requires r < |ws| && forall i :: 0 <= i < |ws| ==> Fits(ws[i], 8)
    ensures WordAt(PutWords(ws), r) == ws[r]
  {
    hide LE, Fits, UnLE;
    var b := PutWords(ws);
    if r == 0 {
      assert b[0..8] == LE(ws[0], 8);
      UnLEInverts(ws[0], 8);
    } else {
      WordsBack(ws[1..], r - 1);
      assert b[8..] == PutWords(ws[1..]);
      assert b[8 * r..8 * r + 8] == b[8..][8 * (r - 1)..8 * (r - 1) + 8];
    }
  }

  // ---------------------------------------------------------------------
  // Batches: the encoder

  datatype Col = Col(name: seq<Byte>, typ: Byte)

  /** A 64-bit pattern. */
  type Quad = n: nat | n < 0x1_0000_0000_0000_0000

  /** A row: its timestamp and its other values by column index, absent ones zero or empty. */
  datatype Row = Row(ts: Quad, i64: map<nat, Quad>, f64: map<nat, Quad>, sym: map<nat, seq<Byte>>)

  function Word(r: Row, ci: nat, t: Byte): Quad {
    if t == TIMESTAMP then r.ts
    else if t == INT64 then (if ci in r.i64 then r.i64[ci] else 0)
    else (if ci in r.f64 then r.f64[ci] else 0)
  }

  function Symbol(r: Row, ci: nat): seq<Byte> {
    Cut(if ci in r.sym then r.sym[ci] else [], 65535)
  }

  function Words(rows: seq<Row>, ci: nat, t: Byte): (ws: seq<nat>)
    ensures |ws| == |rows|
  {
    seq(|rows|, r requires 0 <= r < |rows| => Word(rows[r], ci, t))
  }

  function Symbols(rows: seq<Row>, ci: nat): (vs: seq<seq<Byte>>)
    ensures |vs| == |rows|
  {
    seq(|rows|, r requires 0 <= r < |rows| => Symbol(rows[r], ci))
  }

  /** The bytes of a column after its size field. */
  function Data(t: Byte, ci: nat, rows: seq<Row>): seq<Byte> {
    if t == SYMBOL then var s := PutStrings(Symbols(rows, ci)); LE(|s|, 4) + s
    else PutWords(Words(rows, ci, t))
  }

  function PutCol(c: Col, ci: nat, rows: seq<Row>): seq<Byte> {
    var d := Data(c.typ, ci, rows);
    [|c.name| % 256] + c.name + [c.typ, 0] + LE(|d|, 4) + d
  }

  function PutCols(cols: seq<Col>, ci: nat, rows: seq<Row>): seq<Byte>
    requires ci <= |cols|
    decreases |cols| - ci
  {
    if ci == |cols| then [] else PutCol(cols[ci], ci, rows) + PutCols(cols, ci + 1, rows)
  }

  function Payload(table: seq<Byte>, cols: seq<Col>, rows: seq<Row>): seq<Byte> {
    [|table| % 256] + table + LE(|cols|, 2) + LE(|rows|, 4) + PutCols(cols, 0, rows)
  }

  /** The payload, or an error for an unknown column type. */
  function Encode(table: seq<Byte>, cols: seq<Col>, rows: seq<Row>): Got<seq<Byte>> {
    if exists i :: 0 <= i < |cols| && !Known(cols[i].typ) then Err else Got(Payload(table, cols, rows), [])
  }

  /** A word of a column of `t` carries this row's value, zero if it has none. */
  ghost predicate CarriesWord(w: nat, row: Row, ci: nat, t: Byte) {
    && (t == TIMESTAMP ==> w == row.ts)
    && (t == INT64 ==> if ci in row.i64 then w == row.i64[ci] else w == 0)
    && (t in {FLOAT64, FLOAT32} ==> if ci in row.f64 then w == row.f64[ci] else w == 0)
  }

  lemma WordsCarried(rows: seq<Row>, ci: nat, t: Byte)
    ensures forall r :: 0 <= r < |rows| ==> CarriesWord(WordAt(PutWords(Words(rows, ci, t)), r), rows[r], ci, t)
  {
    hide WordAt, PutWords;
    var ws := Words(rows, ci, t);
    forall i | 0 <= i < |ws| ensures Fits(ws[i], 8) {
      SmallFits(ws[i]);
    }
    hide Fits;
    forall r | 0 <= r < |rows| ensures CarriesWord(WordAt(PutWords(ws), r), rows[r], ci, t) {
      WordsBack(ws, r);
    }
  }

  /** A string carries this row's symbol, cut at 65535 bytes, empty if it has none. */
  ghost predicate CarriesText(v: seq<Byte>, row: Row, ci: nat) {
    if ci !in row.sym then v == []
    else v == if |row.sym[ci]| <= 65535 then row.sym[ci] else row.sym[ci][..65535]
  }

  lemma SymbolsShort(rows: seq<Row>, ci: nat)
    ensures Short(Symbols(rows, ci))
  {
  }

  lemma SymbolsCarried(rows: seq<Row>, ci: nat)
    ensures Strings(PutStrings(Symbols(rows, ci)), |rows|) == Got(Symbols(rows, ci), [])
    ensures forall r :: 0 <= r < |rows| ==> CarriesText(Symbols(rows, ci)[r], rows[r], ci)
  {
    hide Strings, PutStrings;
    var vs := Symbols(rows, ci);
    SymbolsShort(rows, ci);
    StringsBack(vs, []);
    assert PutStrings(vs) + [] == PutStrings(vs);
  }

  /** The fixed-width bytes of a column: each row's own value, in row order. */
  method EncodeWords(rows: seq<Row>, ci: nat, t: Byte) returns (b: seq<Byte>)
    ensures b == PutWords(Words(rows, ci, t))
    ensures |b| == 8 * |rows| && forall r :: 0 <= r < |rows| ==> CarriesWord(WordAt(b, r), rows[r], ci, t)
  {
    WordsCarried(rows, ci, t);
    hide LE, Word, CarriesWord, WordAt;
    var ws := Words(rows, ci, t);
    b := [];
    assert ws[0..] == ws && b + PutWords(ws) == PutWords(ws);
    for r := 0 to |rows|
      invariant b + PutWords(ws[r..]) == PutWords(ws)
    {
      assert ws[r..][1..] == ws[r + 1..] && ws[r..][0] == Word(rows[r], ci, t);
      assert b + (LE(ws[r], 8) + PutWords(ws[r + 1..])) == b + LE(ws[r], 8) + PutWords(ws[r + 1..]);
      b := b + LE(Word(rows[r], ci, t), 8);
    }
    assert ws[|rows|..] == [] && b + [] == b;
  }

  /** The strings of a symbol column: each row's own symbol, in row order. */
  method EncodeSymbols(rows: seq<Row>, ci: nat) returns (b: seq<Byte>)
    ensures b == PutStrings(Symbols(rows, ci))
    ensures var g := Strings(b, |rows|);
            && g.Got? && g.rest == [] && |g.value| == |rows|
            && forall r :: 0 <= r < |rows| ==> CarriesText(g.value[r], rows[r], ci)
  {
    SymbolsCarried(rows, ci);
    hide LE, Symbol, Strings, CarriesText;
    var vs := Symbols(rows, ci);
    b := [];
    assert vs[0..] == vs && b + PutStrings(vs) == PutStrings(vs);
    for r := 0 to |rows|
      invariant b + PutStrings(vs[r..]) == PutStrings(vs)
    {
      var v := Symbol(rows[r], ci);
      assert vs[r..][1..] == vs[r + 1..] && vs[r..][0] == v;
      assert b + (LE(|v|, 2) + v + PutStrings(vs[r + 1..])) == b + LE(|v|, 2) + v + PutStrings(vs[r + 1..]);
      b := b + LE(|v|, 2);
      b := b + v;
    }
    assert vs[|rows|..] == [] && b + [] == b;
  }

  method EncodeCol(c: Col, ci: nat, rows: seq<Row>) returns (b: seq<Byte>)
    ensures b == PutCol(c, ci, rows)
  {
    hide LE, PutStrings, PutWords;
    var data;
    if c.typ == SYMBOL {
      var sym := EncodeSymbols(rows, ci);
      data := LE(|sym|, 4) + sym;
    } else {
      data := EncodeWords(rows, ci, c.typ);
    }
    b := [|c.name| % 256] + c.name + [c.typ, 0] + LE(|data|, 4) + data;
  }

  method EncodeBatch(table: seq<Byte>, cols: seq<Col>, rows: seq<Row>) returns (p: Got<seq<Byte>>)
    ensures p == Encode(table, cols, rows)
    ensures p.Err? <==> exists i :: 0 <= i < |cols| && !(1 <= cols[i].typ <= 5)
  {
    hide LE, PutCol;
    var buf := [|table| % 256] + table;
    buf := buf + LE(|cols|, 2);
    buf := buf + LE(|rows|, 4);
    ghost var head := buf;
    var ci: nat := 0;
    while ci < |cols|
      invariant ci <= |cols| && forall i :: 0 <= i < ci ==> Known(cols[i].typ)
      invariant buf + PutCols(cols, ci, rows) == head + PutCols(cols, 0, rows)
    {
      if !Known(cols[ci].typ) {
        return Err;
      }
      var col := EncodeCol(cols[ci], ci, rows);
      assert buf + (col + PutCols(cols, ci + 1, rows)) == buf + col + PutCols(cols, ci + 1, rows);
      buf, ci := buf + col, ci + 1;
    }
    assert buf + [] == buf;
    return Got(buf, []);
  }

  // ---------------------------------------------------------------------
  // Batches: the event parser

  /** A located column: its name in a 128-byte buffer, its type, its bytes. */
  datatype SubCol = SubCol(name: seq<Byte>, typ: Byte, data: seq<Byte>)

  datatype Event = Event(cols: seq<SubCol>, nrows: nat)

  function GetCol(b: seq<Byte>): Got<SubCol> {
    if b == [] then Err
    else
      var nl: nat := b[0];
      if |b| < 1 + nl + 6 then Err
      else
        var size, d := UnLE(b[3 + nl..7 + nl]), b[7 + nl..];
        if |d| < size then Err
        else Got(SubCol(Cut(b[1..1 + nl], 127), b[1 + nl], d[..size]), d[size..])
  }

  function GetCols(b: seq<Byte>, n: nat): Got<seq<SubCol>>
    decreases n
  {
    if n == 0 then Got([], b)
    else match GetCol(b)
      case Err => Err
      case Got(c, rest) =>
        match GetCols(rest, n - 1)
        case Err => Err
        case Got(cs, end) => Got([c] + cs, end)
  }

  function Parse(p: seq<Byte>): Got<Event> {
    if p == [] || |p| < 7 + p[0] as nat then Err
    else
      var b := p[1 + p[0] as nat..];
      var ncols, nrows := UnLE(b[..2]), UnLE(b[2..6]);
      if ncols == 0 || ncols > MAX_COLS then Err
      else match GetCols(b[6..], ncols)
        case Err => Err
        case Got(cs, rest) => Got(Event(cs, nrows), rest)
  }

  function CellAt(c: SubCol, r: nat): Cell {
    if c.typ == SYMBOL then (if |c.data| < 4 then Missing else WalkEvent(c.data[4..], r))
    else if 8 * r + 8 <= |c.data| then Number(WordAt(c.data, r), Printed(c.typ)) else Missing
  }

  /** The cell shows `s` up to its first NUL, at most 511 bytes of it. */
  ghost predicate ShowsText(c: Cell, s: seq<Byte>) {
    && c.Str? && c.bytes <= s && |c.bytes| <= 511 && 0 !in c.bytes
    && (|c.bytes| == |s| || |c.bytes| == 511 || s[|c.bytes|] == 0)
  }

  /** The cell shows the row's own value: its timestamp, integer or float, or its symbol; zero or
      the empty string if the row has none in this column. */
  ghost predicate ShowsValue(c: Cell, row: Row, ci: nat, t: Byte) {
    && (t == TIMESTAMP ==> c == Number(row.ts, Signed))
    && (t == INT64 ==> c == Number(if ci in row.i64 then row.i64[ci] else 0, Signed))
    && (t in {FLOAT64, FLOAT32} ==> c == Number(if ci in row.f64 then row.f64[ci] else 0, Double))
    && (t == SYMBOL ==> ShowsText(c, if ci in row.sym then row.sym[ci] else []))
  }

  lemma {:induction false} UpToNulIs(s: seq<Byte>)
    ensures var u := UpToNul(s); u <= s && 0 !in u && (|u| == |s| || s[|u|] == 0)
  {
    if s != [] && s[0] != 0 {
      UpToNulIs(s[1..]);
      assert s == [s[0]] + s[1..];
    }
  }

  /** A symbol cut on the way still shows as the row's. */
  lemma SymbolShows(row: Row, ci: nat)
    ensures ShowsText(Shown(Symbol(row, ci)), if ci in row.sym then row.sym[ci] else [])
  {
    var v := Cut(Symbol(row, ci), 511);
    UpToNulIs(v);
    var s := if ci in row.sym then row.sym[ci] else [];
    assert v <= s && (|v| == |s| || |v| == 511);
  }

  /** A column the encoder accepts, of a size its size field can express. */
  ghost predicate ColSized(c: Col, ci: nat, rows: seq<Row>) {
    Known(c.typ) && |Data(c.typ, ci, rows)| < 0x1_0000_0000
  }

  ghost predicate ColOk(c: Col, ci: nat, rows: seq<Row>) {
    |c.name| < 256 && ColSized(c, ci, rows)
  }

  /** What the length fields can express; the number of columns is left open. */
  ghost predicate SizesOk(table: seq<Byte>, cols: seq<Col>, rows: seq<Row>) {
    && |table| < 256 && |rows| < 0x1_0000_0000
    && forall ci :: 0 <= ci < |cols| ==> ColOk(cols[ci], ci, rows)
  }

  function Located(c: Col, ci: nat, rows: seq<Row>): SubCol {
    SubCol(Cut(c.name, 127), c.typ, Data(c.typ, ci, rows))
  }

  lemma ShortColBack(c: Col, ci: nat, rows: seq<Row>, rest: seq<Byte>)
    requires ColOk(c, ci, rows)
    ensures GetCol(PutCol(c, ci, rows) + rest) == Got(Located(c, ci, rows), rest)
  {
    hide LE, UnLE, Data, Fits, Word;
    var d, nl := Data(c.typ, ci, rows), |c.name|;
    var b := PutCol(c, ci, rows) + rest;
    assert b == [nl] + c.name + [c.typ, 0] + LE(|d|, 4) + (d + rest);
    assert b[1..1 + nl] == c.name && b[1 + nl] == c.typ;
    assert b[3 + nl..7 + nl] == LE(|d|, 4);
    assert b[7 + nl..] == d + rest;
    SmallFits(|d|);
    UnLEInverts(|d|, 4);
    assert (d + rest)[..|d|] == d && (d + rest)[|d|..] == rest;
  }

  /** The header of a column: the length of its name modulo 256, the name, the type, codec 0 and
      the size of what follows. */
  lemma ColHeader(c: Col, ci: nat, rows: seq<Row>)
    ensures var b, n := PutCol(c, ci, rows), |c.name|;
            && |b| >= 7 + n && b[0] == n % 256 && b[1..1 + n] == c.name && b[1 + n] == c.typ && b[2 + n] == 0
            && (ColSized(c, ci, rows) ==> UnLE(b[3 + n..7 + n]) == |b| - 7 - n)
  {
    hide LE, UnLE, Data, Fits;
    var d, n := Data(c.typ, ci, rows), |c.name|;
    var b := PutCol(c, ci, rows);
    assert b[1..1 + n] == c.name;
    assert b[3 + n..7 + n] == LE(|d|, 4);
    if ColSized(c, ci, rows) {
      SmallFits(|d|);
      UnLEInverts(|d|, 4);
    }
  }

  /** The parser uses up the length byte, that many bytes of name, six more and the data. */
  lemma ColUses(b: seq<Byte>)
    requires GetCol(b).Got?
    ensures var g := GetCol(b); b != [] && |b| == 7 + b[0] as nat + |g.value.data| + |g.rest|
  {
  }

  /** The parser locates a column as it was written if and only if its name is shorter than 256
      bytes: of a longer one it leaves at least 256 bytes too many. */
  lemma ColBack(c: Col, ci: nat, rows: seq<Row>, rest: seq<Byte>)
    requires ColSized(c, ci, rows)
    ensures GetCol(PutCol(c, ci, rows) + rest) == Got(Located(c, ci, rows), rest) <==> |c.name| < 256
  {
    hide LE, UnLE, Data, Fits, Word, GetCol;
    var b := PutCol(c, ci, rows) + rest;
    if |c.name| < 256 {
      ShortColBack(c, ci, rows, rest);
    } else if GetCol(b) == Got(Located(c, ci, rows), rest) {
      ColUses(b);
    }
  }

  function LocatedFrom(cols: seq<Col>, ci: nat, n: nat, rows: seq<Row>): (ls: seq<SubCol>)
    requires ci + n <= |cols|
    ensures |ls| == n
  {
    seq(n, i requires 0 <= i < n => Located(cols[ci + i], ci + i, rows))
  }

  /** Reading `n` columns finds the first `n` written and leaves the others. */
  lemma {:induction false} ColsBack(cols: seq<Col>, ci: nat, n: nat, rows: seq<Row>)
    requires ci + n <= |cols| && forall i :: ci <= i < |cols| ==> ColOk(cols[i], i, rows)
    ensures GetCols(PutCols(cols, ci, rows), n) == Got(LocatedFrom(cols, ci, n, rows), PutCols(cols, ci + n, rows))
    decreases n
  {
    hide GetCol, PutCol, Located, ColOk;
    if n > 0 {
      ShortColBack(cols[ci], ci, rows, PutCols(cols, ci + 1, rows));
      ColsBack(cols, ci + 1, n - 1, rows);
      assert LocatedFrom(cols, ci, n, rows) == [Located(cols[ci], ci, rows)] + LocatedFrom(cols, ci + 1, n - 1, rows);
    } else {
      assert LocatedFrom(cols, ci, 0, rows) == [];
    }
  }

  /** A located column shows the sender's values, except that a 32-bit float is shown as the
      unsigned number its pattern is. */
  lemma CellBack(c: Col, ci: nat, rows: seq<Row>, r: nat)
    requires ColOk(c, ci, rows) && r < |rows|
    ensures ShowsValue(CellAt(Located(c, ci, rows), r), rows[r], ci, c.typ) <==> c.typ != FLOAT32
  {
    hide LE, Word, Symbol, WordAt, WalkEvent, ShowsText;
    if c.typ == SYMBOL {
      var vs := Symbols(rows, ci);
      var s := PutStrings(vs);
      SymbolsShort(rows, ci);
      assert (LE(|s|, 4) + s)[4..] == s;
      StringsBack(vs, []);
      assert s + [] == s;
      WalksAgree(s, |vs|, r);
      SymbolShows(rows[r], ci);
    } else {
      WordsCarried(rows, ci, c.typ);
    }
  }

  /** The event holds the sender's columns, types, row count and values. */
  ghost predicate Recovered(e: Event, cols: seq<Col>, rows: seq<Row>) {
    && e.nrows == |rows| && |e.cols| == |cols|
    && (forall ci :: 0 <= ci < |cols| ==> e.cols[ci].name == Cut(cols[ci].name, 127) && e.cols[ci].typ == cols[ci].typ)
    && forall ci, r :: 0 <= ci < |cols| && 0 <= r < |rows| ==>
         ShowsValue(CellAt(e.cols[ci], r), rows[r], ci, cols[ci].typ)
  }

  /** What the parser makes of a payload, given its header. */
  lemma ParseIs(p: seq<Byte>, t: nat, n: nat, nrows: nat)
    requires t < 256 && |p| >= 7 + t && p[0] == t
    requires UnLE(p[1 + t..][..2]) == n && UnLE(p[1 + t..][2..6]) == nrows
    ensures var g := GetCols(p[1 + t..][6..], n);
            Parse(p) == if n == 0 || n > MAX_COLS || g.Err? then Err else Got(Event(g.value, nrows), g.rest)
  {
    hide UnLE, GetCols;
  }

  lemma ShortLE(n: nat)
    ensures UnLE(LE(n, 2)) == n % 0x1_0000
  {
    var m := n % 0x1_0000;
    assert n % 256 == m % 256 && n / 256 % 256 == m / 256 % 256;
    assert LE(n, 2) == LE(m, 2) by {
      assert LE(n / 256, 1) == [n / 256 % 256] + LE(n / 256 / 256, 0);
      assert LE(m / 256, 1) == [m / 256 % 256] + LE(m / 256 / 256, 0);
    }
    SmallFits(m);
    UnLEInverts(m, 2);
  }

  lemma HeaderParts(table: seq<Byte>, ncols: nat, nrows: nat, body: seq<Byte>)
    requires |table| < 256 && nrows < 0x1_0000_0000
    ensures var p := [|table| % 256] + table + LE(ncols, 2) + LE(nrows, 4) + body;
            && p != [] && p[0] == |table| && |p| >= 7 + |table|
            && var b := p[1 + |table|..]; UnLE(b[..2]) == ncols % 0x1_0000 && UnLE(b[2..6]) == nrows && b[6..] == body
  {
    hide LE, UnLE;
    var p := [|table| % 256] + table + LE(ncols, 2) + LE(nrows, 4) + body;
    var b := p[1 + |table|..];
    assert b == LE(ncols, 2) + LE(nrows, 4) + body;
    assert b[..2] == LE(ncols, 2) && b[2..6] == LE(nrows, 4) && b[6..] == body;
    ShortLE(ncols);
    SmallFits(nrows);
    UnLEInverts(nrows, 4);
  }

  /** The parser accepts an encoded batch exactly when the column count, modulo 2^16 as it is
      written, is between 1 and 64. */
  lemma EventParses(table: seq<Byte>, cols: seq<Col>, rows: seq<Row>, n: nat)
    requires SizesOk(table, cols, rows) && n == |cols| % 0x1_0000
    ensures Parse(Payload(table, cols, rows))
         == if 1 <= n <= 64
            then Got(Event(LocatedFrom(cols, 0, n, rows), |rows|), PutCols(cols, n, rows)) else Err
  {
    hide LE, UnLE, GetCols, PutCols, LocatedFrom, ColOk, Parse;
    var p, body := Payload(table, cols, rows), PutCols(cols, 0, rows);
    HeaderParts(table, |cols|, |rows|, body);
    ColsBack(cols, 0, n, rows);
    hide Payload;
    ParseIs(p, |table|, n, |rows|);
  }

  lemma EncodeIs(table: seq<Byte>, cols: seq<Col>, rows: seq<Row>)
    requires SizesOk(table, cols, rows)
    ensures Encode(table, cols, rows) == Got(Payload(table, cols, rows), [])
  {
    hide Payload;
    forall i | 0 <= i < |cols| ensures Known(cols[i].typ) {
      assert ColOk(cols[i], i, rows);
    }
  }

  lemma RecoveredCount(e: Event, cols: seq<Col>, rows: seq<Row>)
    ensures Recovered(e, cols, rows) ==> |e.cols| == |cols|
  {
  }

  lemma NoColsLeft(cols: seq<Col>, rows: seq<Row>)
    ensures PutCols(cols, |cols|, rows) == []
  {
  }

  /** Every value is of a type the C client prints as it is meant. */
  ghost predicate Printable(cols: seq<Col>, rows: seq<Row>) {
    rows == [] || forall ci :: 0 <= ci < |cols| ==> cols[ci].typ != FLOAT32
  }

  lemma AllLocated(table: seq<Byte>, cols: seq<Col>, rows: seq<Row>)
    requires SizesOk(table, cols, rows)
    ensures Recovered(Event(LocatedFrom(cols, 0, |cols|, rows), |rows|), cols, rows) <==> Printable(cols, rows)
  {
    hide CellAt, ShowsValue, ColOk, Data;
    var ls := LocatedFrom(cols, 0, |cols|, rows);
    forall ci, r | 0 <= ci < |cols| && 0 <= r < |rows|
      ensures ShowsValue(CellAt(ls[ci], r), rows[r], ci, cols[ci].typ) <==> cols[ci].typ != FLOAT32
    {
      CellBack(cols[ci], ci, rows, r);
    }
    if !Printable(cols, rows) {
      var ci :| 0 <= ci < |cols| && cols[ci].typ == FLOAT32;
      assert !ShowsValue(CellAt(ls[ci], 0), rows[0], ci, cols[ci].typ);
    }
  }

  /** Parsing an encoded batch recovers it if and only if it has between 1 and 64 columns and,
      unless there are no rows, none of 32-bit floats. */
  lemma EventBack(table: seq<Byte>, cols: seq<Col>, rows: seq<Row>)
    requires SizesOk(table, cols, rows)
    ensures Encode(table, cols, rows) == Got(Payload(table, cols, rows), [])
    ensures var e := Parse(Payload(table, cols, rows));
            && (e.Got? && Recovered(e.value, cols, rows) <==> 1 <= |cols| <= 64 && Printable(cols, rows))
            && (1 <= |cols| <= 64 ==> e.Got? && e.rest == [])
  {
    hide Payload, Parse, Encode, Recovered, SizesOk, LocatedFrom, PutCols, Printable;
    EncodeIs(table, cols, rows);
    var n := |cols| % 0x1_0000;
    EventParses(table, cols, rows, n);
    if 1 <= |cols| <= MAX_COLS {
      AllLocated(table, cols, rows);
      NoColsLeft(cols, rows);
    } else if 1 <= n <= MAX_COLS {
      RecoveredCount(Event(LocatedFrom(cols, 0, n, rows), |rows|), cols, rows);
    }
  }

  // ---------------------------------------------------------------------
  // Batches: names whose length byte wraps

  /** A column name of 256 bytes or more: the parser takes the length modulo 256, and then reads
      the column's type out of the name. */
  lemma LongColumnName(c: Col, ci: nat, rows: seq<Row>, rest: seq<Byte>)
    requires |c.name| >= 256
    ensures var g, nl := GetCol(PutCol(c, ci, rows) + rest), |c.name| % 256;
            g.Got? ==> g.value.name == Cut(c.name[..nl], 127) && g.value.typ == c.name[nl]
  {
    hide LE, UnLE, Data;
    var nl := |c.name| % 256;
    var b := PutCol(c, ci, rows) + rest;
    assert b[0] == nl;
    assert b[1..1 + nl] == c.name[..nl] && b[1 + nl] == c.name[nl];
  }

  /** After each of the first `n` columns the parser stands where that column ends. */
  ghost predicate InStep(cols: seq<Col>, rows: seq<Row>, n: nat)
    requires n <= |cols|
  {
    forall k :: 0 <= k <= n ==>
      GetCols(PutCols(cols, 0, rows), k) == Got(LocatedFrom(cols, 0, k, rows), PutCols(cols, k, rows))
  }

  lemma {:induction false} OneMoreCol(b: seq<Byte>, k: nat)
    ensures GetCols(b, k + 1)
         == match GetCols(b, k)
            case Err => Err
            case Got(cs, rest) => match GetCol(rest) case Err => Err case Got(c, end) => Got(cs + [c], end)
    decreases k
  {
    hide GetCol;
    if k == 0 {
      match GetCol(b)
      case Err =>
      case Got(c, rest) => assert GetCols(rest, 0) == Got([], rest) && [c] + [] == [] + [c];
    } else if GetCol(b).Got? {
      OneMoreCol(GetCol(b).rest, k - 1);
      var c, more := GetCol(b).value, GetCols(GetCol(b).rest, k - 1);
      if more.Got? && GetCol(more.rest).Got? {
        assert [c] + (more.value + [GetCol(more.rest).value]) == [c] + more.value + [GetCol(more.rest).value];
      }
    }
  }

  lemma LocatedSnoc(cols: seq<Col>, rows: seq<Row>, k: nat)
    requires k < |cols|
    ensures LocatedFrom(cols, 0, k + 1, rows) == LocatedFrom(cols, 0, k, rows) + [Located(cols[k], k, rows)]
  {
    hide Located;
  }

  lemma NoneInStep(cols: seq<Col>, rows: seq<Row>)
    ensures InStep(cols, rows, 0)
  {
    assert LocatedFrom(cols, 0, 0, rows) == [];
  }

  lemma PutColsStep(cols: seq<Col>, rows: seq<Row>, k: nat)
    requires k < |cols|
    ensures PutCols(cols, k, rows) == PutCol(cols[k], k, rows) + PutCols(cols, k + 1, rows)
  {
  }

  lemma NextInStep(cols: seq<Col>, rows: seq<Row>, k: nat)
    requires k < |cols| && InStep(cols, rows, k) && ColSized(cols[k], k, rows)
    ensures InStep(cols, rows, k + 1) <==> |cols[k].name| < 256
  {
    hide GetCol, GetCols, PutCol, PutCols, Located, LocatedFrom, ColSized;
    var rest := PutCols(cols, k + 1, rows);
    PutColsStep(cols, rows, k);
    OneMoreCol(PutCols(cols, 0, rows), k);
    ColBack(cols[k], k, rows, rest);
    LocatedSnoc(cols, rows, k);
    var g := GetCol(PutCol(cols[k], k, rows) + rest);
    var ls := LocatedFrom(cols, 0, k, rows);
    assert GetCols(PutCols(cols, 0, rows), k) == Got(ls, PutCols(cols, k, rows));
    if g.Got? {
      assert (ls + [g.value])[k] == g.value && (ls + [Located(cols[k], k, rows)])[k] == Located(cols[k], k, rows);
    }
  }

  /** The parser stays in step with the columns if and only if every name is shorter than 256
      bytes. */
  lemma {:induction false} InStepExactly(cols: seq<Col>, rows: seq<Row>, n: nat)
    requires n <= |cols| && forall i :: 0 <= i < |cols| ==> ColSized(cols[i], i, rows)
    ensures InStep(cols, rows, n) <==> forall i :: 0 <= i < n ==> |cols[i].name| < 256
    decreases n
  {
    hide GetCol, GetCols, PutCol, PutCols, Located, LocatedFrom, ColSized;
    if n == 0 {
      NoneInStep(cols, rows);
    } else {
      var k := n - 1;
      InStepExactly(cols, rows, k);
      assert InStep(cols, rows, n) ==> InStep(cols, rows, k);
      if InStep(cols, rows, k) {
        NextInStep(cols, rows, k);
      }
    }
  }

  /** The row count, as the column count before it, of a table name of 256 bytes or more is read
      out of the name, after as many bytes as the wrapped length says. */
  function Wrapped(n: nat): (t: nat)
    requires n >= 256
    ensures t < 256 && t + 6 <= n
  {
    n % 256
  }

  lemma LongTableName(table: seq<Byte>, cols: seq<Col>, rows: seq<Row>)
    requires |table| >= 256
    ensures var e, t := Parse(Payload(table, cols, rows)), Wrapped(|table|);
            e.Got? ==> e.value.nrows == UnLE(table[t + 2..t + 6])
  {
    hide LE, UnLE, GetCols, PutCols, Parse;
    var p, t := Payload(table, cols, rows), Wrapped(|table|);
    assert p[0] == t;
    assert p[1 + t..][2..6] == p[1 + t + 2..1 + t + 6] == table[t + 2..t + 6];
    hide Payload;
    ParseIs(p, t, UnLE(p[1 + t..][..2]), UnLE(table[t + 2..t + 6]));
  }

  /** A 256-byte name of one letter is encoded with length 0, and its column comes back as one
      of an unknown type. */
  lemma LongNameExample(name: seq<Byte>, rest: seq<Byte>)
    requires |name| == 256 && forall i :: 0 <= i < 256 ==> name[i] == 97
    ensures PutCol(Col(name, INT64), 0, [])[0] == 0
    ensures GetCol(PutCol(Col(name, INT64), 0, []) + rest).Got? ==>
              !Known(GetCol(PutCol(Col(name, INT64), 0, []) + rest).value.typ)
  {
    LongColumnName(Col(name, INT64), 0, [], rest);
  }

  lemma OneColBody(c: Col)
    ensures PutCols([c], 0, []) == PutCol(c, 0, [])
  {
    assert PutCols([c], 1, []) == [];
  }

  lemma AccidentalCol(name: seq<Byte>)
    requires |name| == 456 && name[200] == INT64 && name[202..206] == [0, 0, 0, 0]
    ensures var g := GetCol(PutCol(Col(name, INT64), 0, []));
            g.Got? && g.value.typ == INT64 && g.value.name == Cut(name, 127)
  {
    var b := PutCol(Col(name, INT64), 0, []);
    assert b[0] == 200;
    assert b[1..201] == name[..200] && b[201] == name[200];
    assert b[203..207] == name[202..206];
    assert UnLE([0, 0, 0, 0]) == 0 by {
      assert UnLE([0]) == 0 && UnLE([0, 0]) == 0 && UnLE([0, 0, 0]) == 0;
    }
  }

  /** A long name can look, by accident, like a shorter name with a header after it: then the
      event is recovered although the parser is out of step. */
  lemma LongNameByAccident(table: seq<Byte>, name: seq<Byte>)
    requires |table| < 256 && |name| == 456 && name[200] == INT64 && name[202..206] == [0, 0, 0, 0]
    ensures var cols := [Col(name, INT64)];
            var e := Parse(Payload(table, cols, []));
            !InStep(cols, [], 1) && e.Got? && Recovered(e.value, cols, [])
  {
    hide LE, UnLE, Fits, Parse, InStep;
    var c := Col(name, INT64);
    var cols, rows: seq<Row> := [c], [];
    assert ColSized(c, 0, rows);
    InStepExactly(cols, rows, 1);
    AccidentalCol(name);
    OneColBody(c);
    HeaderParts(table, 1, 0, PutCols(cols, 0, rows));
    var g := GetCol(PutCol(c, 0, rows));
    OneMoreCol(PutCols(cols, 0, rows), 0);
    ParseIs(Payload(table, cols, rows), |table|, 1, 0);
  }

  // ---------------------------------------------------------------------
  // Result chunks: two decoders

  /** A column of decoded cells, as the Go decoder builds it. */
  type Column = seq<Cell>

  /** A type outside the Go decoder's switch leaves the value absent. */
  function GoCell(t: Byte, raw: nat): Cell {
    if Known(t) then Number(raw, Meant(t)) else Nil
  }

  function GoCol(t: Byte, n: nat, p: seq<Byte>): Got<Column> {
    if t == SYMBOL then
      if |p| < 4 || |p| - 4 < UnLE(p[..4]) then Err
      else
        var size := UnLE(p[..4]);
        match Strings(p[4..4 + size], n)
        case Err => Err
        case Got(vs, _) => Got(seq(|vs|, i requires 0 <= i < |vs| => Str(vs[i])), p[4 + size..])
    else if |p| < 8 * n then Err
    else Got(seq(n, i requires 0 <= i < n => GoCell(t, WordAt(p, i))), p[8 * n..])
  }

  function GoCols(ts: seq<Byte>, n: nat, p: seq<Byte>): Got<seq<Column>> {
    if ts == [] then Got([], p)
    else match GoCol(ts[0], n, p)
      case Err => Err
      case Got(c, rest) =>
        match GoCols(ts[1..], n, rest)
        case Err => Err
        case Got(cs, end) => Got([c] + cs, end)
  }

  /** The C decoder only locates a column, and reads its cells later. */
  function CCol(t: Byte, n: nat, p: seq<Byte>): Got<SubCol> {
    if t == SYMBOL then
      if |p| < 4 || |p| - 4 < UnLE(p[..4]) then Err
      else var size := UnLE(p[..4]); Got(SubCol([], t, p[4..4 + size]), p[4 + size..])
    else if |p| < 8 * n then Err
    else Got(SubCol([], t, p[..8 * n]), p[8 * n..])
  }

  function CCols(ts: seq<Byte>, n: nat, p: seq<Byte>): Got<seq<SubCol>> {
    if ts == [] then Got([], p)
    else match CCol(ts[0], n, p)
      case Err => Err
      case Got(c, rest) =>
        match CCols(ts[1..], n, rest)
        case Err => Err
        case Got(cs, end) => Got([c] + cs, end)
  }

  function CCell(c: SubCol, r: nat): Cell {
    if c.typ == SYMBOL then WalkChunk(c.data, r)
    else if 8 * r + 8 <= |c.data| then Number(WordAt(c.data, r), Printed(c.typ)) else Missing
  }

  /** A Go cell in a C cell buffer. */
  function Fitted(c: Cell): Cell {
    if c.Str? then Shown(c.bytes) else c
  }

  /** The symbol block holds one whole string per row. */
  ghost predicate WholeBlock(c: SubCol, n: nat) {
    c.typ == SYMBOL ==> Strings(c.data, n).Got?
  }

  ghost predicate CellsAgree(g: Column, c: SubCol, n: nat) {
    |g| == n && forall r :: 0 <= r < n ==> CCell(c, r) == Fitted(g[r])
  }

  /** The types whose cells the two decoders show alike. */
  predicate Alike(t: Byte) {
    Known(t) && t != FLOAT32
  }

  lemma WordPrefix(p: seq<Byte>, k: nat, r: nat)
    requires 8 * r + 8 <= k <= |p|
    ensures WordAt(p[..k], r) == WordAt(p, r)
  {
    assert p[..k][8 * r..8 * r + 8] == p[8 * r..8 * r + 8];
  }

  /** The Go decoder accepts a column exactly when the C decoder locates it and its symbol
      block is whole.  Then both leave the same rest, and they show the same cells, if there
      are any, exactly for timestamps, integers, 64-bit floats and symbols. */
  lemma ColAgrees(t: Byte, n: nat, p: seq<Byte>)
    ensures var g, c := GoCol(t, n, p), CCol(t, n, p);
            && (g.Got? <==> c.Got? && WholeBlock(c.value, n))
            && (g.Got? ==> g.rest == c.rest && (CellsAgree(g.value, c.value, n) <==> n == 0 || Alike(t)))
  {
    hide WordAt, WalkChunk, WalkEvent, Shown, UnLE;
    var g, c := GoCol(t, n, p), CCol(t, n, p);
    if g.Got? {
      if t == SYMBOL {
        StringsCount(c.value.data, n);
        forall r | 0 <= r < n ensures CCell(c.value, r) == Fitted(g.value[r]) {
          WalksAgree(c.value.data, n, r);
        }
      } else {
        forall r | 0 <= r < n ensures CCell(c.value, r) == Fitted(g.value[r]) <==> Alike(t) {
          WordPrefix(p, 8 * n, r);
        }
        if n > 0 && !Alike(t) {
          assert CCell(c.value, 0) != Fitted(g.value[0]);
        }
      }
    }
  }

  /** On every chunk body: the Go decoder accepts exactly when the C decoder locates every
      column and every symbol block is whole, and then the cells of a column agree exactly as
      its type says. */
  lemma {:induction false} ChunksAgree(ts: seq<Byte>, n: nat, p: seq<Byte>)
    ensures var g, c := GoCols(ts, n, p), CCols(ts, n, p);
            && (c.Got? ==> |c.value| == |ts|)
            && (g.Got? <==> c.Got? && forall i :: 0 <= i < |ts| ==> WholeBlock(c.value[i], n))
            && (g.Got? ==> |g.value| == |ts| && g.rest == c.rest)
            && (g.Got? ==> forall i :: 0 <= i < |ts| ==>
                  (CellsAgree(g.value[i], c.value[i], n) <==> n == 0 || Alike(ts[i])))
  {
    hide GoCol, CCol, CellsAgree, WholeBlock, Alike;
    if ts != [] {
      ColAgrees(ts[0], n, p);
      var g, c := GoCol(ts[0], n, p), CCol(ts[0], n, p);
      if c.Got? {
        ChunksAgree(ts[1..], n, c.rest);
        var cs := CCols(ts, n, p);
        if cs.Got? {
          assert cs.value[0] == c.value && cs.value[1..] == CCols(ts[1..], n, c.rest).value;
          assert forall i :: 1 <= i < |ts| ==> cs.value[i] == cs.value[1..][i - 1];
          assert forall i :: 0 <= i < |ts[1..]| ==> cs.value[1..][i] == cs.value[i + 1];
          if g.Got? && GoCols(ts, n, p).Got? {
            var gs := GoCols(ts, n, p).value;
            assert gs[0] == g.value && gs[1..] == GoCols(ts[1..], n, g.rest).value;
            assert forall i :: 1 <= i < |ts| ==> gs[i] == gs[1..][i - 1] && ts[i] == ts[1..][i - 1];
          }
        }
      }
    }
  }

  /** A chunk: row count, column count, columns. */
  function GoChunk(ts: seq<Byte>, p: seq<Byte>): Got<seq<Column>> {
    if |p| < 6 || UnLE(p[4..6]) != |ts| then Err else GoCols(ts, UnLE(p[..4]), p[6..])
  }

  /** The C decoder takes a chunk of no rows without looking at its columns. */
  function CChunk(ts: seq<Byte>, p: seq<Byte>): Got<seq<SubCol>> {
    if |p| < 6 then Err
    else
      var n, ncols := UnLE(p[..4]), UnLE(p[4..6]);
      if n == 0 then Got([], p[6..])
      else if ncols == 0 || ncols > MAX_COLS || (|ts| > 0 && ncols != |ts|) || ncols > |ts| then Err
      else CCols(ts, n, p[6..])
  }

  /** On every chunk with rows, for a header of 1 to 64 columns: the Go decoder accepts exactly
      when the C decoder does and every symbol block is whole.  Then the cells of a column agree
      if and only if it holds timestamps, integers, 64-bit floats or symbols. */
  lemma DecodersAgree(ts: seq<Byte>, p: seq<Byte>)
    requires 0 < |ts| <= MAX_COLS && |p| >= 6 && UnLE(p[..4]) > 0
    ensures var g, c, n := GoChunk(ts, p), CChunk(ts, p), UnLE(p[..4]);
            && (c.Got? ==> |c.value| == |ts|)
            && (g.Got? <==> c.Got? && forall i :: 0 <= i < |ts| ==> WholeBlock(c.value[i], n))
            && (g.Got? ==> |g.value| == |ts|)
            && (g.Got? ==> forall i :: 0 <= i < |ts| ==> (CellsAgree(g.value[i], c.value[i], n) <==> Alike(ts[i])))
  {
    hide UnLE, GoCols, CCols, WholeBlock, CellsAgree, Alike;
    ChunksAgree(ts, UnLE(p[..4]), p[6..]);
  }

  /** Where the two part: the C decoder takes every chunk of no rows, and no chunk with rows when
      the header had more than 64 columns. */
  lemma DecodersPart(ts: seq<Byte>, p: seq<Byte>)
    ensures |p| < 6 ==> GoChunk(ts, p) == Err && CChunk(ts, p) == Err
    ensures |p| >= 6 && UnLE(p[..4]) == 0 ==> CChunk(ts, p).Got?
    ensures |p| >= 6 && UnLE(p[..4]) == 0 && UnLE(p[4..6]) != |ts| ==> GoChunk(ts, p) == Err
    ensures |p| >= 6 && UnLE(p[..4]) > 0 && |ts| > MAX_COLS ==> CChunk(ts, p) == Err
  {
    hide UnLE, GoCols, CCols;
  }
}
