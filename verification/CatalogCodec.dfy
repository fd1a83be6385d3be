/**
 The binary log of the v2 catalog (src/catalog/catalog_v2.c):

   u32 rec_len | u8 op | u8 ent | u16 pad | u64 oid | u64 lamport | payload

 Reading back what was written returns the same records, no record outgrows the
 8192-byte buffer, and a log cut at any byte reads as its longest prefix of whole
 records.
 */
module CatalogCodec {
  import opened Basics
  import opened Entities
  import opened Bytes
  import opened CatalogModel

  const NAME_CAP := 64
  const DESCRIPTION_CAP := 192
  const REGION_CAP := 32
  const MAX_COLS := 64
  const MAX_TAGS := 16
  const TAG_BYTES := 64
  const OP_PUT: Byte := 43
  const OP_DROP: Byte := 45
  const MAX_RECORD := 16 * 1024 * 1024
  const BUFFER := 8192

  // ---------------------------------------------------------------------
  // Writing

  function PutText(t: Text): seq<Byte> {
    LE(|t.bytes|, 2) + t.bytes
  }

  function PutColumn(c: Column): seq<Byte> {
    PutText(c.name) + LE(c.typ, 4)
  }

  function PutColumns(cs: seq<Column>): seq<Byte> {
    if cs == [] then [] else PutColumn(cs[0]) + PutColumns(cs[1..])
  }

  function PutTag(t: TagVal): seq<Byte> {
    LE(t.typ, 4) + t.raw
  }

  function PutTags(ts: seq<TagVal>): seq<Byte> {
    if ts == [] then [] else PutTag(ts[0]) + PutTags(ts[1..])
  }

  function KindCode(k: Kind): nat {
    match k
    case Plain => 0
    case Super => 1
    case Child => 2
  }

  function EntCode(e: Ent): Byte {
    match e
    case EDb => 0
    case EGroup => 1
    case ETable => 2
  }

  function PutLists(cs: seq<Column>, tcs: seq<Column>, tvs: seq<TagVal>, at: nat): seq<Byte> {
    PutColumns(cs) + ((LE(|tcs|, 4) + PutColumns(tcs)) + ((LE(|tvs|, 4) + PutTags(tvs)) + LE(at, 8)))
  }

  /** `ser_payload`. */
  function PutMeta(m: Meta): seq<Byte> {
    match m
    case Db(n, d, ret, at, p) =>
      PutText(n) + (PutText(d) + (LE(ret, 8) + (LE(at, 8) + LE(p, 1))))
    case Group(db, n, reg, cod, ret, rep, at) =>
      LE(db, 8) + (PutText(n) + (PutText(reg) + (PutText(cod) + (LE(ret, 8) + (LE(rep, 4) + LE(at, 8))))))
    case Table(db, g, p, k, n, cs, ts, tcs, tvs, at) =>
      LE(db, 8) + (LE(g, 8) + (LE(p, 8) + (LE(KindCode(k), 1) + (PutText(n) + (LE(|cs|, 4) + (LE(ts, 4)
      + PutLists(cs, tcs, tvs, at)))))))
  }

  function PutBody(r: Record): seq<Byte> {
    match r
    case Put(o, m, l) => [OP_PUT, EntCode(EntOf(m)), 0, 0] + (LE(o, 8) + (LE(l, 8) + PutMeta(m)))
    case Tomb(o, e, l) => [OP_DROP, EntCode(e), 0, 0] + (LE(o, 8) + (LE(l, 8) + []))
  }

  /** `log_emit`. */
  function PutRecord(r: Record): seq<Byte> {
    LE(|PutBody(r)|, 4) + PutBody(r)
  }

  function PutLog(rs: seq<Record>): seq<Byte> {
    if rs == [] then [] else PutRecord(rs[0]) + PutLog(rs[1..])
  }

  // ---------------------------------------------------------------------
  // Reading

  /** `r_str`: a length that does not leave room for the terminator is an error. */
  function GetText(b: seq<Byte>, cap: nat): Got<Text> {
    var (n, b) :- ReadUint(b, 2);
    if n >= cap then Err
    else var (s, b) :- ReadBytes(b, n); Got(Text(s), b)
  }

  function GetColumn(b: seq<Byte>): Got<Column> {
    var (n, b) :- GetText(b, NAME_CAP);
    var (t, b) :- ReadUint(b, 4);
    Got(Column(n, t), b)
  }

  function GetColumns(b: seq<Byte>, n: nat): Got<seq<Column>> {
    if n == 0 then Got([], b)
    else
      var (c, b) :- GetColumn(b);
      var (cs, b) :- GetColumns(b, n - 1);
      Got([c] + cs, b)
  }

  function GetTag(b: seq<Byte>): Got<TagVal> {
    var (t, b) :- ReadUint(b, 4);
    var (raw, b) :- ReadBytes(b, TAG_BYTES);
    Got(TagVal(t, raw), b)
  }

  function GetTags(b: seq<Byte>, n: nat): Got<seq<TagVal>> {
    if n == 0 then Got([], b)
    else
      var (t, b) :- GetTag(b);
      var (ts, b) :- GetTags(b, n - 1);
      Got([t] + ts, b)
  }

  function KindFrom(c: nat): Kind {
    if c == 1 then Super else if c == 2 then Child else Plain
  }

  function EntFrom(c: nat): Ent {
    if c == 0 then EDb else if c == 1 then EGroup else ETable
  }

  function GetDb(b: seq<Byte>): Got<Meta> {
    var (n, b) :- GetText(b, NAME_CAP);
    var (d, b) :- GetText(b, DESCRIPTION_CAP);
    var (ret, b) :- ReadUint(b, 8);
    var (at, b) :- ReadUint(b, 8);
    var (p, b) :- ReadUint(b, 1);
    Got(Db(n, d, ret, at, p), b)
  }

  function GetGroup(b: seq<Byte>): Got<Meta> {
    var (db, b) :- ReadUint(b, 8);
    var (n, b) :- GetText(b, NAME_CAP);
    var (reg, b) :- GetText(b, REGION_CAP);
    var (cod, b) :- GetText(b, REGION_CAP);
    var (ret, b) :- ReadUint(b, 8);
    var (rep, b) :- ReadUint(b, 4);
    var (at, b) :- ReadUint(b, 8);
    Got(Group(db, n, reg, cod, ret, rep, at), b)
  }

  function GetTagColumns(b: seq<Byte>): Got<seq<Column>> {
    var (n, b) :- ReadUint(b, 4);
    if n > MAX_TAGS then Err else GetColumns(b, n)
  }

  function GetTagValues(b: seq<Byte>): Got<seq<TagVal>> {
    var (n, b) :- ReadUint(b, 4);
    if n > MAX_TAGS then Err else GetTags(b, n)
  }

  function GetTable(b: seq<Byte>): Got<Meta> {
    var (db, b) :- ReadUint(b, 8);
    var (g, b) :- ReadUint(b, 8);
    var (p, b) :- ReadUint(b, 8);
    var (k, b) :- ReadUint(b, 1);
    var (n, b) :- GetText(b, NAME_CAP);
    var (nc, b) :- ReadUint(b, 4);
    var (ts, b) :- ReadUint(b, 4);
    if nc > MAX_COLS then Err
    else
      var (cs, b) :- GetColumns(b, nc);
      var (tcs, b) :- GetTagColumns(b);
      var (tvs, b) :- GetTagValues(b);
      var (at, b) :- ReadUint(b, 8);
      Got(Table(db, g, p, KindFrom(k), n, cs, ts, tcs, tvs, at), b)
  }

  /** `deser_payload`. */
  function GetMeta(b: seq<Byte>, e: Ent): Got<Meta> {
    match e
    case EDb => GetDb(b)
    case EGroup => GetGroup(b)
    case ETable => GetTable(b)
  }

  /** One record without its length; a record that does not parse is skipped, whatever follows it. */
  function GetBody(b: seq<Byte>): Option<Record> {
    if |b| < 4 then None
    else
      var op, e := b[0], EntFrom(b[1]);
      match ReadUint(b[4..], 8)
      case Err => None
      case Got(o, b) =>
        match ReadUint(b, 8)
        case Err => None
        case Got(l, b) =>
          if op != OP_PUT then Some(Tomb(o, e, l))
          else match GetMeta(b, e) case Err => None case Got(m, _) => Some(Put(o, m, l))
  }

  /** The next whole record of a file: its body and what follows. */
  function NextBody(f: seq<Byte>): Got<seq<Byte>> {
    match ReadUint(f, 4) case Err => Err case Got(n, b) =>
    if n < 18 || n > MAX_RECORD then Err else ReadBytes(b, n)
  }

  lemma NextBodyShrinks(f: seq<Byte>)
    requires NextBody(f).Got?
    ensures |NextBody(f).rest| < |f|
  {
    ReadUintRest(f, 4);
  }

  /** `replay`'s loop: stop at the end, at an implausible length or at a torn record. */
  function GetLog(f: seq<Byte>): seq<Record>
    decreases |f|
  {
    match NextBody(f)
    case Err => []
    case Got(body, rest) =>
      NextBodyShrinks(f);
      (match GetBody(body) case None => [] case Some(r) => [r]) + GetLog(rest)
  }

  method ReadLog(f: seq<Byte>) returns (rs: seq<Record>)
    ensures rs == GetLog(f)
  {
    hide NextBody, GetBody;
    rs := [];
    var b := f;
    var more := NextBody(b);
    while more.Got?
      invariant more == NextBody(b) && rs + GetLog(b) == GetLog(f)
      decreases |b|
    {
      NextBodyShrinks(b);
      var r := GetBody(more.value);
      ghost var before, tail := rs, GetLog(more.rest);
      if r.Some? {
        rs := rs + [r.value];
        assert before + ([r.value] + tail) == rs + tail;
      } else {
        assert [] + tail == tail;
      }
      b := more.rest;
      more := NextBody(b);
    }
  }

  // ---------------------------------------------------------------------
  // What can be written

  predicate TextOk(t: Text, cap: nat) {
    |t.bytes| < cap <= 0x1_0000
  }

  predicate ColumnOk(c: Column) {
    TextOk(c.name, 64) && Fits(c.typ, 4)
  }

  predicate TagOk(t: TagVal) {
    Fits(t.typ, 4) && |t.raw| == 64
  }

  /** The entity fits the fixed-size fields of its struct. */
  predicate MetaOk(m: Meta) {
    match m
    case Db(n, d, ret, at, p) =>
      TextOk(n, 64) && TextOk(d, 192) && Fits(ret, 8) && Fits(at, 8) && Fits(p, 1)
    case Group(db, n, reg, cod, ret, rep, at) =>
      Fits(db, 8) && TextOk(n, 64) && TextOk(reg, 32) && TextOk(cod, 32)
      && Fits(ret, 8) && Fits(rep, 4) && Fits(at, 8)
    case Table(db, g, p, _, n, cs, ts, tcs, tvs, at) =>
      Fits(db, 8) && Fits(g, 8) && Fits(p, 8) && TextOk(n, 64) && Fits(ts, 4) && Fits(at, 8)
      && |cs| <= 64 && |tcs| <= 16 && |tvs| <= 16
      && (forall c :: c in cs ==> ColumnOk(c)) && (forall c :: c in tcs ==> ColumnOk(c))
      && (forall t :: t in tvs ==> TagOk(t))
  }

  predicate RecordOk(r: Record) {
    Fits(r.oid, 8) && Fits(r.lamport, 8) && (r.Put? ==> MetaOk(r.meta))
  }

  // ---------------------------------------------------------------------
  // Reading back

  lemma TextBack(t: Text, cap: nat, rest: seq<Byte>)
    requires TextOk(t, cap)
    ensures GetText(PutText(t) + rest, cap) == Got(t, rest)
  {
    hide ReadUint, LE, Fits;
    SmallFits(|t.bytes|);
    assert PutText(t) + rest == LE(|t.bytes|, 2) + (t.bytes + rest);
    ReadUintBack(|t.bytes|, 2, t.bytes + rest);
    ReadBytesBack(t.bytes, rest);
  }

  lemma ColumnBack(c: Column, rest: seq<Byte>)
    requires ColumnOk(c)
    ensures GetColumn(PutColumn(c) + rest) == Got(c, rest)
  {
    hide ReadUint, LE, Fits, GetText, PutText;
    assert PutColumn(c) + rest == PutText(c.name) + (LE(c.typ, 4) + rest);
    TextBack(c.name, NAME_CAP, LE(c.typ, 4) + rest);
    ReadUintBack(c.typ, 4, rest);
  }

  lemma {:induction false} ColumnsBack(cs: seq<Column>, rest: seq<Byte>)
    requires forall c :: c in cs ==> ColumnOk(c)
    ensures GetColumns(PutColumns(cs) + rest, |cs|) == Got(cs, rest)
  {
    hide GetColumn, PutColumn, ColumnOk;
    if cs == [] {
      assert PutColumns(cs) + rest == rest;
    } else {
      var tail := PutColumns(cs[1..]) + rest;
      assert PutColumns(cs) + rest == PutColumn(cs[0]) + tail;
      assert cs[0] in cs && cs == [cs[0]] + cs[1..];
      ColumnBack(cs[0], tail);
      ColumnsBack(cs[1..], rest);
    }
  }

  lemma TagBack(t: TagVal, rest: seq<Byte>)
    requires TagOk(t)
    ensures GetTag(PutTag(t) + rest) == Got(t, rest)
  {
    hide ReadUint, LE, Fits;
    assert PutTag(t) + rest == LE(t.typ, 4) + (t.raw + rest);
    ReadUintBack(t.typ, 4, t.raw + rest);
    ReadBytesBack(t.raw, rest);
  }

  lemma {:induction false} TagsBack(ts: seq<TagVal>, rest: seq<Byte>)
    requires forall t :: t in ts ==> TagOk(t)
    ensures GetTags(PutTags(ts) + rest, |ts|) == Got(ts, rest)
  {
    hide GetTag, PutTag, TagOk;
    if ts == [] {
      assert PutTags(ts) + rest == rest;
    } else {
      var tail := PutTags(ts[1..]) + rest;
      assert PutTags(ts) + rest == PutTag(ts[0]) + tail;
      assert ts[0] in ts && ts == [ts[0]] + ts[1..];
      TagBack(ts[0], tail);
      TagsBack(ts[1..], rest);
    }
  }

  lemma Assoc(a: seq<Byte>, b: seq<Byte>, c: seq<Byte>)
    ensures a + b + c == a + (b + c)
  {
  }

  lemma DbBack(m: Meta, rest: seq<Byte>)
    requires m.Db? && MetaOk(m)
    ensures GetDb(PutMeta(m) + rest) == Got(m, rest)
  {
    hide ReadUint, GetText, LE, PutText, Fits;
    var t3 := LE(m.createdAt, 8) + LE(m.protected, 1);
    var t2 := LE(m.retention, 8) + t3;
    var b4 := LE(m.protected, 1) + rest;
    var b3 := LE(m.createdAt, 8) + b4;
    var b2 := LE(m.retention, 8) + b3;
    Assoc(LE(m.createdAt, 8), LE(m.protected, 1), rest);
    Assoc(LE(m.retention, 8), t3, rest);
    Assoc(PutText(m.description), t2, rest);
    Assoc(PutText(m.name), PutText(m.description) + t2, rest);
    TextBack(m.name, NAME_CAP, PutText(m.description) + b2);
    TextBack(m.description, DESCRIPTION_CAP, b2);
    ReadUintBack(m.retention, 8, b3);
    ReadUintBack(m.createdAt, 8, b4);
    ReadUintBack(m.protected, 1, rest);
  }

  lemma GroupAssoc(m: Meta, rest: seq<Byte>)
    requires m.Group?
    ensures PutMeta(m) + rest
         == LE(m.db, 8) + (PutText(m.name) + (PutText(m.region) + (PutText(m.codec) + (LE(m.retention, 8)
            + (LE(m.replicas, 4) + (LE(m.createdAt, 8) + rest))))))
  {
    hide LE, PutText;
    var t5 := LE(m.replicas, 4) + LE(m.createdAt, 8);
    var t4 := LE(m.retention, 8) + t5;
    var t3 := PutText(m.codec) + t4;
    var t2 := PutText(m.region) + t3;
    Assoc(LE(m.replicas, 4), LE(m.createdAt, 8), rest);
    Assoc(LE(m.retention, 8), t5, rest);
    Assoc(PutText(m.codec), t4, rest);
    Assoc(PutText(m.region), t3, rest);
    Assoc(PutText(m.name), t2, rest);
    Assoc(LE(m.db, 8), PutText(m.name) + t2, rest);
  }

  lemma GroupBack(m: Meta, rest: seq<Byte>)
    requires m.Group? && MetaOk(m)
    ensures GetGroup(PutMeta(m) + rest) == Got(m, rest)
  {
    hide ReadUint, GetText, LE, PutText, Fits, PutMeta;
    var b6 := LE(m.createdAt, 8) + rest;
    var b5 := LE(m.replicas, 4) + b6;
    var b4 := LE(m.retention, 8) + b5;
    var b3 := PutText(m.codec) + b4;
    var b2 := PutText(m.region) + b3;
    GroupAssoc(m, rest);
    ReadUintBack(m.db, 8, PutText(m.name) + b2);
    TextBack(m.name, NAME_CAP, b2);
    TextBack(m.region, REGION_CAP, b3);
    TextBack(m.codec, REGION_CAP, b4);
    ReadUintBack(m.retention, 8, b5);
    ReadUintBack(m.replicas, 4, b6);
    ReadUintBack(m.createdAt, 8, rest);
  }

  lemma TagColumnsBack(cs: seq<Column>, rest: seq<Byte>)
    requires |cs| <= MAX_TAGS && forall c :: c in cs ==> ColumnOk(c)
    ensures GetTagColumns((LE(|cs|, 4) + PutColumns(cs)) + rest) == Got(cs, rest)
  {
    hide ReadUint, GetColumns, LE, PutColumns, Fits;
    SmallFits(|cs|);
    assert (LE(|cs|, 4) + PutColumns(cs)) + rest == LE(|cs|, 4) + (PutColumns(cs) + rest);
    ReadUintBack(|cs|, 4, PutColumns(cs) + rest);
    ColumnsBack(cs, rest);
  }

  lemma TagValuesBack(ts: seq<TagVal>, rest: seq<Byte>)
    requires |ts| <= MAX_TAGS && forall t :: t in ts ==> TagOk(t)
    ensures GetTagValues((LE(|ts|, 4) + PutTags(ts)) + rest) == Got(ts, rest)
  {
    hide ReadUint, GetTags, LE, PutTags, Fits;
    SmallFits(|ts|);
    assert (LE(|ts|, 4) + PutTags(ts)) + rest == LE(|ts|, 4) + (PutTags(ts) + rest);
    ReadUintBack(|ts|, 4, PutTags(ts) + rest);
    TagsBack(ts, rest);
  }

  lemma ListsAssoc(cs: seq<Column>, tcs: seq<Column>, tvs: seq<TagVal>, at: nat, rest: seq<Byte>)
    ensures PutLists(cs, tcs, tvs, at) + rest
         == PutColumns(cs) + ((LE(|tcs|, 4) + PutColumns(tcs)) + ((LE(|tvs|, 4) + PutTags(tvs)) + (LE(at, 8) + rest)))
  {
    hide LE, PutColumns, PutTags;
    var tc, tv, a := LE(|tcs|, 4) + PutColumns(tcs), LE(|tvs|, 4) + PutTags(tvs), LE(at, 8);
    Assoc(tv, a, rest);
    Assoc(tc, tv + a, rest);
    Assoc(PutColumns(cs), tc + (tv + a), rest);
  }

  lemma TableAssoc(m: Meta, rest: seq<Byte>)
    requires m.Table?
    ensures PutMeta(m) + rest
         == LE(m.db, 8) + (LE(m.group, 8) + (LE(m.parent, 8) + (LE(KindCode(m.kind), 1) + (PutText(m.name)
            + (LE(|m.cols|, 4) + (LE(m.tsCol, 4) + (PutLists(m.cols, m.tagCols, m.tagVals, m.createdAt) + rest)))))))
  {
    hide LE, PutText, PutLists;
    var l := PutLists(m.cols, m.tagCols, m.tagVals, m.createdAt);
    var t6 := LE(m.tsCol, 4) + l;
    var t5 := LE(|m.cols|, 4) + t6;
    var t4 := PutText(m.name) + t5;
    var t3 := LE(KindCode(m.kind), 1) + t4;
    var t2 := LE(m.parent, 8) + t3;
    Assoc(LE(m.tsCol, 4), l, rest);
    Assoc(LE(|m.cols|, 4), t6, rest);
    Assoc(PutText(m.name), t5, rest);
    Assoc(LE(KindCode(m.kind), 1), t4, rest);
    Assoc(LE(m.parent, 8), t3, rest);
    Assoc(LE(m.group, 8), t2, rest);
    Assoc(LE(m.db, 8), LE(m.group, 8) + t2, rest);
  }

  lemma TableBack(m: Meta, rest: seq<Byte>)
    requires m.Table? && MetaOk(m)
    ensures GetTable(PutMeta(m) + rest) == Got(m, rest)
  {
    hide ReadUint, GetText, GetColumns, GetTagColumns, GetTagValues, LE, PutText, PutColumns, PutTags, Fits,
         PutLists, PutMeta;
    var b10 := LE(m.createdAt, 8) + rest;
    var b9 := (LE(|m.tagVals|, 4) + PutTags(m.tagVals)) + b10;
    var b8 := (LE(|m.tagCols|, 4) + PutColumns(m.tagCols)) + b9;
    var b7 := PutColumns(m.cols) + b8;
    var b6 := LE(m.tsCol, 4) + b7;
    var b5 := LE(|m.cols|, 4) + b6;
    var b4 := PutText(m.name) + b5;
    var b3 := LE(KindCode(m.kind), 1) + b4;
    var b2 := LE(m.parent, 8) + b3;
    TableAssoc(m, rest);
    ListsAssoc(m.cols, m.tagCols, m.tagVals, m.createdAt, rest);
    SmallFits(KindCode(m.kind));
    SmallFits(|m.cols|);
    ReadUintBack(m.db, 8, LE(m.group, 8) + b2);
    ReadUintBack(m.group, 8, b2);
    ReadUintBack(m.parent, 8, b3);
    ReadUintBack(KindCode(m.kind), 1, b4);
    TextBack(m.name, NAME_CAP, b5);
    ReadUintBack(|m.cols|, 4, b6);
    ReadUintBack(m.tsCol, 4, b7);
    ColumnsBack(m.cols, b8);
    TagColumnsBack(m.tagCols, b9);
    TagValuesBack(m.tagVals, b10);
    ReadUintBack(m.createdAt, 8, rest);
  }

  /** Every entity that fits its struct is read back as it was written, and nothing after it is read. */
  lemma MetaBack(m: Meta, rest: seq<Byte>)
    requires MetaOk(m)
    ensures GetMeta(PutMeta(m) + rest, EntOf(m)) == Got(m, rest)
  {
    match m {
      case Db(_, _, _, _, _) => DbBack(m, rest);
      case Group(_, _, _, _, _, _, _) => GroupBack(m, rest);
      case Table(_, _, _, _, _, _, _, _, _, _) => TableBack(m, rest);
    }
  }

  lemma BodyBack(r: Record)
    requires RecordOk(r)
    ensures GetBody(PutBody(r)) == Some(r)
  {
    hide ReadUint, GetMeta, LE, PutMeta, Fits;
    var tail := if r.Put? then PutMeta(r.meta) else [];
    var b := PutBody(r);
    assert b[4..] == LE(r.oid, 8) + (LE(r.lamport, 8) + tail);
    ReadUintBack(r.oid, 8, LE(r.lamport, 8) + tail);
    ReadUintBack(r.lamport, 8, tail);
    if r.Put? {
      MetaBack(r.meta, []);
      assert PutMeta(r.meta) + [] == PutMeta(r.meta);
    }
  }

  // ---------------------------------------------------------------------
  // Whatever is read was so written

  lemma {:induction false} UintForth(b: seq<Byte>, w: nat)
    ensures ReadUint(b, w).Got? ==> var g := ReadUint(b, w); Fits(g.value, w) && b == LE(g.value, w) + g.rest
    decreases w
  {
    if w > 0 && b != [] {
      UintForth(b[1..], w - 1);
      var g := ReadUint(b, w);
      if g.Got? {
        var n := ReadUint(b[1..], w - 1).value;
        assert g.value % 256 == b[0] && g.value / 256 == n;
        assert b == [b[0]] + b[1..];
      }
    } else if w == 0 {
      assert LE(0, 0) + b == b;
    }
  }

  lemma BytesForth(b: seq<Byte>, n: nat)
    ensures ReadBytes(b, n).Got? ==> var g := ReadBytes(b, n); |g.value| == n && b == g.value + g.rest
  {
  }

  lemma TextForth(b: seq<Byte>, cap: nat)
    requires cap <= 0x1_0000
    ensures GetText(b, cap).Got? ==> var g := GetText(b, cap); TextOk(g.value, cap) && b == PutText(g.value) + g.rest
  {
    hide ReadUint, LE, Fits, ReadBytes;
    UintForth(b, 2);
    var g := GetText(b, cap);
    if g.Got? {
      var n := ReadUint(b, 2);
      BytesForth(n.rest, n.value);
      Assoc(LE(n.value, 2), g.value.bytes, g.rest);
    }
  }

  lemma ColumnForth(b: seq<Byte>)
    ensures GetColumn(b).Got? ==> var g := GetColumn(b); ColumnOk(g.value) && b == PutColumn(g.value) + g.rest
  {
    hide ReadUint, LE, Fits, GetText, PutText;
    var g := GetColumn(b);
    if g.Got? {
      TextForth(b, NAME_CAP);
      var t := GetText(b, NAME_CAP);
      UintForth(t.rest, 4);
      Assoc(PutText(t.value), LE(g.value.typ, 4), g.rest);
    }
  }

  lemma {:induction false} ColumnsForth(b: seq<Byte>, n: nat)
    ensures GetColumns(b, n).Got? ==>
              var g := GetColumns(b, n);
              |g.value| == n && (forall c :: c in g.value ==> ColumnOk(c)) && b == PutColumns(g.value) + g.rest
    decreases n
  {
    hide GetColumn, PutColumn, ColumnOk;
    var g := GetColumns(b, n);
    if n == 0 {
      assert PutColumns([]) + b == b;
    } else if g.Got? {
      ColumnForth(b);
      var c := GetColumn(b);
      ColumnsForth(c.rest, n - 1);
      var cs := GetColumns(c.rest, n - 1);
      assert g.value[1..] == cs.value;
      Assoc(PutColumn(c.value), PutColumns(cs.value), g.rest);
    }
  }

  lemma TagForth(b: seq<Byte>)
    ensures GetTag(b).Got? ==> var g := GetTag(b); TagOk(g.value) && b == PutTag(g.value) + g.rest
  {
    hide ReadUint, LE, Fits, ReadBytes;
    var g := GetTag(b);
    if g.Got? {
      UintForth(b, 4);
      var t := ReadUint(b, 4);
      BytesForth(t.rest, TAG_BYTES);
      Assoc(LE(t.value, 4), g.value.raw, g.rest);
    }
  }

  lemma {:induction false} TagsForth(b: seq<Byte>, n: nat)
    ensures GetTags(b, n).Got? ==>
              var g := GetTags(b, n);
              |g.value| == n && (forall t :: t in g.value ==> TagOk(t)) && b == PutTags(g.value) + g.rest
    decreases n
  {
    hide GetTag, PutTag, TagOk;
    var g := GetTags(b, n);
    if n == 0 {
      assert PutTags([]) + b == b;
    } else if g.Got? {
      TagForth(b);
      var t := GetTag(b);
      TagsForth(t.rest, n - 1);
      var ts := GetTags(t.rest, n - 1);
      assert g.value[1..] == ts.value;
      Assoc(PutTag(t.value), PutTags(ts.value), g.rest);
    }
  }

  lemma DbForth(b: seq<Byte>)
    ensures GetDb(b).Got? ==> var g := GetDb(b); g.value.Db? && MetaOk(g.value) && b == PutMeta(g.value) + g.rest
  {
    hide ReadUint, GetText, LE, PutText, Fits;
    var g := GetDb(b);
    if g.Got? {
      TextForth(b, NAME_CAP);
      var b1 := GetText(b, NAME_CAP).rest;
      TextForth(b1, DESCRIPTION_CAP);
      var b2 := GetText(b1, DESCRIPTION_CAP).rest;
      UintForth(b2, 8);
      var b3 := ReadUint(b2, 8).rest;
      UintForth(b3, 8);
      var b4 := ReadUint(b3, 8).rest;
      UintForth(b4, 1);
      var m := g.value;
      var t3 := LE(m.createdAt, 8) + LE(m.protected, 1);
      var t2 := LE(m.retention, 8) + t3;
      Assoc(LE(m.createdAt, 8), LE(m.protected, 1), g.rest);
      Assoc(LE(m.retention, 8), t3, g.rest);
      Assoc(PutText(m.description), t2, g.rest);
      Assoc(PutText(m.name), PutText(m.description) + t2, g.rest);
    }
  }

  lemma GroupForth(b: seq<Byte>)
    ensures GetGroup(b).Got? ==>
              var g := GetGroup(b); g.value.Group? && MetaOk(g.value) && b == PutMeta(g.value) + g.rest
  {
    hide ReadUint, GetText, LE, PutText, Fits;
    var g := GetGroup(b);
    if g.Got? {
      UintForth(b, 8);
      var b1 := ReadUint(b, 8).rest;
      TextForth(b1, NAME_CAP);
      var b2 := GetText(b1, NAME_CAP).rest;
      TextForth(b2, REGION_CAP);
      var b3 := GetText(b2, REGION_CAP).rest;
      TextForth(b3, REGION_CAP);
      var b4 := GetText(b3, REGION_CAP).rest;
      UintForth(b4, 8);
      var b5 := ReadUint(b4, 8).rest;
      UintForth(b5, 4);
      var b6 := ReadUint(b5, 4).rest;
      UintForth(b6, 8);
      GroupAssoc(g.value, g.rest);
    }
  }

  lemma TagColumnsForth(b: seq<Byte>)
    ensures GetTagColumns(b).Got? ==>
              var g := GetTagColumns(b);
              && |g.value| <= MAX_TAGS && (forall c :: c in g.value ==> ColumnOk(c))
              && b == (LE(|g.value|, 4) + PutColumns(g.value)) + g.rest
  {
    hide ReadUint, GetColumns, LE, PutColumns, Fits, ColumnOk;
    var g := GetTagColumns(b);
    if g.Got? {
      UintForth(b, 4);
      var n := ReadUint(b, 4);
      ColumnsForth(n.rest, n.value);
      Assoc(LE(n.value, 4), PutColumns(g.value), g.rest);
    }
  }

  lemma TagValuesForth(b: seq<Byte>)
    ensures GetTagValues(b).Got? ==>
              var g := GetTagValues(b);
              && |g.value| <= MAX_TAGS && (forall t :: t in g.value ==> TagOk(t))
              && b == (LE(|g.value|, 4) + PutTags(g.value)) + g.rest
  {
    hide ReadUint, GetTags, LE, PutTags, Fits, TagOk;
    var g := GetTagValues(b);
    if g.Got? {
      UintForth(b, 4);
      var n := ReadUint(b, 4);
      TagsForth(n.rest, n.value);
      Assoc(LE(n.value, 4), PutTags(g.value), g.rest);
    }
  }

  /** The lists of a table, from its columns to its creation time. */
  lemma ListsForth(b: seq<Byte>, n: nat)
    ensures GetColumns(b, n).Got? ==>
              var cs := GetColumns(b, n);
              GetTagColumns(cs.rest).Got? ==>
              var tcs := GetTagColumns(cs.rest);
              GetTagValues(tcs.rest).Got? ==>
              var tvs := GetTagValues(tcs.rest);
              ReadUint(tvs.rest, 8).Got? ==>
              var at := ReadUint(tvs.rest, 8);
              && |cs.value| == n && |tcs.value| <= MAX_TAGS && |tvs.value| <= MAX_TAGS && Fits(at.value, 8)
              && (forall c :: c in cs.value ==> ColumnOk(c)) && (forall c :: c in tcs.value ==> ColumnOk(c))
              && (forall t :: t in tvs.value ==> TagOk(t))
              && b == PutLists(cs.value, tcs.value, tvs.value, at.value) + at.rest
  {
    hide ReadUint, GetColumns, GetTagColumns, GetTagValues, LE, PutColumns, PutTags, Fits, ColumnOk, TagOk, PutLists;
    ColumnsForth(b, n);
    var cs := GetColumns(b, n);
    if cs.Got? {
      TagColumnsForth(cs.rest);
      var tcs := GetTagColumns(cs.rest);
      if tcs.Got? {
        TagValuesForth(tcs.rest);
        var tvs := GetTagValues(tcs.rest);
        if tvs.Got? {
          UintForth(tvs.rest, 8);
          var at := ReadUint(tvs.rest, 8);
          if at.Got? {
            ListsAssoc(cs.value, tcs.value, tvs.value, at.value, at.rest);
          }
        }
      }
    }
  }

  lemma OneByte(x: Byte)
    ensures UnLE([x]) == x
  {
  }

  /** The kind byte lies after three object ids. */
  lemma KindByte(b: seq<Byte>, b1: seq<Byte>, b2: seq<Byte>, b3: seq<Byte>, k: nat, b4: seq<Byte>)
    requires ReadUint(b, 8).Got? && b1 == ReadUint(b, 8).rest && ReadUint(b1, 8).Got? && b2 == ReadUint(b1, 8).rest
    requires ReadUint(b2, 8).Got? && b3 == ReadUint(b2, 8).rest && ReadUint(b3, 1) == Got(k, b4)
    ensures |b| >= 25 && b[24] == k && (k <= 2 ==> KindCode(KindFrom(k)) == k)
  {
    hide ReadUint, UnLE;
    ReadUintRest(b, 8);
    ReadUintRest(b1, 8);
    ReadUintRest(b2, 8);
    ReadUintRest(b3, 1);
    assert b3[..1] == [b[24]];
    OneByte(b[24]);
  }

  /** A kind byte that names no kind is taken for a plain table's. */
  lemma TableForth(b: seq<Byte>)
    ensures GetTable(b).Got? ==>
              var g := GetTable(b);
              g.value.Table? && MetaOk(g.value) && |b| >= 25 && (b[24] <= 2 ==> b == PutMeta(g.value) + g.rest)
  {
    hide ReadUint, GetText, GetColumns, GetTagColumns, GetTagValues, LE, PutText, PutLists, PutMeta, Fits, ColumnOk,
         TagOk;
    var g := GetTable(b);
    if g.Got? {
      UintForth(b, 8);
      var b1 := ReadUint(b, 8).rest;
      UintForth(b1, 8);
      var b2 := ReadUint(b1, 8).rest;
      UintForth(b2, 8);
      var b3 := ReadUint(b2, 8).rest;
      UintForth(b3, 1);
      var k, b4 := ReadUint(b3, 1).value, ReadUint(b3, 1).rest;
      TextForth(b4, NAME_CAP);
      var b5 := GetText(b4, NAME_CAP).rest;
      UintForth(b5, 4);
      var b6 := ReadUint(b5, 4).rest;
      UintForth(b6, 4);
      var b7 := ReadUint(b6, 4).rest;
      ListsForth(b7, ReadUint(b5, 4).value);
      KindByte(b, b1, b2, b3, k, b4);
      TableAssoc(g.value, g.rest);
    }
  }

  /** What is read fits its struct and was written so: the reader takes exactly the writer's texts,
      except that it takes any kind byte. */
  lemma MetaExactly(b: seq<Byte>, m: Meta, rest: seq<Byte>)
    requires m.Table? ==> |b| >= 25 && b[24] <= 2
    ensures GetMeta(b, EntOf(m)) == Got(m, rest) <==> MetaOk(m) && b == PutMeta(m) + rest
  {
    hide GetDb, GetGroup, GetTable, PutMeta, MetaOk;
    if MetaOk(m) && b == PutMeta(m) + rest {
      MetaBack(m, rest);
    }
    if GetMeta(b, EntOf(m)) == Got(m, rest) {
      match m {
        case Db(_, _, _, _, _) => DbForth(b);
        case Group(_, _, _, _, _, _, _) => GroupForth(b);
        case Table(_, _, _, _, _, _, _, _, _, _) => TableForth(b);
      }
    }
  }

  /** Whatever bytes a log holds, an entity read from it fits its struct. */
  lemma ReadIsOk(b: seq<Byte>, e: Ent)
    ensures GetMeta(b, e).Got? ==> EntOf(GetMeta(b, e).value) == e && MetaOk(GetMeta(b, e).value)
  {
    hide GetDb, GetGroup, GetTable, MetaOk, PutMeta;
    DbForth(b);
    GroupForth(b);
    TableForth(b);
  }

  // ---------------------------------------------------------------------
  // Sizes

  lemma {:induction false} ColumnsSize(cs: seq<Column>)
    requires forall c :: c in cs ==> ColumnOk(c)
    ensures |PutColumns(cs)| <= 69 * |cs|
  {
    if cs != [] {
      assert cs[0] in cs;
      ColumnsSize(cs[1..]);
    }
  }

  lemma {:induction false} TagsSize(ts: seq<TagVal>)
    requires forall t :: t in ts ==> TagOk(t)
    ensures |PutTags(ts)| == 68 * |ts|
  {
    if ts != [] {
      assert ts[0] in ts;
      TagsSize(ts[1..]);
    }
  }

  /** No record outgrows the buffer it is built in. */
  lemma RecordFitsBuffer(r: Record)
    requires RecordOk(r)
    ensures 20 <= |PutBody(r)| && |PutRecord(r)| <= 6746 <= BUFFER
  {
    if r.Put? && r.meta.Table? {
      ColumnsSize(r.meta.cols);
      ColumnsSize(r.meta.tagCols);
      TagsSize(r.meta.tagVals);
    }
  }

  // ---------------------------------------------------------------------
  // The layout of a record

  /** Length, '+' or '-', 0 for a database, 1 for a group or 2 for a table, two zero bytes, the object
      id and the stamp; a tombstone ends there. */
  lemma RecordLayout(r: Record)
    requires RecordOk(r)
    ensures var b := PutRecord(r);
            && |b| >= 24 && UnLE(b[..4]) == |b| - 4
            && b[4] == (if r.Put? then 43 else 45)
            && b[5] == (match if r.Put? then EntOf(r.meta) else r.ent case EDb => 0 case EGroup => 1 case ETable => 2)
            && b[6] == b[7] == 0 && UnLE(b[8..16]) == r.oid && UnLE(b[16..24]) == r.lamport
            && (r.Tomb? ==> |b| == 24)
  {
    hide LE, UnLE, PutMeta, Fits;
    var b, body := PutRecord(r), PutBody(r);
    RecordFitsBuffer(r);
    SmallFits(|body|);
    UnLEInverts(|body|, 4);
    UnLEInverts(r.oid, 8);
    UnLEInverts(r.lamport, 8);
    assert b[..4] == LE(|body|, 4) && b[4..] == body;
    var tail := if r.Put? then PutMeta(r.meta) else [];
    assert body[4..] == LE(r.oid, 8) + (LE(r.lamport, 8) + tail);
    assert body[4..12] == body[4..][..8] == LE(r.oid, 8);
    assert body[12..20] == body[4..][8..16] == LE(r.lamport, 8);
    assert b[8..16] == body[4..12] && b[16..24] == body[12..20];
  }

  lemma OneByteIs(n: nat)
    requires n < 256
    ensures LE(n, 1) == [n]
  {
  }

  /** The kind byte of a table is 0 for a plain one, 1 for a super table and 2 for a child. */
  lemma KindLayout(m: Meta)
    requires m.Table?
    ensures |PutMeta(m)| >= 25 && PutMeta(m)[24] == match m.kind case Plain => 0 case Super => 1 case Child => 2
  {
    hide LE, PutText, PutLists;
    var tail := PutText(m.name) + (LE(|m.cols|, 4) + (LE(m.tsCol, 4)
                + PutLists(m.cols, m.tagCols, m.tagVals, m.createdAt)));
    var kind := LE(KindCode(m.kind), 1) + tail;
    assert PutMeta(m) == LE(m.db, 8) + (LE(m.group, 8) + (LE(m.parent, 8) + kind));
    assert PutMeta(m)[24] == kind[0];
    OneByteIs(KindCode(m.kind));
  }

  /** What a record's body is read as: with anything but '+' at its front it is a tombstone. */
  lemma BodyMeans(b: seq<Byte>)
    ensures |b| < 20 ==> GetBody(b) == None
    ensures |b| >= 20 ==>
              var e := if b[1] == 0 then EDb else if b[1] == 1 then EGroup else ETable;
              var o, l := UnLE(b[4..12]), UnLE(b[12..20]);
              if b[0] != 43 then GetBody(b) == Some(Tomb(o, e, l))
              else if GetMeta(b[20..], e).Err? then GetBody(b) == None
              else GetBody(b) == Some(Put(o, GetMeta(b[20..], e).value, l))
  {
    hide ReadUint, GetMeta, UnLE;
    if |b| >= 4 {
      ReadUintRest(b[4..], 8);
      if |b| >= 12 {
        assert b[4..][..8] == b[4..12] && b[4..][8..] == b[12..];
        ReadUintRest(b[12..], 8);
        if |b| >= 20 {
          assert b[12..][..8] == b[12..20] && b[12..][8..] == b[20..];
        }
      }
    }
  }

  /** Replay ends at a length below 18 or over 16 MiB and at a record that is cut; a whole record that
      does not parse is passed over. */
  lemma LogMeans(f: seq<Byte>)
    ensures var n := if |f| >= 4 then UnLE(f[..4]) else 0;
            if |f| < 4 || n < 18 || n > 16 * 1024 * 1024 || |f| < 4 + n then GetLog(f) == []
            else GetLog(f) == (match GetBody(f[4..4 + n]) case None => [] case Some(r) => [r]) + GetLog(f[4 + n..])
  {
    hide ReadUint, GetBody, UnLE;
    ReadUintRest(f, 4);
    if |f| >= 4 {
      var n := UnLE(f[..4]);
      if |f| >= 4 + n {
        assert f[4..][..n] == f[4..4 + n] && f[4..][n..] == f[4 + n..];
      }
    }
  }

  // ---------------------------------------------------------------------
  // Cutting the log

  /** How many whole records the first `n` bytes of a log hold. */
  function Whole(rs: seq<Record>, n: nat): (k: nat)
    ensures k <= |rs|
  {
    if rs == [] || n < |PutRecord(rs[0])| then 0
    else 1 + Whole(rs[1..], n - |PutRecord(rs[0])|)
  }

  /** It is the longest prefix of the log that fits in `n` bytes. */
  lemma {:induction false} WholeIsLongest(rs: seq<Record>, n: nat, k: nat)
    requires k <= |rs|
    ensures |PutLog(rs[..k])| <= n <==> k <= Whole(rs, n)
  {
    hide PutRecord;
    if k > 0 {
      assert rs[..k][0] == rs[0] && rs[..k][1..] == rs[1..][..k - 1];
      if n >= |PutRecord(rs[0])| {
        WholeIsLongest(rs[1..], n - |PutRecord(rs[0])|, k - 1);
      }
    }
  }

  lemma NextBodyBack(b: seq<Byte>, rest: seq<Byte>)
    requires 18 <= |b| <= MAX_RECORD
    ensures NextBody((LE(|b|, 4) + b) + rest) == Got(b, rest)
  {
    hide ReadUint, LE, Fits;
    SmallFits(|b|);
    assert (LE(|b|, 4) + b) + rest == LE(|b|, 4) + (b + rest);
    ReadUintBack(|b|, 4, b + rest);
    ReadBytesBack(b, rest);
  }

  lemma NextBodyTorn(r: Record, n: nat)
    requires RecordOk(r) && n < |PutRecord(r)|
    ensures NextBody(PutRecord(r)[..n]) == Err
  {
    var b, f := PutBody(r), PutRecord(r)[..n];
    if n >= 4 {
      SmallFits(|b|);
      RecordFitsBuffer(r);
      assert f == LE(|b|, 4) + b[..n - 4];
      ReadUintBack(|b|, 4, b[..n - 4]);
    }
  }

  lemma GetLogEmpty()
    ensures GetLog([]) == []
  {
  }

  lemma GetLogEnd(f: seq<Byte>)
    requires NextBody(f) == Err
    ensures GetLog(f) == []
  {
  }

  lemma GetLogStep(f: seq<Byte>, body: seq<Byte>, rest: seq<Byte>, r: Record)
    requires NextBody(f) == Got(body, rest) && GetBody(body) == Some(r)
    ensures GetLog(f) == [r] + GetLog(rest)
  {
  }

  /** A log cut after any number of bytes reads as exactly its whole records. */
  lemma {:induction false} TornLogReadsWholeRecords(rs: seq<Record>, n: nat)
    requires (forall r :: r in rs ==> RecordOk(r)) && n <= |PutLog(rs)|
    ensures GetLog(PutLog(rs)[..n]) == rs[..Whole(rs, n)]
  {
    hide GetLog, NextBody, GetBody, PutBody, RecordOk, LE;
    if rs == [] {
      GetLogEmpty();
    } else {
      var p, q := PutRecord(rs[0]), PutLog(rs[1..]);
      if n < |p| {
        assert (p + q)[..n] == p[..n];
        NextBodyTorn(rs[0], n);
        GetLogEnd(p[..n]);
      } else {
        assert (p + q)[..n] == p + q[..n - |p|];
        assert rs[0] in rs;
        RecordFitsBuffer(rs[0]);
        NextBodyBack(PutBody(rs[0]), q[..n - |p|]);
        BodyBack(rs[0]);
        GetLogStep(p + q[..n - |p|], PutBody(rs[0]), q[..n - |p|], rs[0]);
        TornLogReadsWholeRecords(rs[1..], n - |p|);
        assert rs[..Whole(rs, n)] == [rs[0]] + rs[1..][..Whole(rs[1..], n - |p|)];
      }
    }
  }

  lemma {:induction false} WholeOfAll(rs: seq<Record>)
    ensures Whole(rs, |PutLog(rs)|) == |rs|
  {
    if rs != [] {
      WholeOfAll(rs[1..]);
    }
  }

  /** Reading a whole log returns the records written. */
  lemma LogReadsBack(rs: seq<Record>)
    requires forall r :: r in rs ==> RecordOk(r)
    ensures GetLog(PutLog(rs)) == rs
  {
    var n := |PutLog(rs)|;
    TornLogReadsWholeRecords(rs, n);
    WholeOfAll(rs);
    assert PutLog(rs)[..n] == PutLog(rs);
  }

  /** A crash that leaves any number of bytes beyond the last compaction leaves a log from which
      the catalog reopens into a well-formed state, the state it had some records ago. */
  lemma CrashAtAnyByteIsReopen(c: Cat, n: nat)
    requires Inv(c) && (forall r :: r in c.log ==> RecordOk(r))
    requires |PutLog(c.log[..c.base])| <= n <= |PutLog(c.log)|
    ensures var k := Whole(c.log, n);
            c.base <= k <= |c.log| && Replay(GetLog(PutLog(c.log)[..n])) == Reopen(c, k).st && Inv(Reopen(c, k))
  {
    WholeIsLongest(c.log, n, c.base);
    TornLogReadsWholeRecords(c.log, n);
    ReopenKeepsInv(c, Whole(c.log, n));
  }
}
