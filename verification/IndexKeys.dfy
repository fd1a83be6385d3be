/**
 The v2 catalog keeps nodes and names in one table keyed by strings: `o:<oid>`,
 `d:<name>`, `g:<db>:<name>` and `t:<db>:<name>` (src/catalog/catalog_v2.c).
 Different keys never print to the same string, so the one table is the four
 separate maps the rest of this model uses.
 */
module IndexKeys {
  import opened Decimals
  import opened Entities

  datatype IndexKey = ByOid(oid: Oid) | ByName(key: Key)

  const COLON: Byte := 58

  function Render(k: IndexKey): seq<Byte> {
    match k
    case ByOid(o) => [111, COLON] + Decimal(o)
    case ByName(DbKey(n)) => [100, COLON] + n.bytes
    case ByName(GroupKey(d, n)) => [103, COLON] + (Decimal(d) + [COLON] + n.bytes)
    case ByName(TableKey(d, n)) => [116, COLON] + (Decimal(d) + [COLON] + n.bytes)
  }

  lemma SplitAtColon(a1: seq<Byte>, b1: seq<Byte>, a2: seq<Byte>, b2: seq<Byte>)
    requires COLON !in a1 && COLON !in a2 && a1 + [COLON] + b1 == a2 + [COLON] + b2
    ensures a1 == a2 && b1 == b2
  {
    var s, t := a1 + [COLON] + b1, a2 + [COLON] + b2;
    assert s[|a1|] == COLON && t[|a2|] == COLON;
    assert a1 == s[..|a1|] && a2 == t[..|a2|];
    assert b1 == s[|a1| + 1..] && b2 == t[|a2| + 1..];
  }

  /** No two keys of the index share a string. */
  lemma RenderIsInjective(k1: IndexKey, k2: IndexKey)
    requires Render(k1) == Render(k2)
    ensures k1 == k2
  {
    var r1, r2 := Render(k1), Render(k2);
    assert r1[0] == r2[0];
    var t1, t2 := r1[2..], r2[2..];
    match k1 {
      case ByOid(o) =>
        assert t1 == Decimal(o) && t2 == Decimal(k2.oid);
        DecimalReadsBack(o);
        DecimalReadsBack(k2.oid);
      case ByName(DbKey(n)) =>
        assert t1 == n.bytes && t2 == k2.key.name.bytes;
      case ByName(GroupKey(d, n)) =>
        assert t1 == Decimal(d) + [COLON] + n.bytes && t2 == Decimal(k2.key.db) + [COLON] + k2.key.name.bytes;
        SplitAtColon(Decimal(d), n.bytes, Decimal(k2.key.db), k2.key.name.bytes);
        DecimalReadsBack(d);
        DecimalReadsBack(k2.key.db);
      case ByName(TableKey(d, n)) =>
        assert t1 == Decimal(d) + [COLON] + n.bytes && t2 == Decimal(k2.key.db) + [COLON] + k2.key.name.bytes;
        SplitAtColon(Decimal(d), n.bytes, Decimal(k2.key.db), k2.key.name.bytes);
        DecimalReadsBack(d);
        DecimalReadsBack(k2.key.db);
    }
  }
}
