/**
 The entities of the v2 catalog (src/catalog/catalog_v2.h): databases, groups and
 tables, identified by 64-bit object ids.  A 64-bit or 32-bit field is the unsigned
 value of its bits; a name is its bytes.
 */
module Entities {

  type Oid = nat

  const OID_NONE: Oid := 0
  const OID_DEFAULTDB: Oid := 1
  const OID_SYSDB: Oid := 2

  type Byte = b: int | 0 <= b < 256

  datatype Text = Text(bytes: seq<Byte>)

  datatype Kind = Plain | Super | Child

  datatype Column = Column(name: Text, typ: nat)

  /** A tag value: its type and the raw bytes of its union. */
  datatype TagVal = TagVal(typ: nat, raw: seq<Byte>)

  datatype Meta =
    | Db(name: Text, description: Text, retention: nat, createdAt: nat, protected: nat)
    | Group(db: Oid, name: Text, region: Text, codec: Text, retention: nat, replicas: nat, createdAt: nat)
    | Table(db: Oid, group: Oid, parent: Oid, kind: Kind, name: Text, cols: seq<Column>, tsCol: nat,
            tagCols: seq<Column>, tagVals: seq<TagVal>, createdAt: nat)

  datatype Ent = EDb | EGroup | ETable

  function EntOf(m: Meta): Ent {
    if m.Db? then EDb else if m.Group? then EGroup else ETable
  }

  /** A zeroed entity, which is all that replay knows of a tombstone. */
  function Blank(e: Ent): (m: Meta)
    ensures EntOf(m) == e
  {
    match e
    case EDb => Db(Text([]), Text([]), 0, 0, 0)
    case EGroup => Group(0, Text([]), Text([]), Text([]), 0, 0, 0)
    case ETable => Table(0, 0, 0, Plain, Text([]), [], 0, [], [], 0)
  }

  /** The keys of the name index. */
  datatype Key = DbKey(name: Text) | GroupKey(db: Oid, name: Text) | TableKey(db: Oid, name: Text)

  function KeyOf(m: Meta): Key {
    match m
    case Db(n, _, _, _, _) => DbKey(n)
    case Group(d, n, _, _, _, _, _) => GroupKey(d, n)
    case Table(d, _, _, _, n, _, _, _, _, _) => TableKey(d, n)
  }

  /** The one entity whose drop drops this one: `cascade_parent`. */
  function CascadeParent(m: Meta): Oid {
    match m
    case Db(_, _, _, _, _) => OID_NONE
    case Group(d, _, _, _, _, _, _) => d
    case Table(d, g, p, kind, _, _, _, _, _, _) => if kind == Child then p else if g != OID_NONE then g else d
  }
}
