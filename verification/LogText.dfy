/**
 The text of a v1 log line (src/catalog/catalog.c:188-224, 698-708; src/catalog/tmq.c has
 the same code): fields percent-encoded into fixed buffers and joined by tabs, then split
 at tabs and decoded into fixed buffers.  A string is its bytes, without the final NUL.
 */
module LogText {
  import opened Basics
  import opened Decimals

  type Char = c: int | 0 < c < 256 witness 1

  const TAB: Char := 9
  const LF: Char := 10
  const CR: Char := 13
  const SPACE: Char := 32
  const PERCENT: Char := 37

  function Hex(d: int): Char
    requires 0 <= d < 16
  {
    if d < 10 then 48 + d else 55 + d
  }

  function HexVal(c: Char): int {
    if 48 <= c <= 57 then c - 48
    else if 97 <= c <= 102 then c - 87
    else if 65 <= c <= 70 then c - 55
    else -1
  }

  function EncodeChar(c: Char): (e: seq<Char>)
    ensures 1 <= |e| <= 3
  {
    if c in {TAB, LF, CR, PERCENT, SPACE} then [PERCENT, Hex(c / 16), Hex(c % 16)] else [c]
  }

  /** What is escaped, spelled out: `%09`, `%0A`, `%0D`, `%20` and `%25`. */
  lemma Escapes()
    ensures EncodeChar(9) == [37, 48, 57] && EncodeChar(10) == [37, 48, 65] && EncodeChar(13) == [37, 48, 68]
    ensures EncodeChar(32) == [37, 50, 48] && EncodeChar(37) == [37, 50, 53]
    ensures forall c: Char :: c !in {9, 10, 13, 32, 37} ==> EncodeChar(c) == [c]
  {
  }

  /** `pct_encode` from write position `w` of a buffer of `size` bytes: it stops when fewer
      than five bytes are left. */
  function Encode(s: seq<Char>, w: nat, size: nat): seq<Char>
    decreases |s|
  {
    if s == [] || w + 4 >= size then []
    else EncodeChar(s[0]) + Encode(s[1..], w + |EncodeChar(s[0])|, size)
  }

  /** The escape at the front of `b`, or -1. */
  function Escape(b: seq<Char>): int
    requires b != []
  {
    if b[0] == PERCENT && |b| >= 3 && HexVal(b[1]) >= 0 && HexVal(b[2]) >= 0 then 16 * HexVal(b[1]) + HexVal(b[2])
    else -1
  }

  /** `pct_decode` into a buffer with `left` bytes left; a decoded NUL ends the string. */
  function Decode(b: seq<Char>, left: nat): seq<Char>
    decreases |b|
  {
    if b == [] || left <= 1 then []
    else if Escape(b) == 0 then []
    else if 0 < Escape(b) < 256 then [Escape(b)] + Decode(b[3..], left - 1)
    else [b[0]] + Decode(b[1..], left - 1)
  }

  method EncodeLoop(s: seq<Char>, size: nat) returns (b: seq<Char>)
    ensures b == Encode(s, 0, size)
  {
    hide EncodeChar;
    b := [];
    var p: nat := 0;
    assert s[0..] == s && b + Encode(s, 0, size) == Encode(s, 0, size);
    while p < |s| && |b| + 4 < size
      invariant p <= |s| && b + Encode(s[p..], |b|, size) == Encode(s, 0, size)
    {
      var e := EncodeChar(s[p]);
      assert s[p..][1..] == s[p + 1..];
      assert b + (e + Encode(s[p + 1..], |b| + |e|, size)) == b + e + Encode(s[p + 1..], |b| + |e|, size);
      b, p := b + e, p + 1;
    }
    assert b + [] == b;
  }

  // ---------------------------------------------------------------------
  // Round trip, exactly

  /** The bytes that encoding takes when nothing is cut. */
  function Length(s: seq<Char>): nat {
    if s == [] then 0 else |EncodeChar(s[0])| + Length(s[1..])
  }

  /** The encoding is not cut: all but the last byte leave room for five more. */
  predicate Room(s: seq<Char>, w: nat, size: nat) {
    s == [] || w + Length(s[..|s| - 1]) + 4 < size
  }

  /** How many bytes of `s` are encoded. */
  function Taken(s: seq<Char>, w: nat, size: nat): (k: nat)
    ensures k <= |s|
    decreases |s|
  {
    if s == [] || w + 4 >= size then 0 else 1 + Taken(s[1..], w + |EncodeChar(s[0])|, size)
  }

  lemma {:induction false} TakenAll(s: seq<Char>, w: nat, size: nat)
    ensures Taken(s, w, size) == |s| <==> Room(s, w, size)
    decreases |s|
  {
    hide EncodeChar;
    if |s| == 1 {
      assert s[..0] == [];
      assert Taken(s[1..], w + |EncodeChar(s[0])|, size) == 0;
    } else if |s| > 1 {
      TakenAll(s[1..], w + |EncodeChar(s[0])|, size);
      assert s[..|s| - 1][1..] == s[1..][..|s| - 2];
      assert s[..|s| - 1][0] == s[0];
    }
  }

  lemma EscapeBack(c: Char, rest: seq<Char>)
    ensures var b := EncodeChar(c) + rest;
            if c in {TAB, LF, CR, PERCENT, SPACE} then Escape(b) == c && b[3..] == rest
            else Escape(b) == -1 && b[0] == c && b[1..] == rest
  {
    var b := EncodeChar(c) + rest;
    if c in {TAB, LF, CR, PERCENT, SPACE} {
      assert b[1] == Hex(c / 16) && b[2] == Hex(c % 16);
    }
  }

  lemma DecodeStep(c: Char, rest: seq<Char>, left: nat)
    requires left > 1
    ensures Decode(EncodeChar(c) + rest, left) == [c] + Decode(rest, left - 1)
  {
    EscapeBack(c, rest);
    hide EncodeChar, Escape;
  }

  predicate IsHex(c: Char) {
    48 <= c <= 57 || 65 <= c <= 70 || 97 <= c <= 102
  }

  /** The digit of that value, in either case. */
  predicate Denotes(c: Char, d: nat) {
    d < 16 && c in if d < 10 then {48 + d} else {55 + d, 87 + d}
  }

  lemma DecodeIs(b: seq<Char>, left: nat)
    requires b != [] && left > 1
    ensures Decode(b, left) == if Escape(b) == 0 then []
                               else if 0 < Escape(b) < 256 then [Escape(b)] + Decode(b[3..], left - 1)
                               else [b[0]] + Decode(b[1..], left - 1)
  {
  }

  /** What decoding makes of the front of any text: a percent sign with two hexadecimal digits after
      it is that byte, or the end if that byte is 0; anything else stands for itself. */
  lemma DecodeFront(b: seq<Char>, left: nat)
    requires b != [] && left > 1
    ensures !(b[0] == 37 && |b| >= 3 && IsHex(b[1]) && IsHex(b[2])) ==>
              Decode(b, left) == [b[0]] + Decode(b[1..], left - 1)
    ensures forall hi: nat, lo: nat :: b[0] == 37 && |b| >= 3 && Denotes(b[1], hi) && Denotes(b[2], lo) ==>
              if hi == lo == 0 then Decode(b, left) == []
              else 0 < 16 * hi + lo < 256 && Decode(b, left) == [16 * hi + lo] + Decode(b[3..], left - 1)
  {
    hide Decode;
    DecodeIs(b, left);
    assert forall hi: nat, lo: nat :: b[0] == 37 && |b| >= 3 && Denotes(b[1], hi) && Denotes(b[2], lo) ==>
        Escape(b) == 16 * hi + lo;
  }

  lemma DecodeNothing(b: seq<Char>, left: nat)
    ensures b == [] || left <= 1 ==> Decode(b, left) == []
  {
  }

  /** What comes back: the part that was encoded and fits. */
  lemma {:induction false} DecodeEncoded(s: seq<Char>, w: nat, size: nat, left: nat)
    ensures var k := Taken(s, w, size);
            Decode(Encode(s, w, size), left) == s[..if left <= k then (if left == 0 then 0 else left - 1) else k]
    decreases |s|
  {
    hide EncodeChar, Decode;
    if s == [] || w + 4 >= size || left <= 1 {
      DecodeNothing(Encode(s, w, size), left);
    } else {
      var c, v := s[0], w + |EncodeChar(s[0])|;
      DecodeStep(c, Encode(s[1..], v, size), left);
      DecodeEncoded(s[1..], v, size, left - 1);
      var k := Taken(s[1..], v, size);
      var j := if left - 1 <= k then left - 2 else k;
      assert s[..j + 1] == [c] + s[1..][..j];
    }
  }

  /** A string survives encoding and decoding exactly when neither buffer cuts it. */
  lemma RoundTrip(s: seq<Char>, size: nat, left: nat)
    ensures Decode(Encode(s, 0, size), left) == s <==> s == [] || (Room(s, 0, size) && |s| < left)
  {
    DecodeEncoded(s, 0, size, left);
    TakenAll(s, 0, size);
    assert s[..|s|] == s;
  }

  /** A buffer of three bytes per byte and two more never cuts. */
  lemma {:induction false} LengthBound(s: seq<Char>)
    ensures Length(s) <= 3 * |s|
  {
    if s != [] {
      LengthBound(s[1..]);
    }
  }

  lemma WideBufferSuffices(s: seq<Char>, size: nat)
    requires size >= 3 * |s| + 2
    ensures Room(s, 0, size)
  {
    if s != [] {
      LengthBound(s[..|s| - 1]);
    }
  }

  function Spaces(n: nat): seq<Char> {
    if n == 0 then [] else [SPACE] + Spaces(n - 1)
  }

  lemma {:induction false} SpacesLength(n: nat)
    ensures |Spaces(n)| == n && Length(Spaces(n)) == 3 * n
    ensures n > 0 ==> Spaces(n)[..n - 1] == Spaces(n - 1)
  {
    if n > 0 {
      SpacesLength(n - 1);
      assert Spaces(n)[1..] == Spaces(n - 1);
      if n > 1 {
        assert Spaces(n)[..n - 1] == [SPACE] + Spaces(n - 1)[..n - 2];
      }
    }
  }

  /** One byte less than that can cut: the size that the comment on `pct_encode` asks for. */
  lemma DocumentedSizeCuts(n: nat)
    requires n > 0
    ensures !Room(Spaces(n), 0, 3 * n + 1)
  {
    SpacesLength(n);
    SpacesLength(n - 1);
  }

  /** A 63-byte name can be too long for the 128-byte buffers: it comes back cut. */
  lemma LongNameIsCut()
    ensures |Spaces(63)| == 63 && Decode(Encode(Spaces(63), 0, 128), 64) != Spaces(63)
  {
    SpacesLength(63);
    SpacesLength(62);
    RoundTrip(Spaces(63), 128, 64);
  }

  // ---------------------------------------------------------------------
  // Lines

  function Join(fs: seq<seq<Char>>): seq<Char> {
    if fs == [] then [] else if |fs| == 1 then fs[0] else fs[0] + [TAB] + Join(fs[1..])
  }

  /** The first tab, or the end. */
  function FirstTab(b: seq<Char>): (i: nat)
    ensures i <= |b| && (i < |b| ==> b[i] == TAB)
  {
    if b == [] || b[0] == TAB then 0 else 1 + FirstTab(b[1..])
  }

  /** `split_tab`: at most `max` fields, what follows them is dropped. */
  function Split(b: seq<Char>, max: nat): seq<seq<Char>>
    decreases max
  {
    if max == 0 then []
    else
      var i := FirstTab(b);
      if i == |b| then [b] else [b[..i]] + Split(b[i + 1..], max - 1)
  }

  /** No tab, and neither of the bytes that end a line. */
  predicate Plain(b: seq<Char>) {
    TAB !in b && LF !in b && CR !in b
  }

  lemma {:induction false} EncodedIsPlain(s: seq<Char>, w: nat, size: nat)
    ensures Plain(Encode(s, w, size))
    decreases |s|
  {
    if s != [] && w + 4 < size {
      EncodedIsPlain(s[1..], w + |EncodeChar(s[0])|, size);
    }
  }

  lemma {:induction false} TabAfter(f: seq<Char>, rest: seq<Char>)
    requires TAB !in f && (rest == [] || rest[0] == TAB)
    ensures FirstTab(f + rest) == |f|
  {
    if f == [] {
      assert f + rest == rest;
    } else {
      TabAfter(f[1..], rest);
      assert (f + rest)[1..] == f[1..] + rest;
    }
  }

  lemma SplitNone(b: seq<Char>)
    ensures Split(b, 0) == []
  {
  }

  lemma SplitLast(f: seq<Char>, max: nat)
    requires max > 0 && TAB !in f
    ensures Split(f, max) == [f]
  {
    TabAfter(f, []);
    assert f + [] == f;
  }

  lemma SplitStep(f: seq<Char>, tail: seq<Char>, max: nat)
    requires max > 0 && TAB !in f
    ensures Split(f + [TAB] + tail, max) == [f] + Split(tail, max - 1)
  {
    var b, rest := f + [TAB] + tail, [TAB] + tail;
    assert b == f + rest;
    TabAfter(f, rest);
    hide FirstTab;
    assert b[..|f|] == f && b[|f| + 1..] == tail;
  }

  lemma {:induction false} SplitJoined(fs: seq<seq<Char>>, max: nat)
    requires fs != [] && forall i :: 0 <= i < |fs| ==> TAB !in fs[i]
    ensures Split(Join(fs), max) == if |fs| <= max then fs else fs[..max]
    decreases |fs|
  {
    hide Split;
    var f := fs[0];
    if max == 0 {
      SplitNone(Join(fs));
    } else if |fs| == 1 {
      SplitLast(f, max);
      assert fs == [f];
    } else {
      SplitStep(f, Join(fs[1..]), max);
      SplitJoined(fs[1..], max - 1);
      assert fs == [f] + fs[1..];
      if |fs| > max {
        assert fs[..max] == [f] + fs[1..][..max - 1];
      }
    }
  }

  // ---------------------------------------------------------------------
  // Records

  const MINUS: Char := 45

  /** A field of a record: a mark, a text with the sizes of the buffers it is encoded and decoded
      in, or a number. */
  datatype Field = Mark(c: Char) | Text(s: seq<Char>, size: nat, left: nat) | Number(v: int)

  /** `%lld`. */
  function Print(v: int): seq<Char> {
    if v < 0 then [MINUS] + Decimal(-v) else Decimal(v)
  }

  /** `strtoll`, of a number that fits. */
  function ReadNumber(b: seq<Char>): int {
    if b != [] && b[0] == MINUS then -(Scan(b[1..], 0) as int) else Scan(b, 0)
  }

  lemma NumberBack(v: int)
    ensures ReadNumber(Print(v)) == v && Plain(Print(v))
  {
    var n := if v < 0 then -v else v;
    DecimalReadsBack(n);
    ScanIsValue(Decimal(n));
    assert v < 0 ==> Print(v)[1..] == Decimal(n);
  }

  function Write(f: Field): seq<Char> {
    match f
    case Mark(c) => [c]
    case Text(s, size, _) => Encode(s, 0, size)
    case Number(v) => Print(v)
  }

  /** Read a field of the same shape as `f`. */
  function Read(f: Field, b: seq<Char>): Field {
    match f
    case Mark(_) => if b == [] then f else Mark(b[0])
    case Text(_, size, left) => Text(Decode(b, left), size, left)
    case Number(_) => Number(ReadNumber(b))
  }

  function WriteAll(fs: seq<Field>): (bs: seq<seq<Char>>)
    ensures |bs| == |fs|
  {
    seq(|fs|, i requires 0 <= i < |fs| => Write(fs[i]))
  }

  function ReadAll(fs: seq<Field>, bs: seq<seq<Char>>): seq<Field>
    requires |fs| == |bs|
  {
    seq(|fs|, i requires 0 <= i < |fs| => Read(fs[i], bs[i]))
  }

  /** Neither buffer cuts the field. */
  predicate Whole(f: Field) {
    f.Text? ==> f.s == [] || (Room(f.s, 0, f.size) && |f.s| < f.left)
  }

  lemma FieldBack(f: Field)
    requires f.Mark? ==> Plain([f.c])
    ensures Plain(Write(f)) && (Read(f, Write(f)) == f <==> Whole(f))
  {
    match f
    case Mark(c) =>
    case Text(s, size, left) =>
      EncodedIsPlain(s, 0, size);
      RoundTrip(s, size, left);
    case Number(v) =>
      NumberBack(v);
  }

  lemma {:induction false} JoinedIsPlain(bs: seq<seq<Char>>)
    requires forall i :: 0 <= i < |bs| ==> Plain(bs[i])
    ensures LF !in Join(bs) && CR !in Join(bs)
  {
    if |bs| > 1 {
      JoinedIsPlain(bs[1..]);
    }
  }

  /** A record is written as one line, and it splits and reads back as the same record exactly
      when no text field is cut. */
  lemma LineReadsBack(fs: seq<Field>, max: nat)
    requires 0 < |fs| <= max && forall i :: 0 <= i < |fs| && fs[i].Mark? ==> Plain([fs[i].c])
    ensures LF !in Join(WriteAll(fs)) && CR !in Join(WriteAll(fs))
    ensures Split(Join(WriteAll(fs)), max) == WriteAll(fs)
    ensures ReadAll(fs, WriteAll(fs)) == fs <==> forall i :: 0 <= i < |fs| ==> Whole(fs[i])
  {
    hide Write, Read, Whole, Split, Join;
    var bs := WriteAll(fs);
    forall i | 0 <= i < |fs| ensures Plain(bs[i]) && (Read(fs[i], bs[i]) == fs[i] <==> Whole(fs[i])) {
      FieldBack(fs[i]);
    }
    SplitJoined(bs, max);
    JoinedIsPlain(bs);
    var rs := ReadAll(fs, bs);
    if rs == fs {
      forall i | 0 <= i < |fs| ensures Whole(fs[i]) {
        assert rs[i] == fs[i];
      }
    }
  }

  /** A text shorter than its target comes back exactly when its encoding is not cut. */
  lemma TextBack(s: seq<Char>, size: nat, left: nat)
    requires |s| < left
    ensures Plain(Encode(s, 0, size))
    ensures Decode(Encode(s, 0, size), left) == s <==> Room(s, 0, size)
    ensures size >= 3 * |s| + 2 ==> Room(s, 0, size)
  {
    EncodedIsPlain(s, 0, size);
    RoundTrip(s, size, left);
    if size >= 3 * |s| + 2 {
      WideBufferSuffices(s, size);
    }
  }

  // ---------------------------------------------------------------------
  // Groups and devices

  datatype GroupText = GroupText(name: seq<Char>, region: seq<Char>, retention: int, codec: seq<Char>, replicas: int,
                                 tags: seq<Char>, createdAt: int, database: seq<Char>)

  /** `log_group`, with the sizes of the buffers on both sides. */
  function GroupLine(g: GroupText): seq<Field> {
    [Mark(43), Text(g.name, 128, 64), Text(g.region, 96, 32), Number(g.retention), Text(g.codec, 96, 32),
     Number(g.replicas), Text(g.tags, 1600, 512), Number(g.createdAt), Text(g.database, 128, 64)]
  }

  /** A create line of `replay_groups`; one of eight fields has no database. */
  function ReadGroup(bs: seq<seq<Char>>): Option<GroupText> {
    if |bs| >= 8 && bs[0] != [] && bs[0][0] == 43 then
      Some(GroupText(Decode(bs[1], 64), Decode(bs[2], 32), ReadNumber(bs[3]), Decode(bs[4], 32), ReadNumber(bs[5]),
                     Decode(bs[6], 512), ReadNumber(bs[7]), if |bs| >= 9 then Decode(bs[8], 64) else []))
    else None
  }

  predicate GroupFits(g: GroupText) {
    |g.name| < 64 && |g.region| < 32 && |g.codec| < 32 && |g.tags| < 512 && |g.database| < 64
  }

  lemma MarksArePlain()
    ensures Plain([43]) && Plain([45]) && Plain([126])
  {
  }

  lemma GroupFieldsBack(g: GroupText)
    requires GroupFits(g)
    ensures var bs := WriteAll(GroupLine(g));
            && |bs| == 9 && (forall i :: 0 <= i < 9 ==> Plain(bs[i]))
            && (ReadGroup(bs) == Some(g) <==> Room(g.name, 0, 128) && Room(g.database, 0, 128))
            && (ReadGroup(bs[..8]) == Some(g.(database := [])) <==> Room(g.name, 0, 128))
  {
    hide Room, Encode, Decode, Print, ReadNumber, Plain;
    MarksArePlain();
    TextBack(g.name, 128, 64);
    TextBack(g.region, 96, 32);
    TextBack(g.codec, 96, 32);
    TextBack(g.tags, 1600, 512);
    TextBack(g.database, 128, 64);
    NumberBack(g.retention);
    NumberBack(g.replicas);
    NumberBack(g.createdAt);
    var bs := WriteAll(GroupLine(g));
    assert bs == [[43], Encode(g.name, 0, 128), Encode(g.region, 0, 96), Print(g.retention), Encode(g.codec, 0, 96),
                  Print(g.replicas), Encode(g.tags, 0, 1600), Print(g.createdAt), Encode(g.database, 0, 128)];
  }

  lemma PlainHasNoTab(bs: seq<seq<Char>>)
    requires forall i :: 0 <= i < |bs| ==> Plain(bs[i])
    ensures forall i :: 0 <= i < |bs| ==> TAB !in bs[i]
  {
  }

  /** A group line is one line, and the replay reads the group back from it if and only if the
      encodings of its name and of its database fit their 128 bytes; region, codec profile and tags
      are never cut.  A line of the older shape, without a database, reads back without one. */
  lemma GroupLineReadsBack(g: GroupText)
    requires GroupFits(g)
    ensures var bs := WriteAll(GroupLine(g));
            && LF !in Join(bs) && CR !in Join(bs)
            && (ReadGroup(Split(Join(bs), 16)) == Some(g) <==> Room(g.name, 0, 128) && Room(g.database, 0, 128))
            && (ReadGroup(Split(Join(bs[..8]), 16)) == Some(g.(database := [])) <==> Room(g.name, 0, 128))
  {
    hide GroupLine, Room, WriteAll, Split, Join, ReadGroup, Plain;
    var bs := WriteAll(GroupLine(g));
    GroupFieldsBack(g);
    PlainHasNoTab(bs);
    SplitJoined(bs, 16);
    SplitJoined(bs[..8], 16);
    JoinedIsPlain(bs);
  }

  datatype DeviceText = DeviceText(group: seq<Char>, id: seq<Char>, typ: seq<Char>, location: seq<Char>,
                                   tags: seq<Char>, firstSeen: int, lastSeen: int, status: int)

  datatype DeviceOp = Create(d: DeviceText) | Remove(group: seq<Char>, id: seq<Char>)
                    | Update(group: seq<Char>, id: seq<Char>, ts: int)

  /** `log_device`, `log_device_drop` and `log_device_update`. */
  function DeviceLine(op: DeviceOp): seq<Field> {
    match op
    case Create(d) =>
      [Mark(43), Text(d.group, 192, 64), Text(d.id, 384, 128), Text(d.typ, 96, 32), Text(d.location, 384, 128),
       Text(d.tags, 1600, 512), Number(d.firstSeen), Number(d.lastSeen), Number(d.status)]
    case Remove(g, id) => [Mark(45), Text(g, 192, 64), Text(id, 384, 128)]
    case Update(g, id, ts) => [Mark(126), Text(g, 192, 64), Text(id, 384, 128), Number(ts)]
  }

  /** A line of `replay_devices`; a line with too few fields is passed over. */
  function ReadDevice(bs: seq<seq<Char>>): Option<DeviceOp> {
    if bs == [] || bs[0] == [] then None
    else if bs[0][0] == 43 && |bs| >= 9 then
      Some(Create(DeviceText(Decode(bs[1], 64), Decode(bs[2], 128), Decode(bs[3], 32), Decode(bs[4], 128),
                             Decode(bs[5], 512), ReadNumber(bs[6]), ReadNumber(bs[7]), ReadNumber(bs[8]))))
    else if bs[0][0] == 45 && |bs| >= 3 then Some(Remove(Decode(bs[1], 64), Decode(bs[2], 128)))
    else if bs[0][0] == 126 && |bs| >= 4 then Some(Update(Decode(bs[1], 64), Decode(bs[2], 128), ReadNumber(bs[3])))
    else None
  }

  predicate DeviceFits(op: DeviceOp) {
    match op
    case Create(d) => |d.group| < 64 && |d.id| < 128 && |d.typ| < 32 && |d.location| < 128 && |d.tags| < 512
    case Remove(g, id) => |g| < 64 && |id| < 128
    case Update(g, id, _) => |g| < 64 && |id| < 128
  }

  lemma CreateFieldsBack(d: DeviceText)
    requires DeviceFits(Create(d))
    ensures var bs := WriteAll(DeviceLine(Create(d)));
            && |bs| == 9 && (forall i :: 0 <= i < |bs| ==> Plain(bs[i])) && ReadDevice(bs) == Some(Create(d))
  {
    hide Room, Encode, Decode, Print, ReadNumber, Plain;
    TextBack(d.group, 192, 64);
    TextBack(d.id, 384, 128);
    TextBack(d.typ, 96, 32);
    TextBack(d.location, 384, 128);
    TextBack(d.tags, 1600, 512);
    NumberBack(d.firstSeen);
    NumberBack(d.lastSeen);
    NumberBack(d.status);
    MarksArePlain();
    var bs := WriteAll(DeviceLine(Create(d)));
    assert bs == [[43], Encode(d.group, 0, 192), Encode(d.id, 0, 384), Encode(d.typ, 0, 96), Encode(d.location, 0, 384),
                  Encode(d.tags, 0, 1600), Print(d.firstSeen), Print(d.lastSeen), Print(d.status)];
  }

  lemma DeviceFieldsBack(op: DeviceOp)
    requires DeviceFits(op)
    ensures var bs := WriteAll(DeviceLine(op));
            && 3 <= |bs| <= 9 && (forall i :: 0 <= i < |bs| ==> Plain(bs[i])) && ReadDevice(bs) == Some(op)
  {
    hide Room, Encode, Decode, Print, ReadNumber, Plain;
    MarksArePlain();
    var bs := WriteAll(DeviceLine(op));
    match op
    case Create(d) =>
      CreateFieldsBack(d);
    case Remove(g, id) =>
      TextBack(g, 192, 64);
      TextBack(id, 384, 128);
      assert bs == [[45], Encode(g, 0, 192), Encode(id, 0, 384)];
    case Update(g, id, ts) =>
      TextBack(g, 192, 64);
      TextBack(id, 384, 128);
      NumberBack(ts);
      assert bs == [[126], Encode(g, 0, 192), Encode(id, 0, 384), Print(ts)];
  }

  /** A device line is one line and always reads back: its buffers are wide enough. */
  lemma DeviceLineReadsBack(op: DeviceOp)
    requires DeviceFits(op)
    ensures var bs := WriteAll(DeviceLine(op));
            LF !in Join(bs) && CR !in Join(bs) && ReadDevice(Split(Join(bs), 16)) == Some(op)
  {
    hide DeviceLine, WriteAll, Split, Join, ReadDevice, Plain;
    var bs := WriteAll(DeviceLine(op));
    DeviceFieldsBack(op);
    PlainHasNoTab(bs);
    SplitJoined(bs, 16);
    JoinedIsPlain(bs);
  }
}
