/**
 The framed wire protocol (cli/tsdb_wire.c:216-312 and sdk/go/wire.go:138-218): a
 24-byte header, a payload, and a CRC32C of the header after its magic and of the payload.
 The C receiver takes any version; the Go receiver only its own.
 */
module Frames {
  import opened Entities
  import opened Bytes
  import Crc32c

  const MAGIC: nat := 0x4244_5354
  const VERSION: Byte := 1
  const MAX_PAYLOAD: nat := 16 * 1024 * 1024

  datatype Msg = Msg(ver: Byte, typ: Byte, flags: nat, reserved: nat, reqId: nat, payload: seq<Byte>)

  predicate MsgOk(m: Msg) {
    Fits(m.flags, 2) && Fits(m.reserved, 4) && Fits(m.reqId, 8) && |m.payload| <= MAX_PAYLOAD
  }

  // ---------------------------------------------------------------------
  // The checksum as bytes

  function Octets(b: seq<Byte>): (o: seq<Crc32c.Octet>)
    ensures |o| == |b|
  {
    seq(|b|, i requires 0 <= i < |b| => Crc32c.ToBits(b[i], 8))
  }

  function ByteOf(b: Crc32c.Octet): Byte {
    Crc32c.BitsBack(b);
    Crc32c.ByteRange();
    Crc32c.Value(b)
  }

  /** The checksum, little-endian. */
  function Trailer(c: Crc32c.Word): (t: seq<Byte>)
    ensures |t| == 4
  {
    [ByteOf(c[..8]), ByteOf(c[8..16]), ByteOf(c[16..24]), ByteOf(c[24..])]
  }

  lemma OctetsInjective(x: seq<Byte>, y: seq<Byte>)
    requires |x| == |y| && Octets(x) == Octets(y)
    ensures x == y
  {
    hide Crc32c.ToBits, Crc32c.Value;
    forall i | 0 <= i < |x| ensures x[i] == y[i] {
      assert Octets(x)[i] == Octets(y)[i];
      Crc32c.ByteRange();
      Crc32c.ValueBack(x[i], 8);
      Crc32c.ValueBack(y[i], 8);
    }
  }

  lemma OctetsConcat(x: seq<Byte>, y: seq<Byte>)
    ensures Octets(x + y) == Octets(x) + Octets(y)
  {
  }

  lemma OctetBack(a: Crc32c.Octet, b: Crc32c.Octet)
    requires ByteOf(a) == ByteOf(b)
    ensures a == b
  {
    Crc32c.BitsBack(a);
    Crc32c.BitsBack(b);
  }

  lemma TrailerInjective(c: Crc32c.Word, d: Crc32c.Word)
    requires Trailer(c) == Trailer(d)
    ensures c == d
  {
    hide Crc32c.ToBits, Crc32c.Value;
    var s, t := Trailer(c), Trailer(d);
    assert s[0] == t[0] && s[1] == t[1] && s[2] == t[2] && s[3] == t[3];
    OctetBack(c[..8], d[..8]);
    OctetBack(c[8..16], d[8..16]);
    OctetBack(c[16..24], d[16..24]);
    OctetBack(c[24..], d[24..]);
    assert c == c[..8] + c[8..16] + c[16..24] + c[24..];
    assert d == d[..8] + d[8..16] + d[16..24] + d[24..];
  }

  /** An octet is the byte's bits. */
  lemma OctetsAre(b: seq<Byte>, i: nat)
    requires i < |b|
    ensures Crc32c.Value(Octets(b)[i]) == b[i]
  {
    Crc32c.ByteRange();
    Crc32c.ValueBack(b[i], 8);
  }

  /** The trailer is the checksum as a little-endian number. */
  lemma TrailerIs(c: Crc32c.Word)
    ensures UnLE(Trailer(c)) == Crc32c.Value(c)
  {
    hide Crc32c.Value, Crc32c.Pow2;
    var a, b, d, e := c[..8], c[8..16], c[16..24], c[24..];
    assert c == a + (b + (d + e));
    Crc32c.ByteRange();
    Crc32c.ValueConcat(a, b + (d + e));
    Crc32c.ValueConcat(b, d + e);
    Crc32c.ValueConcat(d, e);
    var t := Trailer(c);
    assert UnLE(t[3..]) == t[3] && UnLE(t[2..]) == t[2] + 256 * UnLE(t[3..]);
    assert UnLE(t[1..]) == t[1] + 256 * UnLE(t[2..]) && UnLE(t) == t[0] + 256 * UnLE(t[1..]) by {
      assert t[1..][1..] == t[2..];
    }
  }

  // ---------------------------------------------------------------------
  // Headers

  datatype Head = Head(ver: Byte, typ: Byte, flags: nat, reserved: nat, reqId: nat, len: nat)

  predicate HeadOk(h: Head) {
    Fits(h.flags, 2) && Fits(h.reserved, 4) && Fits(h.reqId, 8) && Fits(h.len, 4)
  }

  /** The header after the magic. */
  function PutHead(h: Head): (b: seq<Byte>)
    ensures |b| == 20
  {
    [h.ver, h.typ] + LE(h.flags, 2) + LE(h.reserved, 4) + LE(h.reqId, 8) + LE(h.len, 4)
  }

  function GetHead(b: seq<Byte>): Head
    requires |b| == 20
  {
    Head(b[0], b[1], UnLE(b[2..4]), UnLE(b[4..8]), UnLE(b[8..16]), UnLE(b[16..20]))
  }

  lemma HeadBack(h: Head)
    requires HeadOk(h)
    ensures GetHead(PutHead(h)) == h
  {
    hide LE, UnLE, Fits;
    var b := PutHead(h);
    var b2 := [h.ver, h.typ] + LE(h.flags, 2);
    var b4 := b2 + LE(h.reserved, 4);
    var b8 := b4 + LE(h.reqId, 8);
    assert b2[2..4] == LE(h.flags, 2) && b4[4..8] == LE(h.reserved, 4);
    assert b8[8..16] == LE(h.reqId, 8) && b[16..20] == LE(h.len, 4);
    assert b8 == b[..16] && b4 == b[..8] && b2 == b[..4];
    assert b[2..4] == b2[2..4] && b[4..8] == b4[4..8] && b[8..16] == b8[8..16];
    UnLEInverts(h.flags, 2);
    UnLEInverts(h.reserved, 4);
    UnLEInverts(h.reqId, 8);
    UnLEInverts(h.len, 4);
  }

  lemma {:induction false} UnLEFits(b: seq<Byte>)
    ensures Fits(UnLE(b), |b|)
  {
    if b != [] {
      UnLEFits(b[1..]);
      assert UnLE(b) / 256 == UnLE(b[1..]);
    }
  }

  lemma HeadForth(b: seq<Byte>)
    requires |b| == 20
    ensures HeadOk(GetHead(b)) && PutHead(GetHead(b)) == b
  {
    hide LE, UnLE, Fits;
    LEInverts(b[2..4]);
    LEInverts(b[4..8]);
    LEInverts(b[8..16]);
    LEInverts(b[16..20]);
    UnLEFits(b[2..4]);
    UnLEFits(b[4..8]);
    UnLEFits(b[8..16]);
    UnLEFits(b[16..20]);
    assert b == [b[0], b[1]] + b[2..4] + b[4..8] + b[8..16] + b[16..20];
  }

  // ---------------------------------------------------------------------
  // Frames

  function HeadOf(m: Msg): Head {
    Head(m.ver, m.typ, m.flags, m.reserved, m.reqId, |m.payload|)
  }

  /** The checksum over a header and a payload, in two pieces. */
  function Sum(head: seq<Byte>, payload: seq<Byte>): Crc32c.Word {
    Crc32c.Crc(Crc32c.Crc(Crc32c.Zeros(32), Octets(head)), Octets(payload))
  }

  function Wire(m: Msg): seq<Byte> {
    var head := PutHead(HeadOf(m));
    LE(MAGIC, 4) + head + m.payload + Trailer(Sum(head, m.payload))
  }

  datatype Received = Ok(msg: Msg, rest: seq<Byte>) | Short | BadMagic | BadVersion | TooLarge | BadCrc

  function ReceiveBody(h: Head, head: seq<Byte>, s: seq<Byte>): Received {
    if |s| < h.len + 4 then Short
    else if s[h.len..h.len + 4] != Trailer(Sum(head, s[..h.len])) then BadCrc
    else Ok(Msg(h.ver, h.typ, h.flags, h.reserved, h.reqId, s[..h.len]), s[h.len + 4..])
  }

  function Receive(s: seq<Byte>, checkVersion: bool): Received {
    if |s| < 24 then Short
    else if UnLE(s[..4]) != MAGIC then BadMagic
    else if checkVersion && s[4] != VERSION then BadVersion
    else
      var h := GetHead(s[4..24]);
      if h.len > MAX_PAYLOAD then TooLarge
      else ReceiveBody(h, s[4..24], s[24..])
  }

  /** The four parts of a stream that starts with a frame. */
  lemma Parts(m: seq<Byte>, head: seq<Byte>, body: seq<Byte>)
    requires |m| == 4 && |head| == 20
    ensures var s := m + head + body; |s| >= 24 && s[..4] == m && s[4..24] == head && s[24..] == body
  {
  }

  lemma BodyBack(h: Head, head: seq<Byte>, payload: seq<Byte>, t: seq<Byte>, rest: seq<Byte>)
    requires |payload| == h.len && |t| == 4
    ensures ReceiveBody(h, head, payload + t + rest)
         == if t != Trailer(Sum(head, payload)) then BadCrc
            else Ok(Msg(h.ver, h.typ, h.flags, h.reserved, h.reqId, payload), rest)
  {
    hide Trailer, Sum;
    var s := payload + t + rest;
    assert s[..h.len] == payload && s[h.len..h.len + 4] == t && s[h.len + 4..] == rest;
  }

  /** The magic is the four letters TSDB. */
  lemma MagicBack()
    ensures UnLE(LE(MAGIC, 4)) == MAGIC && LE(MAGIC, 4) == [0x54, 0x53, 0x44, 0x42]
  {
    SmallFits(MAGIC);
    UnLEInverts(MAGIC, 4);
    LEFields(MAGIC);
  }

  /** A stream of a right magic, any header and payload, and any four bytes after them. */
  lemma ReceiveParts(head: seq<Byte>, payload: seq<Byte>, t: seq<Byte>, rest: seq<Byte>, checkVersion: bool)
    requires |head| == 20 && |payload| == GetHead(head).len <= MAX_PAYLOAD && |t| == 4
    ensures Receive(LE(MAGIC, 4) + head + payload + t + rest, checkVersion)
         == if checkVersion && head[0] != VERSION then BadVersion
            else ReceiveBody(GetHead(head), head, payload + t + rest)
  {
    hide LE, UnLE, ReceiveBody;
    var s := LE(MAGIC, 4) + head + payload + t + rest;
    var body := payload + t + rest;
    assert s == LE(MAGIC, 4) + head + body;
    Parts(LE(MAGIC, 4), head, body);
    assert s[4] == s[4..24][0];
    MagicBack();
  }

  lemma PayloadFits(n: nat)
    requires n <= MAX_PAYLOAD
    ensures Fits(n, 4)
  {
    SmallFits(n);
  }

  lemma SentIsReceived(m: Msg, rest: seq<Byte>, checkVersion: bool)
    requires MsgOk(m)
    ensures Receive(Wire(m) + rest, checkVersion)
         == if checkVersion && m.ver != VERSION then BadVersion else Ok(m, rest)
  {
    hide LE, UnLE, Fits, Receive, ReceiveBody, Sum, Trailer;
    var h := HeadOf(m);
    var head := PutHead(h);
    PayloadFits(|m.payload|);
    HeadBack(h);
    var t := Trailer(Sum(head, m.payload));
    assert Wire(m) + rest == LE(MAGIC, 4) + head + m.payload + t + rest;
    ReceiveParts(head, m.payload, t, rest, checkVersion);
    BodyBack(h, head, m.payload, t, rest);
  }

  lemma ReceivedWasSent(s: seq<Byte>, m: Msg, rest: seq<Byte>, checkVersion: bool)
    requires Receive(s, checkVersion) == Ok(m, rest)
    ensures s == Wire(m) + rest && MsgOk(m) && (checkVersion ==> m.ver == VERSION)
  {
    hide LE, UnLE, Fits, Sum, Trailer, PutHead;
    var head, body := s[4..24], s[24..];
    var h := GetHead(head);
    HeadForth(head);
    LEInverts(s[..4]);
    assert head[0] == s[4];
    assert body == m.payload + body[h.len..h.len + 4] + rest;
    assert s == s[..4] + head + body;
  }

  lemma SumWhole(head: seq<Byte>, payload: seq<Byte>)
    ensures Sum(head, payload) == Crc32c.Crc(Crc32c.Zeros(32), Octets(head + payload))
  {
    hide Octets, Crc32c.Crc;
    OctetsConcat(head, payload);
    Crc32c.CrcConcat(Crc32c.Zeros(32), Octets(head), Octets(payload));
  }

  /** Comparing two checksums as numbers is comparing their bytes. */
  lemma SumsDiffer(a: seq<Byte>, b: seq<Byte>)
    requires |a| == |b|
    ensures UnLE(a) == UnLE(b) <==> a == b
  {
    LEInverts(a);
    LEInverts(b);
  }

  ghost predicate RightMagic(s: seq<Byte>) {
    |s| >= 24 && s[..4] == [0x54, 0x53, 0x44, 0x42]
  }

  /** The payload length that the header gives. */
  ghost function Claimed(s: seq<Byte>): nat
    requires |s| >= 24
  {
    UnLE(s[20..24])
  }

  /** A right magic, a version that is taken, and a length within the limit of 16 MiB. */
  ghost predicate RightHead(s: seq<Byte>, checkVersion: bool) {
    RightMagic(s) && (checkVersion ==> s[4] == 1) && Claimed(s) <= 16 * 1024 * 1024
  }

  /** The number after the payload is the checksum of all that lies between the magic and it. */
  ghost predicate RightSum(s: seq<Byte>)
    requires |s| >= 24 && |s| >= 28 + Claimed(s)
  {
    var n := Claimed(s);
    UnLE(s[24 + n..28 + n]) == Crc32c.Value(Crc32c.Crc(Crc32c.Zeros(32), Octets(s[4..24 + n])))
  }

  lemma MagicIs(s: seq<Byte>)
    requires |s| >= 24
    ensures UnLE(s[..4]) == MAGIC <==> RightMagic(s)
  {
    hide LE, UnLE;
    MagicBack();
    LEInverts(s[..4]);
  }

  lemma SumIs(s: seq<Byte>)
    requires |s| >= 24 && |s| >= 28 + Claimed(s)
    ensures var n := Claimed(s);
            s[24..][n..n + 4] == Trailer(Sum(s[4..24], s[24..][..n])) <==> RightSum(s)
  {
    hide Trailer, Sum, Octets, UnLE, Crc32c.Crc, Crc32c.Value;
    var n := Claimed(s);
    var head, payload, t := s[4..24], s[24..][..n], s[24..][n..n + 4];
    assert s[4..24 + n] == head + payload && t == s[24 + n..28 + n];
    SumWhole(head, payload);
    TrailerIs(Sum(head, payload));
    SumsDiffer(t, Trailer(Sum(head, payload)));
  }

  lemma HeadLength(s: seq<Byte>)
    requires |s| >= 24
    ensures GetHead(s[4..24]).len == Claimed(s)
  {
    hide UnLE;
    assert s[4..24][16..20] == s[20..24];
  }

  /** What is refused, and as what: too few bytes, a wrong magic, a version that is not taken, a
      length over the limit, or a wrong checksum; each only if the ones checked before it pass. */
  lemma ReceiveErrors(s: seq<Byte>, checkVersion: bool)
    ensures var r := Receive(s, checkVersion);
            && (r.BadMagic? <==> |s| >= 24 && !RightMagic(s))
            && (r.BadVersion? <==> RightMagic(s) && checkVersion && s[4] != 1)
            && (r.TooLarge? <==> RightMagic(s) && (checkVersion ==> s[4] == 1) && Claimed(s) > 16 * 1024 * 1024)
            && (r.Short? <==> |s| < 24 || (RightHead(s, checkVersion) && |s| < 28 + Claimed(s)))
            && (r.BadCrc? <==> RightHead(s, checkVersion) && |s| >= 28 + Claimed(s) && !RightSum(s))
  {
    hide UnLE, GetHead, Trailer, Sum, RightSum, Claimed;
    if |s| >= 24 {
      MagicIs(s);
      HeadLength(s);
      if RightHead(s, checkVersion) && |s| >= 28 + Claimed(s) {
        SumIs(s);
      }
    }
  }

  /** The receiver takes exactly the well-formed frames, and returns what they carry. */
  lemma ReceiveExactly(s: seq<Byte>, m: Msg, rest: seq<Byte>, checkVersion: bool)
    ensures Receive(s, checkVersion) == Ok(m, rest)
       <==> s == Wire(m) + rest && MsgOk(m) && (checkVersion ==> m.ver == VERSION)
  {
    if s == Wire(m) + rest && MsgOk(m) {
      SentIsReceived(m, rest, checkVersion);
    }
    if Receive(s, checkVersion) == Ok(m, rest) {
      ReceivedWasSent(s, m, rest, checkVersion);
    }
  }

  /** The Go receiver takes what the C receiver takes at version 1. */
  lemma ReceiversAgree(s: seq<Byte>, m: Msg, rest: seq<Byte>)
    ensures Receive(s, true) == Ok(m, rest) <==> Receive(s, false) == Ok(m, rest) && m.ver == VERSION
  {
    ReceiveExactly(s, m, rest, true);
    ReceiveExactly(s, m, rest, false);
  }

  // ---------------------------------------------------------------------
  // Any number of frames back to back

  function WireAll(ms: seq<Msg>): seq<Byte> {
    if ms == [] then [] else Wire(ms[0]) + WireAll(ms[1..])
  }

  /** Read frames until the stream ends; nothing if it ends within one. */
  function ReceiveAll(s: seq<Byte>, checkVersion: bool): Got<seq<Msg>>
    decreases |s|
  {
    if s == [] then Got([], [])
    else match Receive(s, checkVersion)
      case Ok(m, rest) =>
        if |rest| >= |s| then Err
        else match ReceiveAll(rest, checkVersion) { case Got(ms, end) => Got([m] + ms, end) case Err => Err }
      case _ => Err
  }

  lemma NothingReceived(checkVersion: bool)
    ensures ReceiveAll([], checkVersion) == Got([], [])
  {
  }

  lemma WireNonempty(m: Msg)
    ensures |Wire(m)| > 0
  {
  }

  lemma OneReceived(m: Msg, rest: seq<Byte>, checkVersion: bool)
    requires Receive(Wire(m) + rest, checkVersion) == Ok(m, rest) && ReceiveAll(rest, checkVersion).Got?
    ensures ReceiveAll(Wire(m) + rest, checkVersion)
         == Got([m] + ReceiveAll(rest, checkVersion).value, ReceiveAll(rest, checkVersion).rest)
  {
    hide Receive, Wire;
    WireNonempty(m);
  }

  /** Both receivers: frames sent back to back arrive as the same list. */
  lemma {:induction false} FramesReceived(ms: seq<Msg>, checkVersion: bool)
    requires forall i :: 0 <= i < |ms| ==> MsgOk(ms[i]) && (checkVersion ==> ms[i].ver == VERSION)
    ensures ReceiveAll(WireAll(ms), checkVersion) == Got(ms, [])
  {
    hide ReceiveAll, Receive, Wire, MsgOk;
    if ms == [] {
      NothingReceived(checkVersion);
    } else {
      SentIsReceived(ms[0], WireAll(ms[1..]), checkVersion);
      FramesReceived(ms[1..], checkVersion);
      OneReceived(ms[0], WireAll(ms[1..]), checkVersion);
      assert ms == [ms[0]] + ms[1..];
    }
  }

  // ---------------------------------------------------------------------
  // Damaged frames

  lemma SameLength(head: seq<Byte>, payload: seq<Byte>, pre: seq<Byte>, x: seq<Byte>, y: seq<Byte>, post: seq<Byte>)
    requires |head| == 20 && head + payload == pre + x + post
    requires |x| == |y| && (|pre| + |x| <= 16 || |pre| >= 20)
    ensures var all := pre + y + post;
            && |all| == 20 + |payload|
            && GetHead(all[..20]).len == GetHead(head).len
  {
    hide UnLE;
    var all := pre + y + post;
    assert forall i :: 16 <= i < 20 ==> all[i] == (pre + x + post)[i] == head[i];
    assert all[..20][16..20] == head[16..20];
  }

  lemma SumDiffers(head: seq<Byte>, payload: seq<Byte>, head': seq<Byte>, payload': seq<Byte>,
                   pre: seq<Byte>, x: seq<Byte>, y: seq<Byte>, post: seq<Byte>)
    requires head + payload == pre + x + post && head' + payload' == pre + y + post
    requires |x| == |y| <= 4 && x != y
    ensures Sum(head, payload) != Sum(head', payload')
  {
    hide Octets, Crc32c.Crc;
    SumWhole(head, payload);
    SumWhole(head', payload');
    OctetsConcat(pre + x, post);
    OctetsConcat(pre, x);
    OctetsConcat(pre + y, post);
    OctetsConcat(pre, y);
    if Octets(x) == Octets(y) {
      OctetsInjective(x, y);
    } else {
      Crc32c.BurstChangesCrc(Crc32c.Zeros(32), Octets(pre), Octets(x), Octets(y), Octets(post));
    }
  }

  /** A change within four consecutive bytes of the checksummed part that leaves the length
      field alone is refused. */
  lemma BurstRefused(m: Msg, pre: seq<Byte>, x: seq<Byte>, y: seq<Byte>, post: seq<Byte>, rest: seq<Byte>)
    requires MsgOk(m) && PutHead(HeadOf(m)) + m.payload == pre + x + post
    requires |x| == |y| <= 4 && x != y && (|pre| + |x| <= 16 || |pre| >= 20)
    ensures var t := Trailer(Sum(PutHead(HeadOf(m)), m.payload));
            Receive(LE(MAGIC, 4) + (pre + y + post) + t + rest, false) == BadCrc
  {
    hide LE, UnLE, Fits, Receive, ReceiveBody, Sum, Trailer, PutHead, GetHead;
    var head := PutHead(HeadOf(m));
    var all := pre + y + post;
    var head', payload' := all[..20], all[20..];
    var t := Trailer(Sum(head, m.payload));
    SameLength(head, m.payload, pre, x, y, post);
    PayloadFits(|m.payload|);
    HeadBack(HeadOf(m));
    assert LE(MAGIC, 4) + all + t + rest == LE(MAGIC, 4) + head' + payload' + t + rest;
    ReceiveParts(head', payload', t, rest, false);
    BodyBack(GetHead(head'), head', payload', t, rest);
    SumDiffers(head, m.payload, head', payload', pre, x, y, post);
    if t == Trailer(Sum(head', payload')) {
      TrailerInjective(Sum(head, m.payload), Sum(head', payload'));
    }
  }

  /** A changed checksum, or a changed magic, is refused. */
  lemma EndsRefused(m: Msg, magic: seq<Byte>, t: seq<Byte>, rest: seq<Byte>)
    requires MsgOk(m) && |magic| == |t| == 4
    ensures var head := PutHead(HeadOf(m));
            && (magic != LE(MAGIC, 4) ==> Receive(magic + head + m.payload + t + rest, false) == BadMagic)
            && (t != Trailer(Sum(head, m.payload)) ==>
                  Receive(LE(MAGIC, 4) + head + m.payload + t + rest, false) == BadCrc)
  {
    hide LE, UnLE, Fits, ReceiveBody, Sum, Trailer, PutHead, GetHead;
    var head := PutHead(HeadOf(m));
    var body := m.payload + t + rest;
    assert magic + head + m.payload + t + rest == magic + head + body;
    Parts(magic, head, body);
    LEInverts(magic);
    PayloadFits(|m.payload|);
    HeadBack(HeadOf(m));
    ReceiveParts(head, m.payload, t, rest, false);
    BodyBack(HeadOf(m), head, m.payload, t, rest);
  }

  // ---------------------------------------------------------------------
  // A connection

  /** Skipping an empty piece is checksumming it. */
  lemma EmptyPiece(crc: Crc32c.Word, buf: seq<Crc32c.Octet>)
    ensures Crc32c.Crc(Crc32c.Crc(crc, buf), []) == Crc32c.Crc(crc, buf)
    ensures Octets([]) == []
  {
    Crc32c.CrcConcat(crc, buf, []);
    assert buf + [] == buf;
  }

  /** The checksum of a header and a payload; an empty payload is skipped. */
  method Summed(head: seq<Byte>, payload: seq<Byte>) returns (sum: Crc32c.Word)
    ensures sum == Sum(head, payload)
  {
    hide Crc32c.Crc, Octets;
    sum := Crc32c.Checksum(Crc32c.Zeros(32), Octets(head));
    if |payload| > 0 {
      sum := Crc32c.Checksum(sum, Octets(payload));
    } else {
      EmptyPiece(Crc32c.Zeros(32), Octets(head));
    }
  }

  method Build(typ: Byte, flags: nat, reqId: nat, payload: seq<Byte>) returns (frame: seq<Byte>)
    ensures frame == Wire(Msg(VERSION, typ, flags, 0, reqId, payload))
  {
    hide LE, PutHead, Sum, Trailer;
    var head := PutHead(Head(VERSION, typ, flags, 0, reqId, |payload|));
    var sum := Summed(head, payload);
    frame := LE(MAGIC, 4) + head;
    frame := frame + payload;
    frame := frame + Trailer(sum);
  }

  /** The Go connection: bytes still to be read, bytes written, and the request counter. */
  class Conn {
    var inbox: seq<Byte>
    var outbox: seq<Byte>
    var nextReq: nat

    constructor (inbox: seq<Byte>)
      ensures this.inbox == inbox && outbox == [] && nextReq == 1
    {
      this.inbox, outbox, nextReq := inbox, [], 1;
    }

    /** Request id 0 asks for the next free one; a payload over the limit is not sent. */
    method Send(typ: Byte, flags: nat, reqId: nat, payload: seq<Byte>) returns (used: nat, ok: bool)
      modifies this
      ensures inbox == old(inbox) && ok == (|payload| <= MAX_PAYLOAD)
      ensures !ok ==> outbox == old(outbox) && nextReq == old(nextReq)
      ensures ok ==> used == if reqId == 0 then old(nextReq) else reqId
      ensures ok ==> nextReq == if reqId == 0 then old(nextReq) + 1 else old(nextReq)
      ensures ok ==> outbox == old(outbox) + Wire(Msg(VERSION, typ, flags, 0, used, payload))
    {
      hide Wire;
      if |payload| > MAX_PAYLOAD {
        return 0, false;
      }
      used := reqId;
      if reqId == 0 {
        used := nextReq;
        nextReq := nextReq + 1;
      }
      var frame := Build(typ, flags, used, payload);
      outbox := outbox + frame;
      ok := true;
    }

    method RecvBody(h: Head, head: seq<Byte>) returns (r: Received)
      modifies this
      ensures outbox == old(outbox) && nextReq == old(nextReq)
      ensures r == ReceiveBody(h, head, old(inbox)) && (r.Ok? ==> inbox == r.rest)
    {
      hide Sum, Trailer;
      if |inbox| < h.len {
        inbox := [];
        return Short;
      }
      var payload := inbox[..h.len];
      inbox := inbox[h.len..];
      if |inbox| < 4 {
        inbox := [];
        return Short;
      }
      var want := inbox[..4];
      inbox := inbox[4..];
      var sum := Summed(head, payload);
      assert want == old(inbox)[h.len..h.len + 4] && inbox == old(inbox)[h.len + 4..];
      if want != Trailer(sum) {
        return BadCrc;
      }
      r := Ok(Msg(h.ver, h.typ, h.flags, h.reserved, h.reqId, payload), inbox);
    }

    /** One frame off the front, or an error that leaves the stream where reading stopped. */
    method Recv() returns (r: Received)
      modifies this
      ensures outbox == old(outbox) && nextReq == old(nextReq)
      ensures r == Receive(old(inbox), true)
      ensures r.Ok? ==> inbox == r.rest && old(inbox) == Wire(r.msg) + r.rest
    {
      ghost var s := inbox;
      var hdr := inbox[..if |inbox| < 24 then |inbox| else 24];
      inbox := inbox[|hdr|..];
      if |hdr| < 24 {
        return Short;
      }
      if UnLE(hdr[..4]) != MAGIC {
        assert s[..4] == hdr[..4];
        return BadMagic;
      }
      assert s[..4] == hdr[..4] && s[4..24] == hdr[4..24] && s[24..] == inbox;
      if hdr[4] != VERSION {
        return BadVersion;
      }
      var h := GetHead(hdr[4..24]);
      if h.len > MAX_PAYLOAD {
        return TooLarge;
      }
      r := RecvBody(h, hdr[4..24]);
      if r.Ok? {
        ReceivedWasSent(s, r.msg, r.rest, true);
      }
    }
  }

  // ---------------------------------------------------------------------
  // The C connection, written on its own

  /** What `frame_recv` returns: 0, or -1 for a short read or an oversized payload, -2 for a wrong
      checksum, -3 for a wrong magic. */
  function Code(r: Received): int {
    match r
    case Ok(_, _) => 0
    case BadMagic => -3
    case BadCrc => -2
    case _ => -1
  }

  lemma FieldAt(hdr: seq<Byte>, i: nat, j: nat)
    requires |hdr| == 24 && i <= j <= 20
    ensures hdr[4..24][i..j] == hdr[i + 4..j + 4]
  {
    var a, b := hdr[4..24][i..j], hdr[i + 4..j + 4];
    assert |a| == |b| && forall k :: 0 <= k < |a| ==> a[k] == b[k];
  }

  /** The header fields at their offsets within the 24 bytes that start a frame. */
  lemma FieldsAt(hdr: seq<Byte>)
    requires |hdr| == 24
    ensures GetHead(hdr[4..24])
         == Head(hdr[4], hdr[5], UnLE(hdr[6..8]), UnLE(hdr[8..12]), UnLE(hdr[12..20]), UnLE(hdr[20..24]))
  {
    hide UnLE;
    FieldAt(hdr, 2, 4);
    FieldAt(hdr, 4, 8);
    FieldAt(hdr, 8, 16);
    FieldAt(hdr, 16, 20);
  }

  class Link {
    var inbox: seq<Byte>
    var outbox: seq<Byte>

    constructor (inbox: seq<Byte>)
      ensures this.inbox == inbox && outbox == []
    {
      this.inbox, outbox := inbox, [];
    }

    /** Exactly `n` bytes, or a failure that has used up the stream. */
    method ReadAll(n: nat) returns (buf: seq<Byte>, ok: bool)
      modifies this`inbox
      ensures ok == (n <= |old(inbox)|)
      ensures ok ==> buf == old(inbox)[..n] && inbox == old(inbox)[n..]
    {
      buf := [];
      while |buf| < n && inbox != []
        invariant |buf| <= n && buf + inbox == old(inbox)
        decreases |inbox|
      {
        buf, inbox := buf + [inbox[0]], inbox[1..];
      }
      ok := |buf| == n;
    }

    /** Header, payload and trailer in three writes, whatever the payload's size. */
    method FrameSend(typ: Byte, flags: nat, reqId: nat, payload: seq<Byte>)
      modifies this`outbox
      ensures outbox == old(outbox) + Wire(Msg(VERSION, typ, flags, 0, reqId, payload))
    {
      hide LE, PutHead, Sum, Trailer;
      var head := PutHead(Head(VERSION, typ, flags, 0, reqId, |payload|));
      var sum := Summed(head, payload);
      outbox := outbox + (LE(MAGIC, 4) + head);
      if |payload| > 0 {
        outbox := outbox + payload;
      }
      outbox := outbox + Trailer(sum);
    }

    method ParseBody(hdr: seq<Byte>, start: Msg, plen: nat) returns (rc: int, msg: Msg)
      requires |hdr| == 24 && start.payload == []
      modifies this`inbox
      ensures var h := Head(start.ver, start.typ, start.flags, start.reserved, start.reqId, plen);
              var r := ReceiveBody(h, hdr[4..24], old(inbox));
              rc == Code(r) && (rc == 0 ==> r == Ok(msg, inbox))
    {
      hide Sum, Trailer, UnLE;
      msg := start;
      var payload, ok := [], true;
      if plen > 0 {
        payload, ok := ReadAll(plen);
        if !ok {
          return -1, msg;
        }
      }
      assert payload == old(inbox)[..plen] && inbox == old(inbox)[plen..];
      var trail, full := ReadAll(4);
      if !full {
        return -1, msg;
      }
      assert trail == old(inbox)[plen..plen + 4] && inbox == old(inbox)[plen + 4..];
      var sum := Summed(hdr[4..24], payload);
      SumsDiffer(trail, Trailer(sum));
      if UnLE(trail) != UnLE(Trailer(sum)) {
        return -2, msg;
      }
      msg := msg.(payload := payload);
      rc := 0;
    }

    method ParseFrame() returns (rc: int, msg: Msg)
      modifies this`inbox
      ensures rc == Code(Receive(old(inbox), false))
      ensures rc == 0 ==> Receive(old(inbox), false) == Ok(msg, inbox)
    {
      hide UnLE, ReceiveBody, GetHead;
      msg := Msg(0, 0, 0, 0, 0, []);
      var hdr, ok := ReadAll(24);
      if !ok {
        return -1, msg;
      }
      assert old(inbox)[..4] == hdr[0..4] && old(inbox)[4..24] == hdr[4..24];
      if UnLE(hdr[0..4]) != MAGIC {
        return -3, msg;
      }
      FieldsAt(hdr);
      msg := Msg(hdr[4], hdr[5], UnLE(hdr[6..8]), UnLE(hdr[8..12]), UnLE(hdr[12..20]), []);
      var plen := UnLE(hdr[20..24]);
      if plen > MAX_PAYLOAD {
        return -1, msg;
      }
      rc, msg := ParseBody(hdr, msg, plen);
    }

    /** Receive one frame: no look at the version, and no read for an empty payload. */
    method FrameRecv() returns (rc: int, msg: Msg)
      modifies this`inbox
      ensures rc == Code(Receive(old(inbox), false))
      ensures rc == 0 ==> Receive(old(inbox), false) == Ok(msg, inbox)
      ensures rc == 0 <==> exists m, rest :: old(inbox) == Wire(m) + rest && MsgOk(m)
      ensures rc == -3 <==> |old(inbox)| >= 24 && !RightMagic(old(inbox))
      ensures rc == -2 <==> var s := old(inbox); RightHead(s, false) && |s| >= 28 + Claimed(s) && !RightSum(s)
      ensures -3 <= rc <= 0
    {
      ghost var s := inbox;
      ReceiveErrors(s, false);
      rc, msg := ParseFrame();
      if rc == 0 {
        ReceiveExactly(s, msg, inbox, false);
      } else {
        forall m, rest ensures !(s == Wire(m) + rest && MsgOk(m)) {
          ReceiveExactly(s, m, rest, false);
        }
      }
    }
  }
}
