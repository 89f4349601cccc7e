/**
 * The eD2k packet pieces of hncore/ed2k/packets.cpp that carry structure:
 * part maps (one flag per part, eight to a byte, lowest bit first, after a
 * u16 count), the ReqChunks request (three begins, then three exclusive ends,
 * zero for an unused slot), the DataChunk header checks and the makePacket
 * frame (protocol byte, u32 length, payload).
 */
module Packets {
  import opened Wrappers
  import opened Streams
  import opened Ranges

  const PR_ED2K: byte := 0xe3
  const PR_EMULE: byte := 0xc5
  const PR_ZLIB: byte := 0xd4
  const OP_SENDINGCHUNK: byte := 0x46
  const OP_REQCHUNKS: byte := 0x47

  /** The size of every hash these packets carry. */
  const HASH_SIZE := 16

  // ---------------------------------------------------------------- bits

  function Pow2(n: nat): (r: nat)
    ensures r >= 1
  {
    if n == 0 then 1 else 2 * Pow2(n - 1)
  }

  lemma {:induction false} Pow2Mono(m: nat, n: nat)
    requires m <= n
    ensures Pow2(m) <= Pow2(n)
  {
    if m < n {
      Pow2Mono(m, n - 1);
    }
  }

  lemma Pow2Seven(n: nat)
    requires n <= 7
    ensures Pow2(n) <= 128
  {
    Pow2Mono(n, 7);
    assert Pow2(7) == 128;
  }

  function BitOf(b: bool): nat { if b then 1 else 0 }

  /** Bit i of b, as std::bitset<8>::operator[] reads it. */
  function TestBit(b: nat, i: nat): bool {
    if i == 0 then b % 2 == 1 else TestBit(b / 2, i - 1)
  }

  /** Up to eight flags packed into a byte, the first one in the lowest bit. */
  function PackByte(bits: seq<bool>): (r: byte)
    requires |bits| <= 8
    ensures r < Pow2(|bits|)
  {
    if bits == [] then 0
    else
      Pow2Seven(|bits| - 1);
      BitOf(bits[0]) + 2 * PackByte(bits[1..])
  }

  /** The first n bits of b, lowest first. */
  function UnpackByte(b: nat, n: nat): (r: seq<bool>)
    ensures |r| == n
  {
    seq(n, k requires 0 <= k < n => TestBit(b, k))
  }

  lemma {:induction false} PackByteBits(bits: seq<bool>, i: nat)
    requires |bits| <= 8 && i < |bits|
    ensures TestBit(PackByte(bits), i) == bits[i]
  {
    if i > 0 {
      PackByteBits(bits[1..], i - 1);
    }
  }

  /** Bits above the packed ones are zero. */
  lemma {:induction false} PackByteHigh(bits: seq<bool>, i: nat)
    requires |bits| <= 8 && |bits| <= i
    ensures !TestBit(PackByte(bits), i)
  {
    if bits == [] {
      ZeroBits(i);
    } else {
      PackByteHigh(bits[1..], i - 1);
    }
  }

  lemma {:induction false} ZeroBits(i: nat)
    ensures !TestBit(0, i)
  {
    if i > 0 {
      ZeroBits(i - 1);
    }
  }

  lemma UnpackPack(bits: seq<bool>)
    requires |bits| <= 8
    ensures UnpackByte(PackByte(bits), |bits|) == bits
  {
    forall k | 0 <= k < |bits| ensures UnpackByte(PackByte(bits), |bits|)[k] == bits[k] {
      PackByteBits(bits, k);
    }
  }

  /** Adding the next flag at bit j is what `tmp |= flag << j` does to a byte built from j flags. */
  lemma {:induction false} PackByteSnoc(bits: seq<bool>, b: bool)
    requires |bits| < 8
    ensures PackByte(bits + [b]) == PackByte(bits) + BitOf(b) * Pow2(|bits|)
  {
    if bits != [] {
      assert (bits + [b])[1..] == bits[1..] + [b];
      PackByteSnoc(bits[1..], b);
    } else {
      assert PackByte([b]) == BitOf(b) + 2 * PackByte([]);
    }
  }

  // ---------------------------------------------------------------- part maps

  function Min8(n: nat): (m: nat)
    ensures m <= 8 && m <= n && (m == 8 || m == n)
  {
    if n >= 8 then 8 else n
  }

  /** The bytes writePartMap should write after the count: one per eight flags, the last one zero-padded. */
  function PartMapBody(bits: seq<bool>): (r: bytes)
    decreases |bits|
  {
    if bits == [] then []
    else
      var n := Min8(|bits|);
      [PackByte(bits[..n])] + PartMapBody(bits[n..])
  }

  function PartMapBytes(bits: seq<bool>): (r: bytes)
    ensures |r| >= 2
  {
    PutLE(|bits|, 2) + PartMapBody(bits)
  }

  /** The byte count of a part map: the number of flags divided by eight, rounded up. */
  lemma {:induction false} PartMapBodyLength(bits: seq<bool>)
    ensures |PartMapBody(bits)| == (|bits| + 7) / 8
    decreases |bits|
  {
    if bits != [] {
      PartMapBodyLength(bits[Min8(|bits|)..]);
    }
  }

  /**
   * The layout of a part map: bit i of body byte k is flag 8k+i, and the bits past
   * the last flag are zero.
   */
  lemma {:induction false} PartMapLayout(bits: seq<bool>, k: nat, i: nat)
    requires k < |PartMapBody(bits)| && i < 8
    ensures TestBit(PartMapBody(bits)[k], i) == (8 * k + i < |bits| && bits[8 * k + i])
    decreases |bits|
  {
    var n := Min8(|bits|);
    var rest := PartMapBody(bits[n..]);
    assert PartMapBody(bits) == [PackByte(bits[..n])] + rest;
    if k == 0 {
      if i < n {
        PackByteBits(bits[..n], i);
      } else {
        PackByteHigh(bits[..n], i);
      }
    } else {
      assert n == 8 && PartMapBody(bits)[k] == rest[k - 1];
      PartMapLayout(bits[n..], k - 1, i);
      if 8 * k + i < |bits| {
        assert bits[n..][8 * (k - 1) + i] == bits[8 * k + i];
      }
    }
  }

  /** One byte through putVal<uint8_t>. */
  lemma PutByte(x: byte)
    ensures Encode(Wrap(x, 1), 1, false) == [x]
  {
    assert Pow256(1) == 256;
    assert LE(x, 1) == [x];
  }

  /** writePartMap(o, partMap), with the last byte written once. */
  method WritePartMap(o: OutStream, partMap: seq<bool>)
    requires !o.bigEndian
    modifies o
    ensures o.bytes == old(o.bytes) + PartMapBytes(partMap)
  {
    o.PutVal(|partMap|, 2);
    ConcatAssoc(old(o.bytes), PutLE(|partMap|, 2), PartMapBody(partMap));
    var i := 0;
    assert partMap[0..] == partMap;
    while i < |partMap|
      invariant 0 <= i <= |partMap| && !o.bigEndian
      invariant o.bytes + PartMapBody(partMap[i..]) == old(o.bytes) + PartMapBytes(partMap)
      decreases |partMap| - i
    {
      var tmp, j := PackGroup(partMap, i);
      WriteGroupStep(o.bytes, partMap, i, j);
      PutByte(tmp);
      o.PutVal(tmp, 1);
      i := i + j;
    }
    assert o.bytes + [] == o.bytes;
  }

  /** The inner loop of writePartMap: up to eight flags from index i into one byte. */
  method PackGroup(partMap: seq<bool>, i: nat) returns (tmp: byte, j: nat)
    requires i < |partMap|
    ensures j == Min8(|partMap| - i) && tmp == PackByte(partMap[i..i + j])
  {
    tmp, j := 0, 0;
    while j < 8 && i + j < |partMap|
      invariant 0 <= j <= 8 && i + j <= |partMap|
      invariant tmp == PackByte(partMap[i..i + j])
    {
      assert partMap[i..i + j + 1] == partMap[i..i + j] + [partMap[i + j]];
      PackByteSnoc(partMap[i..i + j], partMap[i + j]);
      tmp := tmp + BitOf(partMap[i + j]) * Pow2(j);
      j := j + 1;
    }
  }

  lemma WriteGroupStep(done: bytes, partMap: seq<bool>, i: nat, j: nat)
    requires i < |partMap| && j <= 8 && i + j <= |partMap| && (j == 8 || i + j == |partMap|)
    ensures (done + [PackByte(partMap[i..i + j])]) + PartMapBody(partMap[i + j..]) == done + PartMapBody(partMap[i..])
  {
    var rest := partMap[i..];
    GroupOfBody(rest, j);
    assert rest[..j] == partMap[i..i + j] && rest[j..] == partMap[i + j..];
    ConcatAssoc(done, [PackByte(partMap[i..i + j])], PartMapBody(partMap[i + j..]));
  }

  lemma GroupOfBody(rest: seq<bool>, j: nat)
    requires rest != [] && j == Min8(|rest|)
    ensures PartMapBody(rest) == [PackByte(rest[..j])] + PartMapBody(rest[j..])
  {
  }

  /** The flag groups readPartMap reads for a count of cnt: min(cnt, 8) bits from each byte. */
  function ReadGroups(s: bytes, cnt: nat): (r: Result<(seq<bool>, bytes)>)
    ensures r.Ok? ==> |r.value.0| == cnt
    decreases cnt
  {
    if cnt == 0 then Ok(([], s))
    else if s == [] then Err(READ_ERROR)
    else match ReadGroups(s[1..], cnt - Min8(cnt))
      case Err(e) => Err(e)
      case Ok((bits, rest)) => Ok((UnpackByte(s[0], Min8(cnt)) + bits, rest))
  }

  /** readPartMap: a u16 count, then exactly that many flags. */
  function ParsePartMap(s: bytes): (r: Result<(seq<bool>, bytes)>)
    ensures r.Ok? ==> 2 <= |s| && |r.value.0| == FromLE(s[..2])
  {
    match ReadUint(s, 2, false)
    case Err(e) => Err(e)
    case Ok((cnt, rest)) => ReadGroups(rest, cnt)
  }

  /** A byte in front of what the later groups are read from is the next group of flags. */
  lemma ReadGroupsCons(p: byte, t: bytes, cnt: nat, bits: seq<bool>, rest: bytes)
    requires cnt > 0 && ReadGroups(t, cnt - Min8(cnt)) == Ok((bits, rest))
    ensures ReadGroups([p] + t, cnt) == Ok((UnpackByte(p, Min8(cnt)) + bits, rest))
  {
    assert ([p] + t)[1..] == t;
  }

  /** The step of ReadGroupsOfBody: the first byte gives back the first group, given the groups after it. */
  lemma BodyGroupStep(bits: seq<bool>, tail: bytes)
    requires bits != []
    requires ReadGroups(PartMapBody(bits[Min8(|bits|)..]) + tail, |bits[Min8(|bits|)..]|) == Ok((bits[Min8(|bits|)..], tail))
    ensures ReadGroups(PartMapBody(bits) + tail, |bits|) == Ok((bits, tail))
  {
    var n := Min8(|bits|);
    var p := PackByte(bits[..n]);
    var body := PartMapBody(bits[n..]);
    GroupOfBody(bits, n);
    ConcatAssoc([p], body, tail);
    ReadGroupsCons(p, body + tail, |bits|, bits[n..], tail);
    UnpackJoin(bits, n);
  }

  /** Unpacking the first group's byte and appending the rest gives back the flags. */
  lemma UnpackJoin(bits: seq<bool>, n: nat)
    requires n <= |bits| && n <= 8
    ensures UnpackByte(PackByte(bits[..n]), n) + bits[n..] == bits
  {
    UnpackPack(bits[..n]);
    assert bits[..n] + bits[n..] == bits;
  }

  lemma {:induction false} ReadGroupsOfBody(bits: seq<bool>, tail: bytes)
    ensures ReadGroups(PartMapBody(bits) + tail, |bits|) == Ok((bits, tail))
    decreases |bits|
  {
    if bits != [] {
      ReadGroupsOfBody(bits[Min8(|bits|)..], tail);
      BodyGroupStep(bits, tail);
    } else {
      assert PartMapBody(bits) + tail == tail;
    }
  }

  /** readPartMap reads back what writePartMap writes, leaving what follows unread. */
  lemma PartMapRoundTrip(bits: seq<bool>, tail: bytes)
    requires |bits| < 0x1_0000
    ensures ParsePartMap(PartMapBytes(bits) + tail) == Ok((bits, tail))
  {
    assert Pow256(2) == 0x1_0000;
    ReadPutLE(|bits|, 2, PartMapBody(bits) + tail);
    ConcatAssoc(PutLE(|bits|, 2), PartMapBody(bits), tail);
    ReadGroupsOfBody(bits, tail);
  }

  /** The flags already read, put in front of the rest of the read. */
  function Prefixed(bits: seq<bool>, r: Result<(seq<bool>, bytes)>): Result<(seq<bool>, bytes)> {
    match r
    case Err(e) => Err(e)
    case Ok((more, rest)) => Ok((bits + more, rest))
  }

  /** readPartMap(i, partMap), for an empty partMap. */
  method ReadPartMap(i: InStream) returns (r: Result<seq<bool>>)
    requires !i.bigEndian
    modifies i
    ensures ParsePartMap(old(i.rest)).Ok? ==>
      r == Ok(ParsePartMap(old(i.rest)).value.0) && i.rest == ParsePartMap(old(i.rest)).value.1
    ensures ParsePartMap(old(i.rest)).Err? ==> r.Err? && i.rest == []
  {
    ghost var whole := i.rest;
    var count := i.GetVal(2);
    if count.Err? {
      return Err(count.msg);
    }
    var cnt := count.value;
    var partMap := [];
    PrefixedEmpty(ReadGroups(i.rest, cnt));
    while cnt > 0
      invariant !i.bigEndian
      invariant ParsePartMap(whole) == Prefixed(partMap, ReadGroups(i.rest, cnt))
    {
      ghost var before := i.rest;
      var b := i.GetVal(1);
      if b.Err? {
        return Err(b.msg);
      }
      var tmp := b.value;
      var n := Min8(cnt);
      ghost var start := partMap;
      var k := 0;
      while k < n
        invariant 0 <= k <= n
        invariant partMap == start + UnpackByte(tmp, k)
      {
        assert UnpackByte(tmp, k + 1) == UnpackByte(tmp, k) + [TestBit(tmp, k)];
        partMap := partMap + [TestBit(tmp, k)];
        k := k + 1;
      }
      ReadGroupStep(before, cnt, start, whole);
      assert before[..1] == [tmp] && FromLE([tmp]) == tmp;
      cnt := cnt - n;
    }
    assert partMap + [] == partMap;
    r := Ok(partMap);
  }

  lemma PrefixedEmpty(r: Result<(seq<bool>, bytes)>)
    ensures Prefixed([], r) == r
  {
    match r
    case Err(e) =>
    case Ok((more, rest)) => assert [] + more == more;
  }

  lemma ReadGroupStep(s: bytes, cnt: nat, bits: seq<bool>, whole: bytes)
    requires cnt > 0 && s != []
    requires ParsePartMap(whole) == Prefixed(bits, ReadGroups(s, cnt))
    ensures ParsePartMap(whole) ==
      Prefixed(bits + UnpackByte(s[0], Min8(cnt)), ReadGroups(s[1..], cnt - Min8(cnt)))
  {
    match ReadGroups(s[1..], cnt - Min8(cnt))
    case Err(e) =>
    case Ok((more, rest)) =>
      ConcatAssoc(bits, UnpackByte(s[0], Min8(cnt)), more);
  }

  // ---------------------------------------------------------------- writePartMap as written

  /**
   * The body writePartMap writes as written: when the last group has fewer than
   * eight flags, the inner loop writes the byte before `break` and the outer loop
   * writes it again.
   */
  function PartMapBodyAsWritten(bits: seq<bool>): (r: bytes)
    decreases |bits|
  {
    if bits == [] then []
    else if |bits| >= 8 then [PackByte(bits[..8]) as byte] + PartMapBodyAsWritten(bits[8..])
    else [PackByte(bits) as byte, PackByte(bits) as byte]
  }

  function PartMapAsWritten(bits: seq<bool>): bytes {
    PutLE(|bits|, 2) + PartMapBodyAsWritten(bits)
  }

  lemma {:induction false} BodyAsWrittenExtra(bits: seq<bool>)
    requires |bits| % 8 != 0
    ensures PartMapBody(bits) != []
    ensures PartMapBodyAsWritten(bits) == PartMapBody(bits) + [PartMapBody(bits)[|PartMapBody(bits)| - 1]]
    decreases |bits|
  {
    if |bits| >= 8 {
      assert |bits[8..]| % 8 == |bits| % 8;
      BodyAsWrittenExtra(bits[8..]);
      var b := [PackByte(bits[..8]) as byte];
      var body := PartMapBody(bits[8..]);
      assert PartMapBody(bits) == b + body;
      ConcatAssoc(b, body, [body[|body| - 1]]);
    } else {
      assert bits[..|bits|] == bits && bits[|bits|..] == [];
      assert PartMapBody(bits) == [PackByte(bits)];
    }
  }

  /**
   * When the flag count is not a multiple of eight, the reader takes the flags back
   * but leaves a copy of the last byte in front of whatever follows.
   */
  lemma PartMapAsWrittenLeavesByte(bits: seq<bool>, tail: bytes)
    requires |bits| < 0x1_0000 && |bits| % 8 != 0
    ensures PartMapBody(bits) != []
    ensures ParsePartMap(PartMapAsWritten(bits) + tail) ==
      Ok((bits, [PartMapBody(bits)[|PartMapBody(bits)| - 1]] + tail))
  {
    BodyAsWrittenExtra(bits);
    var body := PartMapBody(bits);
    var last := [body[|body| - 1]];
    ConcatAssoc(PutLE(|bits|, 2), body, last);
    ConcatAssoc(PutLE(|bits|, 2) + body, last, tail);
    PartMapRoundTrip(bits, last + tail);
  }

  /**
   * In ReqFile the source count follows the part map: for one flag and a count of
   * 5, the reader takes the duplicated byte as the low byte of the count.
   */
  lemma PartMapAsWrittenShiftsNextField()
    ensures ParsePartMap(PartMapAsWritten([true]) + PutLE(5, 2)).Ok?
    ensures ReadUint(ParsePartMap(PartMapAsWritten([true]) + PutLE(5, 2)).value.1, 2, false) ==
      Ok((1 + 5 * 256, [0]))
    ensures ParsePartMap(PartMapBytes([true]) + PutLE(5, 2)).Ok?
    ensures ReadUint(ParsePartMap(PartMapBytes([true]) + PutLE(5, 2)).value.1, 2, false) == Ok((5, []))
  {
    PartMapAsWrittenLeavesByte([true], PutLE(5, 2));
    PartMapRoundTrip([true], PutLE(5, 2));
    assert PartMapBody([true]) == [1];
    assert PutLE(5, 2) == [5, 0];
    ReadPutLE(5, 2, []);
    var s: bytes := [1, 5, 0];
    assert [1] + PutLE(5, 2) == s;
    assert s[..2] == [1, 5];
    assert FromLE([1, 5]) == 1 + 5 * 256;
    assert s[2..] == [0];
  }

  // ---------------------------------------------------------------- makePacket

  /** makePacket for an uncompressed packet: protocol byte, u32 payload length, payload. */
  function MakePacket(proto: byte, data: bytes): (r: bytes)
    ensures |r| == 5 + |data| && r[0] == proto && r[5..] == data
  {
    [proto] + PutLE(|data|, 4) + data
  }

  /** A reference reader for such a frame: protocol, payload and what follows. */
  function ReadPacket(s: bytes): Result<(byte, bytes, bytes)> {
    if |s| < 5 then Err(READ_ERROR)
    else match ReadFixed(s[5..], FromLE(s[1..5]))
      case Err(e) => Err(e)
      case Ok((data, rest)) => Ok((s[0], data, rest))
  }

  lemma PacketRoundTrip(proto: byte, data: bytes, tail: bytes)
    requires |data| < 0x1_0000_0000
    ensures ReadPacket(MakePacket(proto, data) + tail) == Ok((proto, data, tail))
  {
    var s := MakePacket(proto, data) + tail;
    assert Pow256(4) == 0x1_0000_0000;
    assert s[1..5] == LE(|data|, 4);
    LERoundTrip(|data|, 4);
    assert s[5..] == data + tail;
  }

  // ---------------------------------------------------------------- ReqChunks

  const RANGE_MAX := 0xFFFF_FFFF

  /** putVal<uint32_t> of each value in turn. */
  function PutU32s(vals: seq<int>): (r: bytes)
    ensures |r| == 4 * |vals|
  {
    if vals == [] then [] else PutLE(vals[0], 4) + PutU32s(vals[1..])
  }

  /** getVal<uint32_t> n times. */
  function ReadU32s(s: bytes, n: nat): (r: Result<(seq<nat>, bytes)>)
    ensures r.Ok? ==> |r.value.0| == n
  {
    if n == 0 then Ok(([], s))
    else match ReadUint(s, 4, false)
      case Err(e) => Err(e)
      case Ok((x, rest)) =>
        match ReadU32s(rest, n - 1)
        case Err(e) => Err(e)
        case Ok((xs, rest')) => Ok(([x] + xs, rest'))
  }

  lemma {:induction false} U32sRoundTrip(vals: seq<nat>, tail: bytes)
    requires forall j :: 0 <= j < |vals| ==> vals[j] <= RANGE_MAX
    ensures ReadU32s(PutU32s(vals) + tail, |vals|) == Ok((vals, tail))
  {
    if vals != [] {
      assert Pow256(4) == 0x1_0000_0000;
      ConcatAssoc(PutLE(vals[0], 4), PutU32s(vals[1..]), tail);
      ReadPutLE(vals[0], 4, PutU32s(vals[1..]) + tail);
      U32sRoundTrip(vals[1..], tail);
      assert [vals[0]] + vals[1..] == vals;
    } else {
      assert PutU32s(vals) + tail == tail;
    }
  }

  /** getVal<std::string>(i, len) reads back a string of that length. */
  lemma ReadFixedOf(a: bytes, b: bytes)
    ensures ReadFixed(a + b, |a|) == Ok((a, b))
  {
    assert (a + b)[..|a|] == a && (a + b)[|a|..] == b;
  }

  /** A request for up to three byte ranges of the file with the given hash. */
  datatype ReqChunks = ReqChunks(hash: bytes, chunks: seq<Range>)

  /**
   * The ReqChunks constructor: the hash must be set and there must be one to
   * three ranges. An unset hash is the empty sequence here.
   */
  function NewReqChunks(hash: bytes, parts: seq<Range>): (r: Result<ReqChunks>)
    ensures r.Ok? <==> hash != [] && 1 <= |parts| <= 3
    ensures r.Ok? ==> r.value == ReqChunks(hash, parts)
  {
    if hash == [] then Err(CheckFailed("!m_hash.isEmpty()"))
    else if |parts| == 0 then Err(CheckFailed("reqparts.size()"))
    else if |parts| >= 4 then Err(CheckFailed("reqparts.size() < 4"))
    else Ok(ReqChunks(hash, parts))
  }

  /** A slot's begin on the wire: zero for an unused slot. */
  function BeginAt(chunks: seq<Range>, j: nat): nat {
    if j < |chunks| then chunks[j].begin else 0
  }

  /** A slot's exclusive end on the wire, computed in 32 bits: zero for an unused slot. */
  function EndAt(chunks: seq<Range>, j: nat): nat {
    if j < |chunks| then Wrap(chunks[j].end + 1, 4) else 0
  }

  /** The six u32 fields after the hash: three begins, then three ends plus one. */
  function WireFields(chunks: seq<Range>): seq<int> {
    [BeginAt(chunks, 0), BeginAt(chunks, 1), BeginAt(chunks, 2),
     EndAt(chunks, 0), EndAt(chunks, 1), EndAt(chunks, 2)]
  }

  /** ReqChunks::operator std::string: opcode, hash, then the six fields. */
  function ReqChunksPayload(rc: ReqChunks): (r: Result<bytes>)
    requires |rc.hash| == HASH_SIZE
    ensures r.Ok? <==> rc.chunks != []
    ensures r.Ok? ==> |r.value| == 1 + HASH_SIZE + 24 && r.value[0] == OP_REQCHUNKS
  {
    if rc.chunks == [] then Err(CheckFailed("m_reqChunks.size()"))
    else Ok([OP_REQCHUNKS] + (rc.hash + PutU32s(WireFields(rc.chunks))))
  }

  /** A slot read off the wire: absent when its end is zero, else the inclusive range [begin, end - 1]. */
  function Slot(begin: nat, end: nat): (r: Result<seq<Range>>)
    ensures end == 0 ==> r == Ok([])
    ensures end > 0 && begin <= end - 1 ==> r == Ok([Range(begin, end - 1)])
    ensures end > 0 && begin > end - 1 ==> r.Err?
  {
    if end == 0 then Ok([])
    else match MakeRange(begin, end - 1)
      case Err(e) => Err(e)
      case Ok(x) => Ok([x])
  }

  function Slots(v: seq<nat>): Result<seq<Range>>
    requires |v| == 6
  {
    match (Slot(v[0], v[3]), Slot(v[1], v[4]), Slot(v[2], v[5]))
    case (Ok(x), Ok(y), Ok(z)) => Ok(x + y + z)
    case (Err(e), _, _) => Err(e)
    case (_, Err(e), _) => Err(e)
    case (_, _, Err(e)) => Err(e)
  }

  /** ReqChunks(istream): the hash, three begins and three ends, after the opcode. */
  function ParseReqChunks(s: bytes): (r: Result<ReqChunks>)
    ensures r.Ok? ==> |r.value.hash| == HASH_SIZE && |r.value.chunks| <= 3
  {
    match ReadFixed(s, HASH_SIZE)
    case Err(e) => Err(e)
    case Ok((hash, rest)) =>
      match ReadU32s(rest, 6)
      case Err(e) => Err(e)
      case Ok((v, _)) =>
        match Slots(v)
        case Err(e) => Err(e)
        case Ok(chunks) => Ok(ReqChunks(hash, chunks))
  }

  /** Every range of the request fits the 32-bit wire fields, the exclusive end included. */
  predicate WireRanges(chunks: seq<Range>) {
    forall j :: 0 <= j < |chunks| ==> chunks[j].end < RANGE_MAX
  }

  lemma UsedSlot(chunks: seq<Range>, j: nat)
    requires j < |chunks| && WireRanges(chunks)
    ensures EndAt(chunks, j) == chunks[j].end + 1
    ensures Slot(BeginAt(chunks, j), EndAt(chunks, j)) == Ok([chunks[j]])
  {
    assert Pow256(4) == 0x1_0000_0000;
  }

  /** The request as read back is the request as built, whatever the number of ranges. */
  lemma ReqChunksRoundTrip(rc: ReqChunks)
    requires |rc.hash| == HASH_SIZE && 1 <= |rc.chunks| <= 3 && WireRanges(rc.chunks)
    requires forall j :: 0 <= j < |rc.chunks| ==> rc.chunks[j].begin <= RANGE_MAX
    ensures ReqChunksPayload(rc).Ok?
    ensures ParseReqChunks(ReqChunksPayload(rc).value[1..]) == Ok(rc)
  {
    var c := rc.chunks;
    var f := WireFields(c);
    var v: seq<nat> := [BeginAt(c, 0), BeginAt(c, 1), BeginAt(c, 2), EndAt(c, 0), EndAt(c, 1), EndAt(c, 2)];
    assert Pow256(4) == 0x1_0000_0000;
    assert ReqChunksPayload(rc).value[1..] == rc.hash + PutU32s(f);
    ReadFixedOf(rc.hash, PutU32s(f));
    assert f == v;
    assert PutU32s(v) + [] == PutU32s(v);
    U32sRoundTrip(v, []);
    UsedSlot(c, 0);
    if |c| > 1 { UsedSlot(c, 1); }
    if |c| > 2 { UsedSlot(c, 2); }
    if |c| == 1 {
      assert c == [c[0]] + [] + [];
    } else if |c| == 2 {
      assert c == [c[0]] + [c[1]] + [];
    } else {
      assert c == [c[0]] + [c[1]] + [c[2]];
    }
  }

  /** A range ending at the last 32-bit offset is lost on the wire: its exclusive end wraps to zero. */
  lemma ReqChunksEndWraps(rc: ReqChunks)
    requires |rc.hash| == HASH_SIZE && |rc.chunks| == 1 && rc.chunks[0].end == RANGE_MAX
    ensures ReqChunksPayload(rc).Ok?
    ensures ParseReqChunks(ReqChunksPayload(rc).value[1..]) == Ok(ReqChunks(rc.hash, []))
  {
    var c := rc.chunks;
    assert Pow256(4) == 0x1_0000_0000;
    var f := WireFields(c);
    var v: seq<nat> := [c[0].begin, 0, 0, 0, 0, 0];
    assert ReqChunksPayload(rc).value[1..] == rc.hash + PutU32s(f);
    ReadFixedOf(rc.hash, PutU32s(f));
    assert f == v;
    assert PutU32s(v) + [] == PutU32s(v);
    U32sRoundTrip(v, []);
    assert Slots(v) == Ok([] + [] + []);
  }

  // ---------------------------------------------------------------- DataChunk

  datatype DataChunk = DataChunk(hash: bytes, begin: nat, end: nat, data: bytes)

  /** The DataChunk constructor: a non-empty range whose size is the data's, and a set hash. */
  function NewDataChunk(hash: bytes, begin: nat, end: nat, data: bytes): (r: Result<DataChunk>)
    ensures r.Ok? <==> end > begin && |data| == end - begin && hash != []
    ensures r.Ok? ==> r.value == DataChunk(hash, begin, end, data)
  {
    if end <= begin then Err(CheckFailed("m_end > m_begin"))
    else if |data| != end - begin then Err(CheckFailed("m_data.size() == m_end - m_begin"))
    else if hash == [] then Err(CheckFailed("!hash.isEmpty()"))
    else Ok(DataChunk(hash, begin, end, data))
  }

  /** DataChunk::operator std::string: opcode, hash, begin, end and the data. */
  function DataChunkPayload(dc: DataChunk): bytes
    requires |dc.hash| == HASH_SIZE
  {
    [OP_SENDINGCHUNK] + (dc.hash + (PutU32s([dc.begin, dc.end]) + dc.data))
  }

  /** DataChunk(istream): the data length is end - begin, computed in 32 bits. */
  function ParseDataChunk(s: bytes): (r: Result<DataChunk>)
    ensures r.Ok? ==> |r.value.data| == Wrap(r.value.end as int - r.value.begin, 4)
  {
    match ReadFixed(s, HASH_SIZE)
    case Err(e) => Err(e)
    case Ok((hash, rest)) =>
      match ReadU32s(rest, 2)
      case Err(e) => Err(e)
      case Ok((v, rest')) =>
        match ReadFixed(rest', Wrap(v[1] as int - v[0], 4))
        case Err(e) => Err(e)
        case Ok((data, _)) => Ok(DataChunk(hash, v[0], v[1], data))
  }

  /** A chunk the constructor accepts, with 32-bit offsets, reads back unchanged. */
  lemma DataChunkRoundTrip(dc: DataChunk)
    requires |dc.hash| == HASH_SIZE && NewDataChunk(dc.hash, dc.begin, dc.end, dc.data).Ok?
    requires dc.end <= RANGE_MAX
    ensures ParseDataChunk(DataChunkPayload(dc)[1..]) == Ok(dc)
  {
    assert Pow256(4) == 0x1_0000_0000;
    var v := [dc.begin, dc.end];
    assert DataChunkPayload(dc)[1..] == dc.hash + (PutU32s(v) + dc.data);
    ReadFixedOf(dc.hash, PutU32s(v) + dc.data);
    U32sRoundTrip(v, dc.data);
    assert Wrap(dc.end as int - dc.begin, 4) == |dc.data|;
    ReadFixedOf(dc.data, []);
    assert dc.data + [] == dc.data;
  }

  /** A header with end below begin asks for 2^32 - (begin - end) bytes, which a shorter packet cannot supply. */
  lemma DataChunkReversedFails(hash: bytes, begin: nat, end: nat, data: bytes)
    requires |hash| == HASH_SIZE && end < begin <= RANGE_MAX && |data| < 0x1_0000_0000 - (begin - end)
    ensures ParseDataChunk(hash + (PutU32s([begin, end]) + data)).Err?
  {
    assert Pow256(4) == 0x1_0000_0000;
    ReadFixedOf(hash, PutU32s([begin, end]) + data);
    U32sRoundTrip([begin, end], data);
  }
}
