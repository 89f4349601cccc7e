/**
 * A BitTorrent peer connection in hncore/bt/client.cpp, after the
 * handshake: parseBuffer cuts the input into messages (a big-endian u32
 * length, then that many bytes; length 0 is a keep-alive ping), onBitfield
 * decodes the peer's bitfield, the choke and interest senders keep their
 * flags, and onCancel drops queued requests.
 *
 * Handling a message (parsePacket) is not modelled: every complete message
 * is recorded in `received`, in order. Bytes written to the socket are
 * recorded in `out`.
 */
module BtClient {
  import opened Wrappers
  import opened Streams
  import opened Packets
  import opened BtTorrent

  /** A message as parseBuffer hands it on. */
  datatype Message = Ping | Packet(payload: bytes)

  /** A block request queued by the peer (index, offset, length); equality is field by field. */
  datatype Request = Request(index: nat, offset: nat, length: nat)

  /** The length in the message header at the front of buf. */
  function LenOf(buf: bytes): nat
    requires |buf| >= 4
  {
    FromBE(buf[..4])
  }

  /** The message at the front of buf is complete; a ping needs just its header. */
  predicate MessageReady(buf: bytes) {
    |buf| >= 4 && |buf| >= LenOf(buf) + 4
  }

  /** The message at the front of a complete buffer. */
  function Head(buf: bytes): Message
    requires MessageReady(buf)
  {
    if LenOf(buf) == 0 then Ping else Packet(buf[4..LenOf(buf) + 4])
  }

  /** What parseBuffer does with the buffered bytes: the complete messages in order, and the incomplete tail it keeps. */
  function Messages(buf: bytes): (r: (seq<Message>, bytes))
    decreases |buf|
  {
    if !MessageReady(buf) then ([], buf)
    else
      var next := Messages(buf[LenOf(buf) + 4..]);
      ([Head(buf)] + next.0, next.1)
  }

  /** What is kept is a suffix of the buffer with no complete message at its front. */
  lemma {:induction false} MessagesRest(buf: bytes)
    ensures !MessageReady(Messages(buf).1)
    ensures |Messages(buf).1| <= |buf|
    ensures Messages(buf).1 == buf[|buf| - |Messages(buf).1|..]
    decreases |buf|
  {
    if MessageReady(buf) {
      var k := LenOf(buf) + 4;
      MessagesRest(buf[k..]);
      var rest := Messages(buf[k..]).1;
      assert buf[k..][|buf[k..]| - |rest|..] == buf[|buf| - |rest|..];
    }
  }

  lemma HeadExtends(buf: bytes, more: bytes)
    requires MessageReady(buf)
    ensures MessageReady(buf + more) && LenOf(buf + more) == LenOf(buf)
    ensures Head(buf + more) == Head(buf)
    ensures (buf + more)[LenOf(buf) + 4..] == buf[LenOf(buf) + 4..] + more
  {
    assert (buf + more)[..4] == buf[..4];
    var k := LenOf(buf) + 4;
    assert (buf + more)[4..k] == buf[4..k];
  }

  /** Arrival in two chunks gives the messages of the first, then those of its tail plus the second: the cut does not matter. */
  lemma {:induction false} MessagesSplit(a: bytes, b: bytes)
    ensures Messages(a + b).0 == Messages(a).0 + Messages(Messages(a).1 + b).0
    ensures Messages(a + b).1 == Messages(Messages(a).1 + b).1
    decreases |a|
  {
    if MessageReady(a) {
      var k := LenOf(a) + 4;
      HeadExtends(a, b);
      MessagesSplit(a[k..], b);
      ConcatAssoc([Head(a)], Messages(a[k..]).0, Messages(Messages(a[k..]).1 + b).0);
    } else {
      assert [] + Messages(a + b).0 == Messages(a + b).0;
    }
  }

  // ---------------------------------------------------------------- sending

  /** A message on the wire: u32 length, big-endian, then the payload. */
  function Framed(payload: bytes): (r: bytes)
    requires |payload| < U32
    ensures |r| == |payload| + 4
  {
    BE(|payload|, 4) + payload
  }

  /** The message a payload arrives as: an empty one is a ping. */
  function AsMessage(payload: bytes): Message {
    if payload == [] then Ping else Packet(payload)
  }

  /** A framed payload is read back as that payload, and what follows it is read on its own. */
  lemma FramedParses(payload: bytes, rest: bytes)
    requires |payload| < U32
    ensures Messages(Framed(payload) + rest) == ([AsMessage(payload)] + Messages(rest).0, Messages(rest).1)
  {
    var buf := Framed(payload) + rest;
    assert Pow256(4) == U32;
    assert buf[..4] == BE(|payload|, 4);
    BERoundTrip(|payload|, 4);
    assert buf[4..|payload| + 4] == payload;
    assert buf[|payload| + 4..] == rest;
  }

  /** The bytes of several payloads sent one after the other. */
  function Stream(payloads: seq<bytes>): bytes
    requires forall j :: 0 <= j < |payloads| ==> |payloads[j]| < U32
  {
    if payloads == [] then [] else Framed(payloads[0]) + Stream(payloads[1..])
  }

  function AsMessages(payloads: seq<bytes>): (r: seq<Message>)
    ensures |r| == |payloads|
  {
    if payloads == [] then [] else [AsMessage(payloads[0])] + AsMessages(payloads[1..])
  }

  /** Framed messages sent back to back are read back exactly, and nothing is left over. */
  lemma {:induction false} StreamParses(payloads: seq<bytes>)
    requires forall j :: 0 <= j < |payloads| ==> |payloads[j]| < U32
    ensures Messages(Stream(payloads)) == (AsMessages(payloads), [])
  {
    if payloads != [] {
      StreamParses(payloads[1..]);
      FramedParses(payloads[0], Stream(payloads[1..]));
    } else {
      assert !MessageReady([]);
    }
  }

  /** The one-byte messages of the choke and interest senders: length 1, then the message id. */
  function Control(id: byte): (r: bytes)
    ensures |r| == 5
  {
    [0, 0, 0, 1, id]
  }

  lemma ControlParses(id: byte, rest: bytes)
    ensures Messages(Control(id) + rest) == ([Packet([id])] + Messages(rest).0, Messages(rest).1)
  {
    assert Pow256(4) == U32;
    assert BE(1, 4) == [0, 0, 0, 1];
    assert Control(id) == Framed([id]);
    FramedParses([id], rest);
  }

  // ---------------------------------------------------------------- parse as written

  /**
   * One pass of the parseBuffer loop as written: len + 4 is computed in 32
   * bits, both for the completeness check and for how much is erased
   * (std::string clamps what substr and erase touch). None when the loop
   * stops.
   */
  function ParseStepAsWritten(buf: bytes): Option<(Message, bytes)> {
    if |buf| < 4 then None
    else
      var len := LenOf(buf);
      var total := (len + 4) % U32;
      if len == 0 then Some((Ping, buf[4..]))
      else if |buf| < total then None
      else
        var end := if len + 4 <= |buf| then len + 4 else |buf|;
        var cut := if total <= |buf| then total else |buf|;
        Some((Packet(buf[4..end]), buf[cut..]))
  }

  /** The step as written agrees with the intended reading whenever len + 4 fits in 32 bits. */
  lemma ParseStepAgrees(buf: bytes)
    requires |buf| >= 4 && LenOf(buf) + 4 < U32
    ensures MessageReady(buf) ==> ParseStepAsWritten(buf) == Some((Head(buf), buf[LenOf(buf) + 4..]))
    ensures !MessageReady(buf) ==> ParseStepAsWritten(buf) == None
  {
  }

  /**
   * A header announcing 0xFFFFFFFC bytes makes len + 4 wrap to zero: the
   * one byte b that follows is handed on as a message and nothing is
   * erased, so the next pass sees the same bytes. For ids 4 to 8,
   * parsePacket then reads past that byte and throws, and parseBuffer drops
   * the connection; for every other id the same message is handled again
   * on every pass, without end. The intended reader waits for the payload
   * instead.
   */
  lemma WrappedLengthSpins(b: byte)
    ensures ParseStepAsWritten([0xFF, 0xFF, 0xFF, 0xFC, b]) == Some((Packet([b]), [0xFF, 0xFF, 0xFF, 0xFC, b]))
    ensures Messages([0xFF, 0xFF, 0xFF, 0xFC, b]) == ([], [0xFF, 0xFF, 0xFF, 0xFC, b])
  {
    var buf: bytes := [0xFF, 0xFF, 0xFF, 0xFC, b];
    var h: bytes := [0xFF, 0xFF, 0xFF, 0xFC];
    assert buf[..4] == h;
    var b1: bytes, b2: bytes, b3: bytes := [0xFF], [0xFF, 0xFF], [0xFF, 0xFF, 0xFF];
    assert b1[..0] == [] && b2[..1] == b1 && b3[..2] == b2 && h[..3] == b3;
    assert FromBE(b1) == 0xFF;
    assert FromBE(b2) == 0xFFFF;
    assert FromBE(b3) == 0xFF_FFFF;
    assert FromBE(h) == U32 - 4;
    assert !MessageReady(buf);
    assert (LenOf(buf) + 4) % U32 == 0;
    assert buf[4..5] == [b] && buf[0..] == buf;
  }

  // ---------------------------------------------------------------- bitfield

  /** How many flags onBitfield reads: it stops at the chunk count, which it only checks after each flag. */
  function ReadCount(nbytes: nat, cnt: nat): (n: nat)
    ensures n <= 8 * nbytes
    ensures n == cnt || n == 8 * nbytes
  {
    if 0 < cnt <= 8 * nbytes then cnt else 8 * nbytes
  }

  function CountTrue(flags: seq<bool>): (n: nat)
    ensures n <= |flags|
  {
    if flags == [] then 0 else CountTrue(flags[..|flags| - 1]) + (if flags[|flags| - 1] then 1 else 0)
  }

  /** Every flag is set exactly when the count of set flags is the number of flags. */
  lemma {:induction false} CountTrueAll(flags: seq<bool>)
    ensures CountTrue(flags) == |flags| <==> forall i :: 0 <= i < |flags| ==> flags[i]
    decreases |flags|
  {
    if flags != [] {
      var p := flags[..|flags| - 1];
      CountTrueAll(p);
      assert forall i :: 0 <= i < |p| ==> p[i] == flags[i];
    }
  }

  /** The mask a decoded bitfield stands for: all set means a seed, kept as the empty mask. */
  function Mask(flags: seq<bool>): seq<bool> {
    if CountTrue(flags) == |flags| then [] else flags
  }

  /** The mask is empty exactly when every flag is set: a seed, or no chunks at all. */
  lemma MaskSeed(flags: seq<bool>)
    ensures Mask(flags) == [] <==> forall i :: 0 <= i < |flags| ==> flags[i]
    ensures Mask(flags) != [] ==> Mask(flags) == flags
  {
    CountTrueAll(flags);
  }

  /** The bitfield of a torrent, decoded with its own chunk count, gives back its chunk flags. */
  lemma DecodeOwnBitfield(chunks: seq<bool>)
    requires chunks != []
    ensures ReadCount(|Bitfield(chunks)|, |chunks|) == |chunks|
    ensures Flags(Bitfield(chunks), |chunks|) == chunks
  {
    BitfieldDecodes(chunks);
  }

  /** The first m flags of one byte, top bit first. */
  function ByteFlags(b: byte, m: nat): (r: seq<bool>)
    requires m <= 8
    ensures |r| == m
  {
    seq(m, k requires 0 <= k < m => FlagOf(b, k))
  }

  /** The flags of the bytes before i, then m flags of byte i, are the first 8 * i + m flags. */
  lemma FlagsAppend(bits: bytes, i: nat, m: nat)
    requires i < |bits| && m <= 8
    ensures Flags(bits, 8 * i) + ByteFlags(bits[i], m) == Flags(bits, 8 * i + m)
  {
    forall k | 8 * i <= k < 8 * i + m
      ensures k / 8 == i && k % 8 == k - 8 * i
    {
    }
  }

  lemma CountTrueSnoc(flags: seq<bool>, f: bool)
    ensures CountTrue(flags + [f]) == CountTrue(flags) + (if f then 1 else 0)
  {
    assert (flags + [f])[..|flags + [f]| - 1] == flags;
  }

  /** One more flag of a byte is the next bit down. */
  lemma FlagStep(b: byte, flags: seq<bool>, read: seq<bool>, j: nat)
    requires j < 8 && read == flags + ByteFlags(b, 7 - j)
    ensures flags + ByteFlags(b, 8 - j) == read + [TestBit(b, j)]
    ensures CountTrue(read + [TestBit(b, j)]) == CountTrue(read) + (if TestBit(b, j) then 1 else 0)
  {
    var l, r := ByteFlags(b, 8 - j), ByteFlags(b, 7 - j) + [TestBit(b, j)];
    assert forall k :: 0 <= k < 8 - j ==> l[k] == r[k];
    CountTrueSnoc(read, TestBit(b, j));
  }

  /**
   * The inner loop of onBitfield over byte i: flags are appended from the
   * top bit down until the byte is done or the chunk count is reached.
   */
  method ReadFlags(b: byte, cnt: nat, flags: seq<bool>, trueBits: nat) returns (flags': seq<bool>, trueBits': nat, done: bool)
    requires trueBits == CountTrue(flags)
    requires cnt == 0 || |flags| < cnt
    ensures done <==> 0 < cnt <= |flags| + 8
    ensures flags' == flags + ByteFlags(b, if done then cnt - |flags| else 8)
    ensures trueBits' == CountTrue(flags')
  {
    flags', trueBits' := flags, trueBits;
    var j: int := 7;
    while j >= 0
      invariant -1 <= j <= 7
      invariant flags' == flags + ByteFlags(b, 7 - j) && trueBits' == CountTrue(flags')
      invariant cnt == 0 || |flags'| < cnt
    {
      var f := TestBit(b, j);
      FlagStep(b, flags, flags', j);
      flags' := flags' + [f];
      trueBits' := trueBits' + (if f then 1 else 0);
      if |flags'| == cnt {
        done := true;
        return;
      }
      j := j - 1;
    }
    done := false;
  }

  /**
   * The loops of onBitfield: the flags of each byte in turn, top bit first,
   * stopping once the chunk count is reached, with the count of set flags.
   */
  method DecodeBitfield(bits: bytes, cnt: nat) returns (flags: seq<bool>, trueBits: nat)
    ensures flags == Flags(bits, ReadCount(|bits|, cnt))
    ensures trueBits == CountTrue(flags)
  {
    flags, trueBits := [], 0;
    var i := 0;
    while i < |bits|
      invariant 0 <= i <= |bits|
      invariant flags == Flags(bits, 8 * i) && trueBits == CountTrue(flags)
      invariant cnt == 0 || 8 * i < cnt
    {
      var done;
      ghost var before := flags;
      flags, trueBits, done := ReadFlags(bits[i], cnt, flags, trueBits);
      FlagsAppend(bits, i, |flags| - |before|);
      if done {
        assert ReadCount(|bits|, cnt) == cnt == |flags|;
        return;
      }
      i := i + 1;
    }
  }

  // ------------------------------------------------------ requests and pieces

  /** putVal<uint32_t> on a big-endian stream: the value truncated to 32 bits, high byte first. */
  function U32Of(x: nat): (r: bytes)
    ensures |r| == 4
  {
    BE(Wrap(x, 4), 4)
  }

  /** The payload sendRequest writes after its length field 13: id 6, then index, offset and length. */
  function RequestPayload(q: Request): (r: bytes)
    ensures |r| == 13 && r[0] == 6
  {
    [6] + U32Of(q.index) + U32Of(q.offset) + U32Of(q.length)
  }

  /** sendRequest(index, offset, length): the REQUEST message. */
  function RequestMsg(q: Request): (r: bytes)
    ensures |r| == 17
  {
    Framed(RequestPayload(q))
  }

  /** The REQUEST messages of several requests, in order. */
  function RequestMsgs(qs: seq<Request>): (r: bytes)
    ensures |r| == 17 * |qs|
  {
    if qs == [] then [] else RequestMsgs(qs[..|qs| - 1]) + RequestMsg(qs[|qs| - 1])
  }

  /** A REQUEST message is read back as one message whose fields are the request's, for fields that fit in 32 bits. */
  lemma RequestParses(q: Request, rest: bytes)
    requires q.index < U32 && q.offset < U32 && q.length < U32
    ensures Messages(RequestMsg(q) + rest) == ([Packet(RequestPayload(q))] + Messages(rest).0, Messages(rest).1)
    ensures var p := RequestPayload(q);
      p[0] == 6 && FromBE(p[1..5]) == q.index && FromBE(p[5..9]) == q.offset && FromBE(p[9..13]) == q.length
  {
    FramedParses(RequestPayload(q), rest);
    var p := RequestPayload(q);
    assert Pow256(4) == U32;
    assert p[1..5] == U32Of(q.index) && p[5..9] == U32Of(q.offset) && p[9..13] == U32Of(q.length);
    BERoundTrip(q.index, 4);
    BERoundTrip(q.offset, 4);
    BERoundTrip(q.length, 4);
  }

  lemma RequestMsgsSnoc(q0: seq<Request>, q: seq<Request>, x: Request)
    requires |q0| <= |q|
    ensures RequestMsgs((q + [x])[|q0|..]) == RequestMsgs(q[|q0|..]) + RequestMsg(x)
  {
    var s := (q + [x])[|q0|..];
    assert s[..|s| - 1] == q[|q0|..] && s[|s| - 1] == x;
  }

  /** The payload sendPiece writes: id 7, index, offset, then the data. */
  function PiecePayload(index: nat, offset: nat, data: bytes): (r: bytes)
    ensures |r| == 9 + |data| && r[0] == 7 && r[9..] == data
  {
    [7] + U32Of(index) + U32Of(offset) + data
  }

  /** sendPiece(index, offset, data): the length field is 9 + data.size() in 32 bits. */
  function PieceMsg(index: nat, offset: nat, data: bytes): (r: bytes)
    ensures |r| == 13 + |data|
  {
    U32Of(9 + |data|) + PiecePayload(index, offset, data)
  }

  /** A PIECE message whose length fits in 32 bits is read back as its payload, and what follows it on its own. */
  lemma PieceParses(index: nat, offset: nat, data: bytes, rest: bytes)
    requires 9 + |data| < U32
    ensures Messages(PieceMsg(index, offset, data) + rest)
         == ([Packet(PiecePayload(index, offset, data))] + Messages(rest).0, Messages(rest).1)
  {
    assert Pow256(4) == U32;
    assert PieceMsg(index, offset, data) == Framed(PiecePayload(index, offset, data));
    FramedParses(PiecePayload(index, offset, data), rest);
  }

  /**
   * What sendRequests' loop is handed, one per pass: a block locked in the
   * used range that PartData gave, or, when there is no such range, the
   * torrent's pick among the shared requests (getRequest).
   */
  datatype Issue = Locked(req: Request) | Picked(req: Request)

  /**
   * The loop of sendRequests from the outgoing queue q: requests are queued
   * until five are outstanding; it throws when nothing more is handed out
   * (getRequest's "Unable to find suitable request") or when the torrent
   * picks a request already queued (the CHECK_THROW on *it != r). The result
   * is the queue and whether it ended by throwing.
   */
  function Fill(q: seq<Request>, issued: seq<Issue>): (r: (seq<Request>, bool))
    ensures |r.0| >= |q| && r.0[..|q|] == q
    ensures |r.0| - |q| <= |issued|
    ensures forall i :: |q| <= i < |r.0| ==> r.0[i] == issued[i - |q|].req
    ensures |q| < 5 ==> |r.0| <= 5
    ensures r.1 <==> |r.0| < 5
    decreases |issued|
  {
    if |q| >= 5 then (q, false)
    else if issued == [] then (q, true)
    else if issued[0].Picked? && issued[0].req in q then (q, true)
    else Fill(q + [issued[0].req], issued[1..])
  }

  /** A torrent pick is queued only when it is not queued yet; blocks from the used range are queued as they come. */
  lemma FillPicksFresh(q: seq<Request>, issued: seq<Issue>, i: nat)
    requires |q| <= i < |Fill(q, issued).0| && issued[i - |q|].Picked?
    ensures Fill(q, issued).0[i] !in Fill(q, issued).0[..i]
    decreases |issued|
  {
    if i > |q| {
      FillPicksFresh(q + [issued[0].req], issued[1..], i);
    } else {
      assert Fill(q, issued).0[..i] == q;
    }
  }

  /** The search of sendRequests for a torrent pick already in the outgoing queue. */
  method IsQueued(q: seq<Request>, x: Request) returns (b: bool)
    ensures b <==> x in q
  {
    var it := 0;
    while it < |q|
      invariant 0 <= it <= |q| && x !in q[..it]
    {
      if q[it] == x {
        return true;
      }
      assert q[..it + 1] == q[..it] + [q[it]];
      it := it + 1;
    }
    assert q[..it] == q;
    return false;
  }

  /** The loop of sendRequests: the queue it leaves, the REQUEST messages it sends, and whether it threw. */
  method FillQueue(q0: seq<Request>, issued: seq<Issue>) returns (q: seq<Request>, sent: bytes, threw: bool)
    ensures (q, threw) == Fill(q0, issued)
    ensures sent == RequestMsgs(q[|q0|..])
  {
    q, sent, threw := q0, [], false;
    assert q0[|q0|..] == [];
    var rest := issued;
    while |q| < 5
      invariant |q| >= |q0| && Fill(q, rest) == Fill(q0, issued)
      invariant sent == RequestMsgs(q[|q0|..])
      decreases |rest|
    {
      if rest == [] {
        threw := true;
        break;
      }
      var x := rest[0];
      if x.Picked? {
        var dup := IsQueued(q, x.req);
        if dup {
          threw := true;
          break;
        }
      }
      RequestMsgsSnoc(q0, q, x.req);
      sent := sent + RequestMsg(x.req);
      q := q + [x.req];
      rest := rest[1..];
    }
  }

  /**
   * The outcome of sendRequests: the outgoing queue afterwards, the REQUEST
   * bytes sent, and whether it threw with the queue empty, when the catch
   * block sends NOT INTERESTED. ready is false when m_partData or m_torrent
   * is missing, which throws at once.
   */
  function Requested(q0: seq<Request>, ready: bool, issued: seq<Issue>): (r: (seq<Request>, bytes, bool))
    ensures |r.0| >= |q0| && r.0[..|q0|] == q0
    ensures r.1 == RequestMsgs(r.0[|q0|..])
    ensures r.2 ==> r.0 == []
  {
    var f := if ready then Fill(q0, issued) else (q0, true);
    (f.0, RequestMsgs(f.0[|q0|..]), f.1 && f.0 == [])
  }

  // ------------------------------------------------------------ the class

  /** The parts of a BitTorrent client this model keeps. */
  class Client {
    var inBuffer: bytes
    var received: seq<Message>
    var out: bytes
    var amChoking: bool
    var amInterested: bool
    /** Choke timers started by sendUnchoke and by a choke the torrent put off. */
    var chokeTimers: nat
    /** Blocks the peer asked us for. */
    var requests: seq<Request>
    var bitField: seq<bool>
    var isChoking: bool
    var isInterested: bool
    /** Blocks we asked the peer for. */
    var outRequests: seq<Request>

    /** While we choke the peer, no upload request of theirs is queued. */
    ghost predicate Valid()
      reads this
    {
      amChoking ==> requests == []
    }

    /** A connection begins choking and not interested, with nothing buffered or queued. */
    constructor ()
      ensures Valid()
      ensures inBuffer == [] && received == [] && out == [] && amChoking && !amInterested
      ensures chokeTimers == 0 && requests == [] && bitField == []
      ensures isChoking && !isInterested && outRequests == []
    {
      inBuffer, received, out := [], [], [];
      amChoking, amInterested := true, false;
      chokeTimers := 0;
      requests, bitField := [], [];
      isChoking, isInterested, outRequests := true, false, [];
    }

    /** parseBuffer(), after the handshake: every complete message is handed on and removed. */
    method ParseBuffer()
      modifies this
      ensures isChoking == old(isChoking) && isInterested == old(isInterested) && outRequests == old(outRequests)
      ensures received == old(received) + Messages(old(inBuffer)).0
      ensures inBuffer == Messages(old(inBuffer)).1
      ensures out == old(out) && requests == old(requests) && bitField == old(bitField)
      ensures amChoking == old(amChoking) && amInterested == old(amInterested) && chokeTimers == old(chokeTimers)
    {
      ghost var whole := inBuffer;
      var buf, rec := inBuffer, received;
      assert rec + [] == rec;
      while |buf| >= 4
        invariant old(received) + Messages(whole).0 == rec + Messages(buf).0
        invariant Messages(whole).1 == Messages(buf).1
        invariant unchanged(this)
        decreases |buf|
      {
        var len := FromBE(buf[..4]);
        if len == 0 {
          ConcatAssoc(rec, [Ping], Messages(buf[4..]).0);
          rec := rec + [Ping];
        } else {
          if |buf| < len + 4 {
            break;
          }
          var m := Packet(buf[4..len + 4]);
          ConcatAssoc(rec, [m], Messages(buf[len + 4..]).0);
          rec := rec + [m];
        }
        buf := buf[len + 4..];
      }
      assert Messages(buf).0 == [];
      assert rec + [] == rec;
      inBuffer, received := buf, rec;
    }

    /**
     * sendChoke(): when we are not choking yet, asks the torrent whether to
     * keep uploading (dontChoke); if so, retries later and stays unchoked;
     * else sends CHOKE and drops every queued request.
     */
    method SendChoke(dontChoke: bool)
      requires Valid()
      modifies this
      ensures Valid()
      ensures isChoking == old(isChoking) && isInterested == old(isInterested) && outRequests == old(outRequests)
      ensures old(amChoking) ==> out == old(out) && amChoking && requests == old(requests) && chokeTimers == old(chokeTimers)
      ensures !old(amChoking) && dontChoke ==>
        out == old(out) && !amChoking && requests == old(requests) && chokeTimers == old(chokeTimers) + 1
      ensures !old(amChoking) && !dontChoke ==>
        out == old(out) + Control(0) && amChoking && requests == [] && chokeTimers == old(chokeTimers)
      ensures amInterested == old(amInterested) && inBuffer == old(inBuffer) && received == old(received)
      ensures bitField == old(bitField)
    {
      if amChoking {
        return;
      }
      if dontChoke {
        chokeTimers := chokeTimers + 1;
        return;
      }
      out := out + Control(0);
      amChoking := true;
      requests := [];
    }

    /** sendUnchoke(): nothing when already unchoked; else sends UNCHOKE, unchokes and starts the choke timer. */
    method SendUnchoke()
      requires Valid()
      modifies this
      ensures Valid()
      ensures isChoking == old(isChoking) && isInterested == old(isInterested) && outRequests == old(outRequests)
      ensures !old(amChoking) ==> out == old(out) && chokeTimers == old(chokeTimers)
      ensures old(amChoking) ==> out == old(out) + Control(1) && chokeTimers == old(chokeTimers) + 1
      ensures !amChoking
      ensures amInterested == old(amInterested) && requests == old(requests) && inBuffer == old(inBuffer)
      ensures received == old(received) && bitField == old(bitField)
    {
      if !amChoking {
        return;
      }
      out := out + Control(1);
      amChoking := false;
      chokeTimers := chokeTimers + 1;
    }

    /** sendInterested(): nothing when already interested; else sends INTERESTED. */
    method SendInterested()
      modifies this
      ensures isChoking == old(isChoking) && isInterested == old(isInterested) && outRequests == old(outRequests)
      ensures out == old(out) + (if old(amInterested) then [] else Control(2))
      ensures amInterested
      ensures amChoking == old(amChoking) && chokeTimers == old(chokeTimers) && requests == old(requests)
      ensures inBuffer == old(inBuffer) && received == old(received) && bitField == old(bitField)
    {
      if amInterested {
        return;
      }
      out := out + Control(2);
      amInterested := true;
    }

    /** sendUninterested(): nothing when not interested; else sends NOT INTERESTED. */
    method SendUninterested()
      modifies this
      ensures isChoking == old(isChoking) && isInterested == old(isInterested) && outRequests == old(outRequests)
      ensures out == old(out) + (if old(amInterested) then Control(3) else [])
      ensures !amInterested
      ensures amChoking == old(amChoking) && chokeTimers == old(chokeTimers) && requests == old(requests)
      ensures inBuffer == old(inBuffer) && received == old(received) && bitField == old(bitField)
    {
      if !amInterested {
        return;
      }
      out := out + Control(3);
      amInterested := false;
    }

    /**
     * sendRequests(): queues and sends requests until five are outstanding,
     * from what the PartData and the torrent hand out (issued). When it
     * throws (ready false: no m_partData or m_torrent), the catch block
     * sends NOT INTERESTED if nothing is outstanding.
     */
    method SendRequests(ready: bool, issued: seq<Issue>)
      modifies this
      ensures outRequests == Requested(old(outRequests), ready, issued).0
      ensures amInterested == (old(amInterested) && !Requested(old(outRequests), ready, issued).2)
      ensures out == old(out) + Requested(old(outRequests), ready, issued).1
        + (if Requested(old(outRequests), ready, issued).2 && old(amInterested) then Control(3) else [])
      ensures isChoking == old(isChoking) && isInterested == old(isInterested) && amChoking == old(amChoking)
      ensures chokeTimers == old(chokeTimers) && requests == old(requests) && inBuffer == old(inBuffer)
      ensures received == old(received) && bitField == old(bitField)
    {
      var q, sent, threw := outRequests, [], true;
      assert q[|q|..] == [];
      if ready {
        q, sent, threw := FillQueue(outRequests, issued);
      }
      ghost var outcome := Requested(outRequests, ready, issued);
      assert outcome == (q, sent, threw && q == []);
      outRequests, out := q, out + sent;
      if threw && q == [] {
        SendUninterested();
      }
    }

    /** onCancel(index, offset, length): every equal queued request goes, the list being searched again from the front after each removal. */
    method OnCancel(index: nat, offset: nat, length: nat)
      requires Valid()
      modifies this
      ensures Valid()
      ensures isChoking == old(isChoking) && isInterested == old(isInterested) && outRequests == old(outRequests)
      ensures requests == Without(old(requests), Request(index, offset, length))
      ensures out == old(out) && amChoking == old(amChoking) && amInterested == old(amInterested)
      ensures chokeTimers == old(chokeTimers) && inBuffer == old(inBuffer) && received == old(received)
      ensures bitField == old(bitField)
    {
      var toCancel := Request(index, offset, length);
      var q := requests;
      var it := 0;
      while it < |q|
        invariant 0 <= it <= |q|
        invariant Without(q, toCancel) == Without(old(requests), toCancel)
        invariant toCancel !in q[..it]
        invariant unchanged(this)
        decreases |q|, |q| - it
      {
        if q[it] == toCancel {
          WithoutRemove(q, it, toCancel);
          q := q[..it] + q[it + 1..];
          it := 0;
        } else {
          assert q[..it + 1] == q[..it] + [q[it]];
          it := it + 1;
        }
      }
      assert q[..it] == q;
      WithoutAbsent(q, toCancel);
      requests := q;
    }

    /**
     * onRequest(index, offset, length): throws without a torrent; a choked
     * peer's request is ignored; else it is queued at the back, and when the
     * socket is writable and it is the only one queued, sendNextChunk sends
     * it at once. piece is what that send would read from the file.
     */
    method OnRequest(hasTorrent: bool, index: nat, offset: nat, length: nat, writable: bool, piece: Option<bytes>)
      returns (r: Result<()>)
      requires Valid()
      modifies this
      ensures Valid()
      ensures isChoking == old(isChoking) && isInterested == old(isInterested) && outRequests == old(outRequests)
      ensures r == if hasTorrent then Ok(()) else Err(CheckFailed("m_torrent"))
      ensures var queued := hasTorrent && !amChoking;
        var sentNow := queued && writable && old(requests) == [] && piece.Some?;
        requests == (if queued && !sentNow then old(requests) + [Request(index, offset, length)] else old(requests)) &&
        out == old(out) + (if sentNow then PieceMsg(index, offset, piece.value) else [])
      ensures amChoking == old(amChoking) && amInterested == old(amInterested)
      ensures chokeTimers == old(chokeTimers) && inBuffer == old(inBuffer) && received == old(received)
      ensures bitField == old(bitField)
    {
      if !hasTorrent {
        return Err(CheckFailed("m_torrent"));
      }
      if amChoking {
        return Ok(());
      }
      requests := requests + [Request(index, offset, length)];
      if writable && |requests| == 1 {
        SendNextChunk(piece);
      }
      r := Ok(());
    }

    /**
     * sendNextChunk(): nothing when no request is queued; else the front
     * request is answered with a PIECE of the data read for it and leaves
     * the queue. piece is None when the read fails or the file is missing:
     * the error is logged or the send retried later, and the queue is kept.
     */
    method SendNextChunk(piece: Option<bytes>)
      requires Valid()
      modifies this
      ensures Valid()
      ensures old(requests) == [] || piece.None? ==> out == old(out) && requests == old(requests)
      ensures old(requests) != [] && piece.Some? ==>
        out == old(out) + PieceMsg(old(requests)[0].index, old(requests)[0].offset, piece.value) &&
        requests == old(requests)[1..]
      ensures isChoking == old(isChoking) && isInterested == old(isInterested) && outRequests == old(outRequests)
      ensures amChoking == old(amChoking) && amInterested == old(amInterested)
      ensures chokeTimers == old(chokeTimers) && inBuffer == old(inBuffer) && received == old(received)
      ensures bitField == old(bitField)
    {
      if requests == [] || piece.None? {
        return;
      }
      var q := requests[0];
      out := out + PieceMsg(q.index, q.offset, piece.value);
      requests := requests[1..];
    }

    /** onChoke(): the peer chokes us, and every block we asked for is dropped. */
    method OnChoke()
      modifies this
      ensures isChoking && outRequests == [] && isInterested == old(isInterested)
      ensures out == old(out) && amChoking == old(amChoking) && amInterested == old(amInterested)
      ensures chokeTimers == old(chokeTimers) && inBuffer == old(inBuffer) && received == old(received)
      ensures requests == old(requests) && bitField == old(bitField)
    {
      isChoking := true;
      outRequests := [];
    }

    /**
     * onUnchoke(): the peer stops choking us; when we are interested and
     * have a download (hasPartData), sendRequests fills the outgoing queue
     * (ready when the torrent is set too).
     */
    method OnUnchoke(hasPartData: bool, hasTorrent: bool, issued: seq<Issue>)
      modifies this
      ensures !isChoking && isInterested == old(isInterested)
      ensures old(amInterested) && hasPartData ==>
        var (q, sent, giveUp) := Requested(old(outRequests), hasTorrent, issued);
        outRequests == q && amInterested == !giveUp && out == old(out) + sent + (if giveUp then Control(3) else [])
      ensures !(old(amInterested) && hasPartData) ==>
        out == old(out) && outRequests == old(outRequests) && amInterested == old(amInterested)
      ensures amChoking == old(amChoking) && chokeTimers == old(chokeTimers) && inBuffer == old(inBuffer)
      ensures received == old(received) && requests == old(requests) && bitField == old(bitField)
    {
      isChoking := false;
      if amInterested && hasPartData {
        SendRequests(hasTorrent, issued);
      }
    }

    /** onInterested() and onUninterested(): the peer's interest in us is set as announced. */
    method OnInterest(interested: bool)
      modifies this
      ensures isInterested == interested && isChoking == old(isChoking) && outRequests == old(outRequests)
      ensures out == old(out) && amChoking == old(amChoking) && amInterested == old(amInterested)
      ensures chokeTimers == old(chokeTimers) && inBuffer == old(inBuffer) && received == old(received)
      ensures requests == old(requests) && bitField == old(bitField)
    {
      isInterested := interested;
    }

    /**
     * onBitfield(bits): throws without a torrent; reads the flags from the
     * top bit of each byte down, stopping at the chunk count; throws when
     * the bitfield is too short for the count (keeping what it read); an
     * all-set bitfield is kept as the empty mask of a seed. On success the
     * mask is what goes to addSourceMask, and checkNeedParts decides
     * (needParts: the download has a range this peer can supply) whether
     * sendInterested follows.
     */
    method OnBitfield(hasTorrent: bool, cnt: nat, bits: bytes, needParts: bool) returns (r: Result<seq<bool>>)
      modifies this
      ensures isChoking == old(isChoking) && isInterested == old(isInterested) && outRequests == old(outRequests)
      ensures !hasTorrent ==> r == Err(CheckFailed("m_torrent")) && bitField == old(bitField)
      ensures hasTorrent && ReadCount(|bits|, cnt) != cnt ==>
        r == Err(CheckFailed("m_bitField.size() == m_torrent->getChunkCnt()")) && bitField == Flags(bits, ReadCount(|bits|, cnt))
      ensures hasTorrent && ReadCount(|bits|, cnt) == cnt ==> r == Ok(Mask(Flags(bits, cnt))) && bitField == r.value
      ensures r.Err? ==> out == old(out) && amInterested == old(amInterested)
      ensures r.Ok? ==>
        out == old(out) + (if needParts && !old(amInterested) then Control(2) else []) &&
        amInterested == (old(amInterested) || needParts)
      ensures amChoking == old(amChoking) && chokeTimers == old(chokeTimers) && inBuffer == old(inBuffer)
      ensures received == old(received) && requests == old(requests)
    {
      if !hasTorrent {
        return Err(CheckFailed("m_torrent"));
      }
      var flags, trueBits := DecodeBitfield(bits, cnt);
      bitField := flags;
      if |bitField| != cnt {
        return Err(CheckFailed("m_bitField.size() == m_torrent->getChunkCnt()"));
      }
      if |bitField| == trueBits {
        bitField := [];
      }
      r := Ok(bitField);
      if needParts {
        SendInterested();
      }
    }
  }

  /** The queue without every copy of x. */
  function Without(q: seq<Request>, x: Request): (r: seq<Request>)
    ensures x !in r
    ensures forall y :: y in r <==> y in q && y != x
  {
    if q == [] then [] else (if q[0] == x then [] else [q[0]]) + Without(q[1..], x)
  }

  lemma {:induction false} WithoutAppend(a: seq<Request>, b: seq<Request>, x: Request)
    ensures Without(a + b, x) == Without(a, x) + Without(b, x)
    decreases |a|
  {
    if a != [] {
      assert (a + b)[1..] == a[1..] + b;
      WithoutAppend(a[1..], b, x);
    } else {
      assert a + b == b;
    }
  }

  /** Removing one copy of x does not change what is left once every copy is gone. */
  lemma WithoutRemove(q: seq<Request>, k: nat, x: Request)
    requires k < |q| && q[k] == x
    ensures Without(q[..k] + q[k + 1..], x) == Without(q, x)
  {
    SplitAround(q, k);
    WithoutAppend(q[..k], [x] + q[k + 1..], x);
    WithoutAppend(q[..k], q[k + 1..], x);
    WithoutHead(x, q[k + 1..]);
  }

  lemma SplitAround(q: seq<Request>, k: nat)
    requires k < |q|
    ensures q == q[..k] + ([q[k]] + q[k + 1..])
  {
  }

  lemma WithoutHead(x: Request, b: seq<Request>)
    ensures Without([x] + b, x) == Without(b, x)
  {
    assert ([x] + b)[1..] == b;
  }

  /** A queue with no copy of x is left as it is. */
  lemma {:induction false} WithoutAbsent(q: seq<Request>, x: Request)
    requires x !in q
    ensures Without(q, x) == q
    decreases |q|
  {
    if q != [] {
      WithoutAbsent(q[1..], x);
      assert [q[0]] + q[1..] == q;
    }
  }
}
