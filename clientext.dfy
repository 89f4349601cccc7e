/**
 * The upload side of an eD2k client in hncore/ed2k/clientext.cpp
 * (UploadInfo): the queue of requested ranges, capped at what one upload
 * session may send, and the buffer of the range being sent, handed out
 * piece by piece.
 *
 * The C++ counters are 32-bit. The queue cap is stated twice: as the code
 * computes it, in 32-bit arithmetic (where a huge request wraps the sum
 * round and gets in), and as intended, in exact arithmetic; the class uses
 * the intended one.
 */
module ClientExt {
  import opened Ranges
  import opened Streams

  const U32: nat := 0x1_0000_0000

  /** The eD2k hashing sub-chunk, 180 KiB. */
  const ED2K_CHUNKSIZE: nat := 180 * 1024

  /** How much one upload session sends: 53 full chunks, 9540 KiB. */
  const SEND_TO_ONE_CLIENT: nat := 53 * ED2K_CHUNKSIZE

  /** Range32: both ends fit in 32 bits. */
  predicate Is32(r: Range) { r.end < U32 }

  /** length(), exactly: the number of values in the range. */
  function Length(r: Range): nat {
    r.end - r.begin + 1
  }

  /** length() on Range32: end - begin + 1 in 32 bits, which is 0 for the full range. */
  function Length32(r: Range): (n: nat)
    ensures n < U32
  {
    (r.end - r.begin + 1) % U32
  }

  /** The total length of the queued ranges. */
  function Requested(q: seq<Range>): nat {
    if q == [] then 0 else Requested(q[..|q| - 1]) + Length(q[|q| - 1])
  }

  /** The 32-bit `requested` of addReqChunk after adding up the queue. */
  function Requested32(q: seq<Range>): (n: nat)
    ensures n < U32
  {
    if q == [] then 0 else (Requested32(q[..|q| - 1]) + Length32(q[|q| - 1])) % U32
  }

  /** What the session has committed to send: the bytes already sent plus every queued range. */
  predicate WithinCap(sent: nat, q: seq<Range>) {
    sent + Requested(q) <= SEND_TO_ONE_CLIENT
  }

  /** addReqChunk as intended: a range already queued is ignored; a new one is queued only while the session total stays within the cap. */
  function Admit(sent: nat, q: seq<Range>, r: Range): (q': seq<Range>)
    ensures r in q ==> q' == q
    ensures q' == q || q' == q + [r]
  {
    if r in q then q
    else if sent + Requested(q) + Length(r) <= SEND_TO_ONE_CLIENT then q + [r]
    else q
  }

  /** addReqChunk as written: the same tests with the length and the sums taken in 32 bits. */
  function AdmitAsWritten(sent: nat, q: seq<Range>, r: Range): (q': seq<Range>)
    requires sent < U32
    ensures q' == q || q' == q + [r]
  {
    if r in q then q
    else if ((sent + Requested32(q)) % U32 + Length32(r)) % U32 <= SEND_TO_ONE_CLIENT then q + [r]
    else q
  }

  lemma RequestedSnoc(q: seq<Range>, r: Range)
    ensures Requested(q + [r]) == Requested(q) + Length(r)
  {
    assert (q + [r])[..|q + [r]| - 1] == q;
  }

  /** A queued range always keeps the session within the cap, and a session within the cap stays so. */
  lemma AdmitCapped(sent: nat, q: seq<Range>, r: Range)
    ensures Admit(sent, q, r) != q ==> WithinCap(sent, Admit(sent, q, r))
    ensures WithinCap(sent, q) ==> WithinCap(sent, Admit(sent, q, r))
    ensures r !in q && !WithinCap(sent, q + [r]) ==> Admit(sent, q, r) == q
  {
    RequestedSnoc(q, r);
  }

  /** Taken in 32 bits, the sum of the queue is the exact sum, wrapped. */
  lemma {:induction false} Requested32Wraps(q: seq<Range>)
    ensures Requested32(q) == Requested(q) % U32
    decreases |q|
  {
    if q != [] {
      var p := q[..|q| - 1];
      var r := q[|q| - 1];
      Requested32Wraps(p);
      ModAdd(Requested(p), Length(r));
    }
  }

  lemma ModAdd(a: nat, b: nat)
    ensures (a % U32 + b % U32) % U32 == (a + b) % U32
  {
  }

  /** Below 2^32 the 32-bit session total of addReqChunk is the exact one. */
  lemma Total32Exact(sent: nat, q: seq<Range>, r: Range)
    requires sent + Requested(q) + Length(r) < U32
    ensures ((sent + Requested32(q)) % U32 + Length32(r)) % U32 == sent + Requested(q) + Length(r)
  {
    var req, len := Requested(q), Length(r);
    Requested32Wraps(q);
    SmallMod(req);
    SmallMod(sent + req);
    SmallMod(len);
    SmallMod(sent + req + len);
  }

  /** The two agree whenever the exact session total stays below 2^32: the wrap-around is the only difference. */
  lemma AdmitAsWrittenAgrees(sent: nat, q: seq<Range>, r: Range)
    requires sent + Requested(q) + Length(r) < U32
    ensures AdmitAsWritten(sent, q, r) == Admit(sent, q, r)
  {
    Total32Exact(sent, q, r);
  }

  lemma SmallMod(x: nat)
    requires x < U32
    ensures x % U32 == x
  {
  }

  /**
   * As written, a 4 GiB request gets past the cap once anything is queued:
   * with [0, 0] queued and nothing sent, the wire request 0..0xFFFFFFFF
   * (the inclusive range [0, 0xFFFFFFFE]) makes the 32-bit sum 1 +
   * 0xFFFFFFFF wrap to 0, and it is queued.
   */
  lemma CapBypassedAsWritten()
    ensures var q := [Range(0, 0)];
      var r := Range(0, 0xFFFF_FFFE);
      AdmitAsWritten(0, q, r) == q + [r] && !WithinCap(0, q + [r]) && Admit(0, q, r) == q
  {
    var q := [Range(0, 0)];
    var r := Range(0, 0xFFFF_FFFE);
    assert q[..0] == [];
    assert Requested32(q) == 1;
    assert Requested(q) == 1;
    RequestedSnoc(q, r);
  }

  // ------------------------------------------------------------ the class

  /** UploadInfo: the upload session of one client. */
  class UploadInfo {
    var reqChunks: seq<Range>
    /** The data of the front request still to be sent. */
    var buffer: bytes
    var curPos: nat
    var compressed: bool
    var sent: nat

    ghost predicate Valid()
      reads this
    {
      sent < U32 && curPos < U32 && (forall i :: 0 <= i < |reqChunks| ==> Is32(reqChunks[i]))
    }

    /** A new session: nothing queued, buffered or sent. */
    constructor ()
      ensures Valid() && reqChunks == [] && buffer == [] && curPos == 0 && !compressed && sent == 0
    {
      reqChunks := [];
      buffer := [];
      curPos := 0;
      compressed := false;
      sent := 0;
    }

    /** addReqChunk(r): the queue loop looks for r while adding up the queued lengths. */
    method AddReqChunk(r: Range)
      requires Valid() && Is32(r)
      modifies this
      ensures Valid()
      ensures reqChunks == Admit(sent, old(reqChunks), r)
      ensures buffer == old(buffer) && curPos == old(curPos) && compressed == old(compressed) && sent == old(sent)
    {
      var q := reqChunks;
      var i := 0;
      var requested := 0;
      while i < |q|
        invariant 0 <= i <= |q|
        invariant r !in q[..i]
        invariant requested == Requested(q[..i])
        invariant unchanged(this)
      {
        if q[i] == r {
          assert r in q;
          return;
        }
        assert q[..i + 1] == q[..i] + [q[i]];
        RequestedSnoc(q[..i], q[i]);
        requested := requested + Length(q[i]);
        i := i + 1;
      }
      assert q[..i] == q;
      if sent + requested + Length(r) <= SEND_TO_ONE_CLIENT {
        reqChunks := q + [r];
      }
    }

    /**
     * getNext(amount): hands out at most amount bytes from the front of the
     * buffer, with the position they start at and the end position the
     * packet announces (for compressed data, the length of the request);
     * the request is done when its buffer runs empty. Positions and the
     * sent count are 32-bit.
     */
    method GetNext(amount: nat) returns (begin: nat, end: nat, data: bytes)
      requires Valid() && amount < U32
      requires compressed ==> reqChunks != []
      modifies this
      ensures Valid()
      ensures data + buffer == old(buffer)
      ensures |data| == if amount < |old(buffer)| then amount else |old(buffer)|
      ensures begin == old(curPos)
      ensures end == if old(compressed) then Length32(old(reqChunks)[0]) else (old(curPos) + |data|) % U32
      ensures curPos == (old(curPos) + |data|) % U32 && sent == (old(sent) + |data|) % U32
      ensures reqChunks == if buffer == [] && old(reqChunks) != [] then old(reqChunks)[1..] else old(reqChunks)
      ensures compressed == old(compressed)
    {
      var n := amount;
      if |buffer| < n {
        n := |buffer|;
      }
      begin := curPos;
      if compressed {
        end := Length32(reqChunks[0]);
      } else {
        end := (curPos + n) % U32;
      }
      data := buffer[..n];
      buffer := buffer[n..];
      curPos := (curPos + n) % U32;
      if |buffer| == 0 && |reqChunks| > 0 {
        reqChunks := reqChunks[1..];
      }
      sent := (sent + n) % U32;
      assert data + buffer == old(buffer);
    }
  }
}
