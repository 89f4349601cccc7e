/**
 * The bitfield of a torrent in hncore/bt/torrent.cpp: one flag per chunk,
 * eight to a byte, the first chunk of each byte in its top bit, the last
 * byte zero-padded; and the setting of a chunk's bit once it is verified.
 *
 * `tmp |= flag << i` and `byte |= 1 << k` are written as additions of the
 * power of two; the bit they set is clear beforehand in the first, and the
 * addition is guarded by a test of the bit in the second.
 */
module BtTorrent {
  import opened Wrappers
  import opened Streams
  import opened Packets

  const U32: nat := 0x1_0000_0000

  /** The flags of one byte in bit order, lowest bit first: flag j sits at bit 7 - j. */
  function Reversed8(flags: seq<bool>): (r: seq<bool>)
    requires |flags| <= 8
    ensures |r| == 8
  {
    seq(8, i requires 0 <= i < 8 => 7 - i < |flags| && flags[7 - i])
  }

  /** Up to eight flags in one byte, the first one in the top bit. */
  function MsbByte(flags: seq<bool>): (b: byte)
    requires |flags| <= 8
  {
    PackByte(Reversed8(flags))
  }

  /** Flag j of a byte, as the decoding loops read it with std::bitset<8>::operator[](7 - j). */
  function FlagOf(b: byte, j: nat): bool
    requires j < 8
  {
    TestBit(b, 7 - j)
  }

  lemma MsbByteFlags(flags: seq<bool>, j: nat)
    requires |flags| <= 8 && j < 8
    ensures FlagOf(MsbByte(flags), j) == (j < |flags| && flags[j])
  {
    PackByteBits(Reversed8(flags), 7 - j);
  }

  /** Changing bit k of the packed flags adds or takes away 2^k. */
  lemma {:induction false} PackByteUpdate(s: seq<bool>, k: nat, v: bool)
    requires |s| <= 8 && k < |s|
    ensures PackByte(s[k := v]) + BitOf(s[k]) * Pow2(k) == PackByte(s) + BitOf(v) * Pow2(k)
    decreases k
  {
    var t := s[k := v];
    if k > 0 {
      assert t[1..] == s[1..][k - 1 := v];
      PackByteUpdate(s[1..], k - 1, v);
      var d := BitOf(s[k]) * Pow2(k - 1);
      var e := BitOf(v) * Pow2(k - 1);
      assert PackByte(t[1..]) + d == PackByte(s[1..]) + e;
      assert BitOf(s[k]) * Pow2(k) == 2 * d;
      assert BitOf(v) * Pow2(k) == 2 * e;
      assert PackByte(t) == BitOf(s[0]) + 2 * PackByte(t[1..]);
    } else {
      assert t[1..] == s[1..];
    }
  }

  /** No flag set packs into zero. */
  lemma {:induction false} PackByteNone(s: seq<bool>)
    requires |s| <= 8 && forall i :: 0 <= i < |s| ==> !s[i]
    ensures PackByte(s) == 0
    decreases |s|
  {
    if s != [] {
      PackByteNone(s[1..]);
    }
  }

  /** Setting the next flag is what `tmp |= flag << i` does, with i = 7 - the flags already set. */
  lemma MsbByteSnoc(flags: seq<bool>, b: bool)
    requires |flags| < 8
    ensures MsbByte(flags + [b]) == MsbByte(flags) + BitOf(b) * Pow2(7 - |flags|)
  {
    var k := 7 - |flags|;
    var s := Reversed8(flags);
    var t := Reversed8(flags + [b]);
    forall i | 0 <= i < 8 ensures t[i] == s[k := b][i] {
    }
    assert t == s[k := b];
    PackByteUpdate(s, k, b);
  }

  lemma BitfieldUnfold(chunks: seq<bool>)
    requires chunks != []
    ensures Bitfield(chunks) == [MsbByte(chunks[..Min8(|chunks|)])] + Bitfield(chunks[Min8(|chunks|)..])
  {
  }

  /** The bitfield initBitfield builds from the chunk flags. */
  function Bitfield(chunks: seq<bool>): (r: bytes)
    decreases |chunks|
  {
    if chunks == [] then []
    else
      var n := Min8(|chunks|);
      [MsbByte(chunks[..n])] + Bitfield(chunks[n..])
  }

  /** The first n flags of a bitfield, read byte by byte from the top bit down. */
  function Flags(bf: bytes, n: nat): (r: seq<bool>)
    requires n <= 8 * |bf|
    ensures |r| == n
  {
    seq(n, i requires 0 <= i < n => FlagOf(bf[i / 8], i % 8))
  }

  /** One byte per eight chunks, the last one rounded up. */
  lemma {:induction false} BitfieldLength(chunks: seq<bool>)
    ensures |Bitfield(chunks)| == (|chunks| + 7) / 8
    decreases |chunks|
  {
    if chunks != [] {
      BitfieldLength(chunks[Min8(|chunks|)..]);
    }
  }

  /** Chunk i sits in bit 7 - i % 8 of byte i / 8, and the padding bits of the last byte are zero. */
  lemma {:induction false} BitfieldLayout(chunks: seq<bool>, k: nat, j: nat)
    requires k < |Bitfield(chunks)| && j < 8
    ensures FlagOf(Bitfield(chunks)[k], j) == (8 * k + j < |chunks| && chunks[8 * k + j])
    decreases |chunks|
  {
    var n := Min8(|chunks|);
    if k == 0 {
      MsbByteFlags(chunks[..n], j);
    } else {
      BitfieldLayout(chunks[n..], k - 1, j);
      if 8 * k + j < |chunks| {
        assert chunks[n..][8 * (k - 1) + j] == chunks[8 * k + j];
      }
    }
  }

  /** The self-check of initBitfield: decoding the bitfield gives back exactly the chunk flags. */
  lemma BitfieldDecodes(chunks: seq<bool>)
    ensures |chunks| <= 8 * |Bitfield(chunks)|
    ensures Flags(Bitfield(chunks), |chunks|) == chunks
  {
    BitfieldLength(chunks);
    var bf := Bitfield(chunks);
    forall i | 0 <= i < |chunks| ensures Flags(bf, |chunks|)[i] == chunks[i] {
      BitfieldLayout(chunks, i / 8, i % 8);
    }
  }

  /** One byte of the bitfield from the flags at from on, as the inner loop of initBitfield packs it. */
  method PackNext(chunks: seq<bool>, from: nat) returns (tmp: byte, next: nat)
    requires from < |chunks|
    ensures next == from + Min8(|chunks| - from)
    ensures tmp == MsbByte(chunks[from..next])
  {
    tmp := 0;
    next := from;
    var i: int := 7;
    PackByteNone(Reversed8(chunks[from..from]));
    while i >= 0
      invariant -1 <= i <= 7 && next == from + 7 - i && next <= |chunks|
      invariant tmp == MsbByte(chunks[from..next])
    {
      if next == |chunks| {
        return;
      }
      assert chunks[from..next + 1] == chunks[from..next] + [chunks[next]];
      MsbByteSnoc(chunks[from..next], chunks[next]);
      Pow2Seven(i);
      tmp := tmp + BitOf(chunks[next]) * Pow2(i);
      i := i - 1;
      next := next + 1;
    }
  }

  /** Setting bit k of a byte: `b |= 1 << k`. */
  function SetBit(b: byte, k: nat): (r: byte)
    requires k < 8
  {
    if TestBit(b, k) then b
    else
      BitBelow(b, k, 8);
      b + Pow2(k)
  }

  /** A number below 2^n whose bit k < n is clear stays below 2^n when 2^k is added. */
  lemma {:induction false} BitBelow(b: nat, k: nat, n: nat)
    requires b < Pow2(n) && k < n && !TestBit(b, k)
    ensures b + Pow2(k) < Pow2(n)
    decreases k
  {
    var h := Pow2(n - 1);
    assert Pow2(n) == 2 * h;
    assert b == 2 * (b / 2) + b % 2;
    if k > 0 {
      BitBelow(b / 2, k - 1, n - 1);
      assert Pow2(k) == 2 * Pow2(k - 1);
      assert b + Pow2(k) == 2 * (b / 2 + Pow2(k - 1)) + b % 2;
    } else {
      assert b % 2 == 0;
    }
  }

  /** Adding 2^k to a byte whose bit k is clear sets that bit and no other. */
  lemma {:induction false} AddPowBits(b: nat, k: nat, i: nat)
    requires !TestBit(b, k)
    ensures TestBit(b + Pow2(k), i) == (i == k || TestBit(b, i))
    decreases k
  {
    if k == 0 {
      if i > 0 {
        assert (b + 1) / 2 == b / 2;
      }
    } else if i == 0 {
      assert (b + Pow2(k)) % 2 == b % 2;
    } else {
      assert (b + Pow2(k)) / 2 == b / 2 + Pow2(k - 1);
      AddPowBits(b / 2, k - 1, i - 1);
    }
  }

  lemma SetBitBits(b: byte, k: nat, i: nat)
    requires k < 8
    ensures TestBit(SetBit(b, k), i) == (i == k || TestBit(b, i))
  {
    if !TestBit(b, k) {
      AddPowBits(b, k, i);
    }
  }

  /** The packing loop of initBitfield: eight chunk flags per byte, most significant bit first. */
  method PackBitfield(chunks: seq<bool>) returns (bf: bytes)
    ensures bf == Bitfield(chunks)
  {
    bf := [];
    var it := 0;
    while it < |chunks|
      invariant 0 <= it <= |chunks|
      invariant Bitfield(chunks) == bf + Bitfield(chunks[it..])
    {
      var tmp, next := PackNext(chunks, it);
      PackStep(chunks, it, next, tmp);
      assert bf + ([tmp] + Bitfield(chunks[next..])) == (bf + [tmp]) + Bitfield(chunks[next..]);
      bf := bf + [tmp];
      it := next;
    }
    assert bf + [] == bf;
  }

  /** One pass of the packing loop: the byte of the next (up to) eight flags heads the rest of the bitfield. */
  lemma PackStep(chunks: seq<bool>, it: nat, next: nat, tmp: byte)
    requires it < |chunks| && next == it + Min8(|chunks| - it) && tmp == MsbByte(chunks[it..next])
    ensures Bitfield(chunks[it..]) == [tmp] + Bitfield(chunks[next..])
  {
    var c, k := chunks[it..], next - it;
    BitfieldUnfold(c);
    assert c[..k] == chunks[it..next] && c[k..] == chunks[next..] by {
      SliceOfSlice(chunks, it, next);
    }
  }

  lemma SliceOfSlice<T>(s: seq<T>, i: nat, j: nat)
    requires i <= j <= |s|
    ensures s[i..][..j - i] == s[i..j] && s[i..][j - i..] == s[j..]
  {
  }

  // ------------------------------------------------------------ the class

  /** The parts of Torrent this model keeps: the announced chunk size and count, and our bitfield. */
  class Torrent {
    const chunkSize: nat
    const chunkCnt: nat
    var bitField: bytes

    constructor (chunkSize: nat, chunkCnt: nat)
      ensures this.chunkSize == chunkSize && this.chunkCnt == chunkCnt && bitField == []
    {
      this.chunkSize := chunkSize;
      this.chunkCnt := chunkCnt;
      bitField := [];
    }

    /**
     * initBitfield(): the chunk flags are the part status of the download
     * when there is one, else every chunk is there (we seed).
     */
    method InitBitfield(hasPartData: bool, partStatus: seq<bool>)
      modifies this
      ensures bitField == Bitfield(if hasPartData then partStatus else Ones(chunkCnt))
    {
      var chunks := if hasPartData then partStatus else Ones(chunkCnt);
      bitField := PackBitfield(chunks);
    }

    /**
     * onChunkVerified(file, chunkSize, chunk): for our own file and the
     * torrent's chunk size, sets the flag of the chunk; any other file or
     * chunk size changes nothing; a chunk past the bitfield throws
     * (vector::at).
     */
    method OnChunkVerified(ourFile: bool, size: nat, chunk: nat) returns (r: Result<()>)
      modifies this
      ensures !ourFile || size != chunkSize ==> r.Ok? && bitField == old(bitField)
      ensures ourFile && size == chunkSize && (chunk / 8) % U32 >= |old(bitField)| ==>
        r == Err("vector::_M_range_check") && bitField == old(bitField)
      ensures ourFile && size == chunkSize && (chunk / 8) % U32 < |old(bitField)| ==>
        r.Ok? && bitField == old(bitField)[(chunk / 8) % U32 := SetBit(old(bitField)[(chunk / 8) % U32], 7 - chunk % 8)]
    {
      if !ourFile || size != chunkSize {
        return Ok(());
      }
      var num := (chunk / 8) % U32;
      if num >= |bitField| {
        return Err("vector::_M_range_check");
      }
      bitField := bitField[num := SetBit(bitField[num], 7 - chunk % 8)];
      r := Ok(());
    }
  }

  /** Verifying a chunk turns its flag on and leaves every other flag of the bitfield as it was. */
  lemma ChunkVerifiedFlags(bf: bytes, chunk: nat)
    requires chunk / 8 < |bf|
    ensures var num := chunk / 8;
      Flags(bf[num := SetBit(bf[num], 7 - chunk % 8)], 8 * |bf|) == Flags(bf, 8 * |bf|)[chunk := true]
  {
    var num := chunk / 8;
    var nb := bf[num := SetBit(bf[num], 7 - chunk % 8)];
    forall i | 0 <= i < 8 * |bf| ensures Flags(nb, 8 * |bf|)[i] == Flags(bf, 8 * |bf|)[chunk := true][i] {
      if i / 8 == num {
        SetBitBits(bf[num], 7 - chunk % 8, 7 - i % 8);
      }
    }
  }
}
