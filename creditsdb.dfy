/**
 * The eD2k credits database of hncore/ed2k/creditsdb.cpp: one Credits record
 * per known client (user hash, 64-bit uploaded and downloaded byte counts,
 * the time it was last seen, its public key), the record's layout in
 * clients.met (the 64-bit counts split into low and high 32-bit words, the
 * key in an 80-byte slot), loading with the five-month expiry, and `create`.
 *
 * The clock is a parameter (`now`, in seconds, as getTick() / 1000 gives
 * it). A file stream is the bytes of the file; seekg forward is a skip that
 * stops at the end of the data.
 */
module CreditsDb {
  import opened Wrappers
  import opened Streams
  import opened Packets

  const CM_VER: nat := 0x11
  const CM_VER29: nat := 0x12
  const ED2K_MAX_KEY_SIZE: nat := 80
  const U32: nat := 0x1_0000_0000
  const U64: nat := 0x1_0000_0000_0000_0000
  const HASH_LEN: nat := 16

  /** What load forgets: clients not seen for five 30-day months, in seconds. */
  const FIVE_MONTHS: nat := 60 * 60 * 24 * 30 * 5

  datatype Credits = Credits(hash: bytes, uploaded: nat, downloaded: nat, lastSeen: nat, pubKey: bytes)

  /** A record the C++ types can hold, with a key that fits its slot. */
  predicate Valid(c: Credits) {
    |c.hash| == HASH_LEN && c.uploaded < U64 && c.downloaded < U64 && c.lastSeen < U32
    && |c.pubKey| <= ED2K_MAX_KEY_SIZE
  }

  /** Credits(key, h): the key must fit its slot and the hash must be set; the counts and the time start at 0. */
  function NewCredits(key: bytes, hash: bytes): (r: Result<Credits>)
    ensures r.Ok? <==> |key| <= ED2K_MAX_KEY_SIZE && hash != []
    ensures r.Ok? ==> r.value == Credits(hash, 0, 0, 0, key)
  {
    if |key| > ED2K_MAX_KEY_SIZE then Err(CheckFailed("key.size() <= ED2K_MaxKeySize"))
    else if hash == [] then Err(CheckFailed("h"))
    else Ok(Credits(hash, 0, 0, 0, key))
  }

  function Zeros(n: nat): (r: bytes)
    ensures |r| == n && forall i :: 0 <= i < n ==> r[i] == 0
  {
    seq(n, i => 0)
  }

  /** The five 32-bit words of a record: low words of the counts, the time, high words. */
  function Words(c: Credits): seq<int> {
    [c.uploaded, c.downloaded, c.lastSeen, c.uploaded / U32, c.downloaded / U32]
  }

  /** The tail of a record: two reserved zero bytes, the key size as a byte, the key, zeros up to the 80-byte slot. */
  function KeySection(key: bytes): bytes {
    PutLE(0, 2) + (PutLE(|key|, 1) + (key + (if |key| < ED2K_MAX_KEY_SIZE then Zeros(ED2K_MAX_KEY_SIZE - |key|) else [])))
  }

  /** operator<<(o, c): the hash, the five words, and the key section. */
  function CreditsBytes(c: Credits): (r: bytes)
    requires |c.hash| == HASH_LEN
  {
    c.hash + (PutU32s(Words(c)) + KeySection(c.pubKey))
  }

  /** The fixed part of a record: the hash and the five words as read. */
  datatype Header = Header(hash: bytes, words: seq<nat>)

  function ParseHeader(s: bytes): (r: Result<(Header, bytes)>)
    ensures r.Ok? ==> |r.value.0.hash| == HASH_LEN && |r.value.0.words| == 5
  {
    match ReadFixed(s, HASH_LEN)
    case Err(e) => Err(e)
    case Ok((hash, rest)) =>
      match ReadU32s(rest, 5)
      case Err(e) => Err(e)
      case Ok((w, rest')) => Ok((Header(hash, w), rest'))
  }

  /** The rest of a record: the reserved bytes are skipped; only a version 29 file has the key, whose size must fit the slot. */
  function ParseKeySection(s: bytes, ver: nat): (r: Result<(bytes, bytes)>)
    ensures r.Ok? ==> |r.value.0| <= ED2K_MAX_KEY_SIZE
  {
    var s' := Skip(s, 2);
    if ver != CM_VER29 then Ok(([], s'))
    else
      match ReadUint(s', 1, false)
      case Err(e) => Err(e)
      case Ok((keySize, rest)) =>
        if keySize > ED2K_MAX_KEY_SIZE then Err(CheckFailed("keySize <= ED2K_MaxKeySize"))
        else
          match ReadFixed(rest, keySize)
          case Err(e) => Err(e)
          case Ok((key, rest')) => Ok((key, Skip(rest', ED2K_MAX_KEY_SIZE - keySize)))
  }

  /** The record from its parts: the 64-bit counts joined from their words; a last-seen time of 0 (from old revisions) becomes now, as a uint32_t. */
  function Join(h: Header, now: nat, key: bytes): Credits
    requires |h.words| == 5
  {
    var w := h.words;
    Credits(h.hash, w[3] * U32 + w[0], w[4] * U32 + w[1], if w[2] == 0 then now % U32 else w[2], key)
  }

  /** Credits(i, ver): the header, then the key section. */
  function ParseCredits(s: bytes, ver: nat, now: nat): (r: Result<(Credits, bytes)>)
    ensures r.Ok? ==> |r.value.0.hash| == HASH_LEN && (now % U32 != 0 ==> r.value.0.lastSeen != 0)
  {
    match ParseHeader(s)
    case Err(e) => Err(e)
    case Ok((h, rest)) =>
      match ParseKeySection(rest, ver)
      case Err(e) => Err(e)
      case Ok((key, rest')) => Ok((Join(h, now, key), rest'))
  }

  /** A count below 2^64 is its high word times 2^32 plus its low word. */
  lemma SplitWords(x: nat)
    requires x < U64
    ensures x / U32 < U32 && x % U32 < U32
    ensures (x / U32) * U32 + x % U32 == x
    ensures Wrap(x, 4) == x % U32 && Wrap(x / U32, 4) == x / U32
  {
    assert Pow256(4) == U32;
  }

  /** putVal<uint32_t> writes only the low word: values equal modulo 2^32 are written alike. */
  lemma {:induction false} PutU32sWrap(a: seq<int>, b: seq<int>)
    requires |a| == |b| && forall j :: 0 <= j < |a| ==> Wrap(a[j], 4) == Wrap(b[j], 4)
    ensures PutU32s(a) == PutU32s(b)
  {
    if a != [] {
      PutU32sWrap(a[1..], b[1..]);
    }
  }

  /** The words as they are read back: the counts split into low and high words. */
  function ReadWords(c: Credits): seq<nat> {
    [c.uploaded % U32, c.downloaded % U32, c.lastSeen, c.uploaded / U32, c.downloaded / U32]
  }

  lemma HeaderOf(c: Credits, tail: bytes)
    requires Valid(c)
    ensures ParseHeader(c.hash + (PutU32s(Words(c)) + tail)) == Ok((Header(c.hash, ReadWords(c)), tail))
  {
    var w := ReadWords(c);
    SplitWords(c.uploaded);
    SplitWords(c.downloaded);
    assert Pow256(4) == U32;
    PutU32sWrap(Words(c), w);
    ReadFixedOf(c.hash, PutU32s(w) + tail);
    U32sRoundTrip(w, tail);
  }

  lemma KeySectionOf(key: bytes, tail: bytes)
    requires |key| <= ED2K_MAX_KEY_SIZE
    ensures ParseKeySection(KeySection(key) + tail, CM_VER29) == Ok((key, tail))
  {
    var pad := if |key| < ED2K_MAX_KEY_SIZE then Zeros(ED2K_MAX_KEY_SIZE - |key|) else [];
    assert pad == Zeros(ED2K_MAX_KEY_SIZE - |key|);
    var s := KeySection(key) + tail;
    assert s == PutLE(0, 2) + (PutLE(|key|, 1) + (key + (pad + tail)));
    assert Skip(s, 2) == PutLE(|key|, 1) + (key + (pad + tail));
    assert Pow256(1) == 256;
    ReadPutLE(|key|, 1, key + (pad + tail));
    ReadFixedOf(key, pad + tail);
    assert (pad + tail)[ED2K_MAX_KEY_SIZE - |key|..] == tail;
  }

  lemma JoinOf(c: Credits, now: nat)
    requires Valid(c) && c.lastSeen != 0
    ensures Join(Header(c.hash, ReadWords(c)), now, c.pubKey) == c
  {
    SplitWords(c.uploaded);
    SplitWords(c.downloaded);
  }

  /** A valid record that was seen is read back unchanged from a version 29 file, and reading stops right after it. */
  lemma CreditsRoundTrip(c: Credits, tail: bytes, now: nat)
    requires Valid(c) && c.lastSeen != 0
    ensures ParseCredits(CreditsBytes(c) + tail, CM_VER29, now) == Ok((c, tail))
  {
    var k := KeySection(c.pubKey);
    assert CreditsBytes(c) + tail == c.hash + (PutU32s(Words(c)) + (k + tail));
    HeaderOf(c, k + tail);
    KeySectionOf(c.pubKey, tail);
    JoinOf(c, now);
  }

  /** A record whose key does not fit its slot is refused. */
  lemma OversizedKeyRefused(s: bytes)
    requires 3 <= |s| && s[2] > ED2K_MAX_KEY_SIZE
    ensures ParseKeySection(s, CM_VER29) == Err(CheckFailed("keySize <= ED2K_MaxKeySize"))
  {
    assert Skip(s, 2)[..1] == [s[2]];
  }

  // ---------------------------------------------------------------- loading

  /** The expiry threshold of load: now less five months, as a uint32_t. */
  function ExpireValue(now: nat): (e: nat)
    ensures e < U32
  {
    (now % U32 + U32 - FIVE_MONTHS) % U32
  }

  /** A record load drops: it was seen, and before the threshold. */
  predicate Expired(c: Credits, expire: nat) {
    c.lastSeen != 0 && c.lastSeen < expire
  }

  /** The records load keeps from count entries: reading stops at the first that fails. */
  function Entries(s: bytes, ver: nat, count: nat, now: nat, expire: nat): (r: (seq<Credits>, Option<string>))
    decreases count
  {
    if count == 0 then ([], None)
    else match ParseCredits(s, ver, now)
      case Err(e) => ([], Some(e))
      case Ok((c, rest)) =>
        var next := Entries(rest, ver, count - 1, now, expire);
        ((if Expired(c, expire) then [] else [c]) + next.0, next.1)
  }

  /** load(file) on the file's bytes: the kept records, and the error that stopped it, if any. */
  function Loaded(file: bytes, now: nat): (seq<Credits>, Option<string>) {
    match ReadUint(file, 1, false)
    case Err(e) => ([], Some(e))
    case Ok((ver, rest)) =>
      if ver != CM_VER && ver != CM_VER29 then ([], None)
      else
        match ReadUint(rest, 4, false)
        case Err(e) => ([], Some(e))
        case Ok((count, rest')) => Entries(rest', ver, count, now, ExpireValue(now))
  }

  /** One step of Entries: the first record decides whether reading goes on. */
  lemma EntriesStep(s: bytes, ver: nat, count: nat, now: nat, expire: nat)
    requires count > 0
    ensures ParseCredits(s, ver, now).Err? ==> Entries(s, ver, count, now, expire) == ([], Some(ParseCredits(s, ver, now).msg))
    ensures ParseCredits(s, ver, now).Ok? ==>
      var (c, rest) := ParseCredits(s, ver, now).value;
      Entries(s, ver, count, now, expire).0 == (if Expired(c, expire) then [] else [c]) + Entries(rest, ver, count - 1, now, expire).0
      && Entries(s, ver, count, now, expire).1 == Entries(rest, ver, count - 1, now, expire).1
  {
  }

  /** The file header: a known version byte and the record count, then the records. */
  lemma LoadedOf(ver: nat, count: nat, body: bytes, now: nat)
    requires (ver == CM_VER || ver == CM_VER29) && count < U32
    ensures Loaded(PutLE(ver, 1) + (PutLE(count, 4) + body), now) == Entries(body, ver, count, now, ExpireValue(now))
  {
    assert Pow256(1) == 256 && Pow256(4) == U32;
    ReadPutLE(ver, 1, PutLE(count, 4) + body);
    ReadPutLE(count, 4, body);
  }

  /** No record load keeps has expired. */
  lemma {:induction false} EntriesFresh(s: bytes, ver: nat, count: nat, now: nat, expire: nat)
    ensures forall c :: c in Entries(s, ver, count, now, expire).0 ==> !Expired(c, expire)
    decreases count
  {
    if count > 0 {
      match ParseCredits(s, ver, now)
      case Err(_) =>
      case Ok((c, rest)) =>
        EntriesFresh(rest, ver, count - 1, now, expire);
    }
  }

  /** The records of a version 29 file, back to back. */
  function RecordsBytes(cs: seq<Credits>): bytes
    requires forall j :: 0 <= j < |cs| ==> Valid(cs[j])
  {
    if cs == [] then [] else assert Valid(cs[0]); CreditsBytes(cs[0]) + RecordsBytes(cs[1..])
  }

  function Unexpired(cs: seq<Credits>, expire: nat): (r: seq<Credits>)
    ensures forall c :: c in r ==> c in cs && !Expired(c, expire)
  {
    if cs == [] then [] else (if Expired(cs[0], expire) then [] else [cs[0]]) + Unexpired(cs[1..], expire)
  }

  /** Loading records written back to back keeps exactly the unexpired ones, in order. */
  lemma {:induction false} EntriesOfRecords(cs: seq<Credits>, tail: bytes, now: nat, expire: nat)
    requires forall j :: 0 <= j < |cs| ==> Valid(cs[j]) && cs[j].lastSeen != 0
    ensures Entries(RecordsBytes(cs) + tail, CM_VER29, |cs|, now, expire) == (Unexpired(cs, expire), None)
  {
    if cs != [] {
      ConcatAssoc(CreditsBytes(cs[0]), RecordsBytes(cs[1..]), tail);
      CreditsRoundTrip(cs[0], RecordsBytes(cs[1..]) + tail, now);
      EntriesOfRecords(cs[1..], tail, now, expire);
    }
  }

  /** A whole version 29 file: version byte, record count, records. */
  lemma LoadedFile(cs: seq<Credits>, now: nat)
    requires |cs| < U32
    requires forall j :: 0 <= j < |cs| ==> Valid(cs[j]) && cs[j].lastSeen != 0
    ensures Loaded(PutLE(CM_VER29, 1) + PutLE(|cs|, 4) + RecordsBytes(cs), now) == (Unexpired(cs, ExpireValue(now)), None)
  {
    var body := RecordsBytes(cs);
    ConcatAssoc(PutLE(CM_VER29, 1), PutLE(|cs|, 4), body);
    LoadedOf(CM_VER29, |cs|, body, now);
    EntriesOfRecords(cs, [], now, ExpireValue(now));
    assert body + [] == body;
  }

  // -------------------------------------------------------------- the list

  /** The first record with the key, as the key index finds it. */
  function FindKey(list: seq<Credits>, key: bytes): (r: Option<nat>)
    ensures r.Some? ==> r.value < |list| && list[r.value].pubKey == key
    ensures r.None? <==> forall j :: 0 <= j < |list| ==> list[j].pubKey != key
  {
    if list == [] then None
    else if list[0].pubKey == key then Some(0)
    else match FindKey(list[1..], key)
      case None => None
      case Some(j) => Some(j + 1)
  }

  class CreditsDb {
    var list: seq<Credits>

    constructor ()
      ensures list == []
    {
      list := [];
    }

    /**
     * load(file): a missing file or an unknown version loads nothing; else
     * every record read is kept unless expired, until one fails to read,
     * whose error is passed on (the caller then tries the backup).
     */
    method Load(file: Option<bytes>, now: nat) returns (r: Result<()>)
      modifies this
      ensures file.None? ==> list == old(list) && r == Ok(())
      ensures file.Some? ==> (list == old(list) + Loaded(file.value, now).0
        && r == (if Loaded(file.value, now).1.Some? then Err(Loaded(file.value, now).1.value) else Ok(())))
    {
      if file.None? {
        return Ok(());
      }
      var i := new InStream(file.value, false);
      var ver := i.GetVal(1);
      if ver.Err? {
        return Err(ver.msg);
      }
      if ver.value != CM_VER && ver.value != CM_VER29 {
        return Ok(());
      }
      var count := i.GetVal(4);
      if count.Err? {
        return Err(count.msg);
      }
      var kept, err := ReadEntries(i, ver.value, count.value, now, ExpireValue(now));
      list := list + kept;
      r := if err.Some? then Err(err.value) else Ok(());
    }

    /** create(key, hash): the record with this key if there is one; else a new one, seen now (as a uint32_t), added to the list. */
    method Create(key: bytes, hash: bytes, now: nat) returns (r: Result<Credits>)
      modifies this
      ensures FindKey(old(list), key).Some? ==> r == Ok(old(list)[FindKey(old(list), key).value]) && list == old(list)
      ensures FindKey(old(list), key).None? && NewCredits(key, hash).Err? ==> r == NewCredits(key, hash) && list == old(list)
      ensures FindKey(old(list), key).None? && NewCredits(key, hash).Ok? ==>
        r == Ok(Credits(hash, 0, 0, now % U32, key)) && list == old(list) + [r.value]
    {
      var it := FindKey(list, key);
      if it.Some? {
        return Ok(list[it.value]);
      }
      var c := NewCredits(key, hash);
      if c.Err? {
        return c;
      }
      var made := c.value.(lastSeen := now % U32);
      list := list + [made];
      r := Ok(made);
    }
  }

  /** One turn of the record loop: the record read, if it is kept, or the error that ends the loop. */
  method ReadEntry(i: InStream, ver: nat, n: nat, now: nat, expire: nat) returns (r: Result<seq<Credits>>)
    requires !i.bigEndian && n > 0
    modifies i
    ensures r.Err? ==> Entries(old(i.rest), ver, n, now, expire) == ([], Some(r.msg))
    ensures r.Ok? ==>
      (Entries(old(i.rest), ver, n, now, expire).0 == r.value + Entries(i.rest, ver, n - 1, now, expire).0
      && Entries(old(i.rest), ver, n, now, expire).1 == Entries(i.rest, ver, n - 1, now, expire).1)
  {
    EntriesStep(i.rest, ver, n, now, expire);
    var c := ReadCredits(i, ver, now);
    if c.Err? {
      return Err(c.msg);
    }
    r := Ok(if Expired(c.value, expire) then [] else [c.value]);
  }

  /** operator<<(o, c) on a stream: the record's bytes are appended. */
  method WriteCredits(o: OutStream, c: Credits)
    requires !o.bigEndian && |c.hash| == HASH_LEN
    modifies o
    ensures o.bytes == old(o.bytes) + CreditsBytes(c)
  {
    ghost var start := o.bytes;
    o.PutFixed(c.hash, HASH_LEN);
    assert c.hash[..HASH_LEN] == c.hash;
    WriteWords(o, Words(c));
    WriteKeySection(o, c.pubKey);
    ConcatAssoc(start, c.hash, PutU32s(Words(c)));
    ConcatAssoc(start + c.hash, PutU32s(Words(c)), KeySection(c.pubKey));
    ConcatAssoc(start, c.hash, PutU32s(Words(c)) + KeySection(c.pubKey));
  }

  /** The five putVal<uint32_t> of operator<<. */
  method WriteWords(o: OutStream, w: seq<int>)
    requires !o.bigEndian && |w| == 5
    modifies o
    ensures o.bytes == old(o.bytes) + PutU32s(w)
  {
    ghost var start := o.bytes;
    o.PutVal(w[0], 4);
    o.PutVal(w[1], 4);
    o.PutVal(w[2], 4);
    o.PutVal(w[3], 4);
    o.PutVal(w[4], 4);
    PutU32sOf5(start, w);
  }

  lemma PutU32sOf5(a: bytes, w: seq<int>)
    requires |w| == 5
    ensures a + PutLE(w[0], 4) + PutLE(w[1], 4) + PutLE(w[2], 4) + PutLE(w[3], 4) + PutLE(w[4], 4) == a + PutU32s(w)
  {
    assert w[4..][1..] == [] && w[3..][1..] == w[4..] && w[2..][1..] == w[3..] && w[1..][1..] == w[2..];
    var p0, p1, p2, p3, p4 := PutLE(w[0], 4), PutLE(w[1], 4), PutLE(w[2], 4), PutLE(w[3], 4), PutLE(w[4], 4);
    assert PutU32s(w[4..]) == p4 + [];
    assert PutU32s(w[3..]) == p3 + PutU32s(w[4..]);
    assert PutU32s(w[2..]) == p2 + PutU32s(w[3..]);
    assert PutU32s(w[1..]) == p1 + PutU32s(w[2..]);
    assert PutU32s(w) == p0 + PutU32s(w[1..]);
    assert p4 + [] == p4;
    ConcatAssoc(p2, p3, p4);
    ConcatAssoc(p1, p2 + p3, p4);
    ConcatAssoc(p1, p2, p3);
    ConcatAssoc(p0, p1 + p2 + p3, p4);
    ConcatAssoc(p0, p1 + p2, p3);
    ConcatAssoc(p0, p1, p2);
    ConcatAssoc(a, p0 + p1 + p2 + p3, p4);
    ConcatAssoc(a, p0 + p1 + p2, p3);
    ConcatAssoc(a, p0 + p1, p2);
    ConcatAssoc(a, p0, p1);
  }

  /** The key part of operator<<: reserved u16, the key size as u8, the key, and the padding when the key is short. */
  method WriteKeySection(o: OutStream, key: bytes)
    requires !o.bigEndian
    modifies o
    ensures o.bytes == old(o.bytes) + KeySection(key)
  {
    ghost var start := o.bytes;
    o.PutVal(0, 2);
    o.PutVal(|key|, 1);
    o.PutFixed(key, |key|);
    assert key[..|key|] == key;
    ghost var pad: bytes := [];
    if |key| < ED2K_MAX_KEY_SIZE {
      var dummy := Zeros(ED2K_MAX_KEY_SIZE - |key|);
      o.PutFixed(dummy, |dummy|);
      assert dummy[..|dummy|] == dummy;
      pad := dummy;
    } else {
      assert o.bytes == o.bytes + pad;
    }
    ghost var z, k := PutLE(0, 2), PutLE(|key|, 1);
    assert o.bytes == start + z + k + key + pad;
    ConcatAssoc(key, pad, []);
    ConcatAssoc(k, key, pad);
    ConcatAssoc(z, k + key, pad);
    ConcatAssoc(z, k, key);
    ConcatAssoc(start, z + k + key, pad);
    ConcatAssoc(start, z + k, key);
    ConcatAssoc(start, z, k);
  }

  /** The record loop of load: count records, the unexpired kept, until one fails to read. */
  method ReadEntries(i: InStream, ver: nat, count: nat, now: nat, expire: nat) returns (kept: seq<Credits>, err: Option<string>)
    requires !i.bigEndian
    modifies i
    ensures (kept, err) == Entries(old(i.rest), ver, count, now, expire)
  {
    ghost var all := Entries(i.rest, ver, count, now, expire);
    var n := count;
    kept := [];
    assert kept + all.0 == all.0;
    while n > 0
      invariant all.0 == kept + Entries(i.rest, ver, n, now, expire).0
      invariant all.1 == Entries(i.rest, ver, n, now, expire).1
    {
      var took := ReadEntry(i, ver, n, now, expire);
      if took.Err? {
        assert kept + [] == kept;
        return kept, Some(took.msg);
      }
      ghost var old_kept := kept;
      kept := kept + took.value;
      n := n - 1;
      ConcatAssoc(old_kept, took.value, Entries(i.rest, ver, n, now, expire).0);
    }
    assert kept + [] == kept;
    err := None;
  }

  /** Five getVal<uint32_t> reads; the first that fails ends them. */
  method GetWords(i: InStream) returns (r: Result<seq<nat>>)
    requires !i.bigEndian
    modifies i
    ensures ReadU32s(old(i.rest), 5).Ok? ==>
      r == Ok(ReadU32s(old(i.rest), 5).value.0) && i.rest == ReadU32s(old(i.rest), 5).value.1
    ensures ReadU32s(old(i.rest), 5).Err? ==> r == Err(ReadU32s(old(i.rest), 5).msg)
  {
    ghost var s := i.rest;
    ReadU32sOf(s, 5);
    var x0 := i.GetVal(4);
    if x0.Err? { return Err(x0.msg); }
    assert i.rest == s[4..] && s[..4] == s[0..4];
    var x1 := i.GetVal(4);
    if x1.Err? { return Err(x1.msg); }
    assert i.rest == s[8..] && s[4..][..4] == s[4..8];
    var x2 := i.GetVal(4);
    if x2.Err? { return Err(x2.msg); }
    assert i.rest == s[12..] && s[8..][..4] == s[8..12];
    var x3 := i.GetVal(4);
    if x3.Err? { return Err(x3.msg); }
    assert i.rest == s[16..] && s[12..][..4] == s[12..16];
    var x4 := i.GetVal(4);
    if x4.Err? { return Err(x4.msg); }
    assert i.rest == s[20..] && s[16..][..4] == s[16..20];
    ghost var w := ReadU32s(s, 5).value.0;
    assert w[0] == x0.value && w[1] == x1.value && w[2] == x2.value && w[3] == x3.value && w[4] == x4.value;
    assert w == [x0.value, x1.value, x2.value, x3.value, x4.value];
    r := Ok([x0.value, x1.value, x2.value, x3.value, x4.value]);
  }

  /** The fixed part of Credits(i, ver): the 16-byte hash, then the five words. */
  method ReadHeader(i: InStream) returns (r: Result<Header>)
    requires !i.bigEndian
    modifies i
    ensures ParseHeader(old(i.rest)).Ok? ==>
      r == Ok(ParseHeader(old(i.rest)).value.0) && i.rest == ParseHeader(old(i.rest)).value.1
    ensures ParseHeader(old(i.rest)).Err? ==> r == Err(ParseHeader(old(i.rest)).msg)
  {
    var hash := i.GetFixed(HASH_LEN);
    if hash.Err? {
      return Err(hash.msg);
    }
    var w := GetWords(i);
    if w.Err? {
      return Err(w.msg);
    }
    r := Ok(Header(hash.value, w.value));
  }

  /** The rest of Credits(i, ver): skip the reserved bytes; for version 29 the checked key size, the key and its padding. */
  method ReadKeySection(i: InStream, ver: nat) returns (r: Result<bytes>)
    requires !i.bigEndian
    modifies i
    ensures ParseKeySection(old(i.rest), ver).Ok? ==>
      r == Ok(ParseKeySection(old(i.rest), ver).value.0) && i.rest == ParseKeySection(old(i.rest), ver).value.1
    ensures ParseKeySection(old(i.rest), ver).Err? ==> r == Err(ParseKeySection(old(i.rest), ver).msg)
  {
    i.SeekForward(2);
    if ver != CM_VER29 {
      return Ok([]);
    }
    var keySize := i.GetVal(1);
    if keySize.Err? {
      return Err(keySize.msg);
    }
    if keySize.value > ED2K_MAX_KEY_SIZE {
      return Err(CheckFailed("keySize <= ED2K_MaxKeySize"));
    }
    var key := i.GetFixed(keySize.value);
    if key.Err? {
      return Err(key.msg);
    }
    i.SeekForward(ED2K_MAX_KEY_SIZE - keySize.value);
    r := Ok(key.value);
  }

  /** Credits(i, ver) on a stream: the record ParseCredits reads, and the stream moved past it. */
  method ReadCredits(i: InStream, ver: nat, now: nat) returns (r: Result<Credits>)
    requires !i.bigEndian
    modifies i
    ensures ParseCredits(old(i.rest), ver, now).Ok? ==>
      r == Ok(ParseCredits(old(i.rest), ver, now).value.0) && i.rest == ParseCredits(old(i.rest), ver, now).value.1
    ensures ParseCredits(old(i.rest), ver, now).Err? ==> r == Err(ParseCredits(old(i.rest), ver, now).msg)
  {
    var h := ReadHeader(i);
    if h.Err? {
      return Err(h.msg);
    }
    var key := ReadKeySection(i, ver);
    if key.Err? {
      return Err(key.msg);
    }
    r := Ok(Join(h.value, now, key.value));
  }

  lemma {:induction false} ReadU32sOf(s: bytes, n: nat)
    ensures ReadU32s(s, n).Ok? <==> 4 * n <= |s|
    ensures ReadU32s(s, n).Ok? ==> (ReadU32s(s, n).value.1 == s[4 * n..]
      && forall j :: 0 <= j < n ==> ReadU32s(s, n).value.0[j] == FromLE(s[4 * j..4 * j + 4]))
    ensures ReadU32s(s, n).Err? ==> ReadU32s(s, n).msg == READ_ERROR
    decreases n
  {
    if n > 0 && 4 <= |s| {
      ReadU32sOf(s[4..], n - 1);
      var r := ReadU32s(s, n);
      if r.Ok? {
        forall j | 0 <= j < n
          ensures r.value.0[j] == FromLE(s[4 * j..4 * j + 4])
        {
          if j > 0 {
            assert s[4..][4 * (j - 1)..4 * (j - 1) + 4] == s[4 * j..4 * j + 4];
          }
        }
        assert s[4..][4 * (n - 1)..] == s[4 * n..];
      }
    }
  }
}
