/**
 * The core/GUI link of hncgcomm/cgcomm.cpp: Main::parse reassembles frames
 * (subsystem byte, u32 payload size, payload) out of arbitrarily cut chunks
 * and hands each complete frame to the subsystem registered for it;
 * SubSysBase::sendPacket builds such frames; SharedFilesList::handle keeps a
 * map from file id to file that OC_REMOVE and OC_CHANGEID update.
 */
module CGComm {
  import opened Wrappers
  import opened Streams

  /** One frame handed to a subsystem: its code and the payload. */
  datatype Frame = Frame(subsys: byte, payload: bytes)

  const HEADER := 5
  const U32: nat := 0x1_0000_0000

  /** The payload size in a frame header. */
  function SizeOf(buf: bytes): nat
    requires |buf| >= HEADER
  {
    FromLE(buf[1..HEADER])
  }

  /** The frame at the front of buf is complete. */
  predicate FrameReady(buf: bytes) {
    |buf| >= HEADER && |buf| >= SizeOf(buf) + HEADER
  }

  // ---------------------------------------------------------------- parse

  /**
   * What Main::parse does with the buffered bytes: every complete frame is
   * removed, the ones for a registered subsystem are handed on in order, and
   * the incomplete tail is kept.
   */
  function Frames(buf: bytes, known: set<byte>): (r: (seq<Frame>, bytes))
    decreases |buf|
  {
    if !FrameReady(buf) then ([], buf)
    else
      var size := SizeOf(buf);
      var next := Frames(buf[size + HEADER..], known);
      (if buf[0] in known then [Frame(buf[0], buf[HEADER..size + HEADER])] + next.0 else next.0, next.1)
  }

  /** What is kept is a suffix of the buffer holding no complete frame. */
  lemma {:induction false} FramesRest(buf: bytes, known: set<byte>)
    ensures !FrameReady(Frames(buf, known).1)
    ensures |Frames(buf, known).1| <= |buf|
    ensures Frames(buf, known).1 == buf[|buf| - |Frames(buf, known).1|..]
    decreases |buf|
  {
    if FrameReady(buf) {
      var k := SizeOf(buf) + HEADER;
      FramesRest(buf[k..], known);
      var rest := Frames(buf[k..], known).1;
      assert buf[k..][|buf[k..]| - |rest|..] == buf[|buf| - |rest|..];
    }
  }

  /** Only registered subsystems receive frames. */
  lemma {:induction false} FramesKnown(buf: bytes, known: set<byte>)
    ensures forall j :: 0 <= j < |Frames(buf, known).0| ==> Frames(buf, known).0[j].subsys in known
    decreases |buf|
  {
    if FrameReady(buf) {
      FramesKnown(buf[SizeOf(buf) + HEADER..], known);
    }
  }

  /** More bytes after a complete frame do not change how it is read. */
  lemma FrameReadyExtends(buf: bytes, more: bytes)
    requires FrameReady(buf)
    ensures FrameReady(buf + more) && SizeOf(buf + more) == SizeOf(buf)
    ensures (buf + more)[..SizeOf(buf) + HEADER] == buf[..SizeOf(buf) + HEADER]
    ensures (buf + more)[SizeOf(buf) + HEADER..] == buf[SizeOf(buf) + HEADER..] + more
  {
    assert (buf + more)[1..HEADER] == buf[1..HEADER];
  }

  /** The frame at the front of a complete buffer, if its subsystem is registered. */
  function Head(buf: bytes, known: set<byte>): seq<Frame>
    requires FrameReady(buf)
  {
    if buf[0] in known then [Frame(buf[0], buf[HEADER..SizeOf(buf) + HEADER])] else []
  }

  lemma FramesUnfold(buf: bytes, known: set<byte>)
    requires FrameReady(buf)
    ensures Frames(buf, known).0 == Head(buf, known) + Frames(buf[SizeOf(buf) + HEADER..], known).0
    ensures Frames(buf, known).1 == Frames(buf[SizeOf(buf) + HEADER..], known).1
  {
  }

  lemma HeadExtends(buf: bytes, more: bytes, known: set<byte>)
    requires FrameReady(buf)
    ensures FrameReady(buf + more) && SizeOf(buf + more) == SizeOf(buf)
    ensures Head(buf + more, known) == Head(buf, known)
    ensures (buf + more)[SizeOf(buf) + HEADER..] == buf[SizeOf(buf) + HEADER..] + more
  {
    FrameReadyExtends(buf, more);
    var k := SizeOf(buf) + HEADER;
    assert (buf + more)[HEADER..k] == buf[HEADER..k];
  }

  /**
   * Reading a buffer in two chunks gives the frames of the first chunk, then the
   * frames of what it left plus the second chunk: the cut does not matter.
   */
  lemma {:induction false} FramesSplit(a: bytes, b: bytes, known: set<byte>)
    ensures Frames(a + b, known).0 == Frames(a, known).0 + Frames(Frames(a, known).1 + b, known).0
    ensures Frames(a + b, known).1 == Frames(Frames(a, known).1 + b, known).1
    decreases |a|
  {
    if FrameReady(a) {
      var k := SizeOf(a) + HEADER;
      HeadExtends(a, b, known);
      FramesUnfold(a, known);
      FramesUnfold(a + b, known);
      FramesSplit(a[k..], b, known);
      ConcatAssoc(Head(a, known), Frames(a[k..], known).0, Frames(Frames(a[k..], known).1 + b, known).0);
    } else {
      assert [] + Frames(a + b, known).0 == Frames(a + b, known).0;
    }
  }

  /**
   * The core/GUI dispatcher: the registered subsystems, each under its own
   * identity (the SubSysBase pointer) with its code, the bytes not yet
   * parsed, and the frames handed on.
   */
  class Main {
    var buffer: bytes
    var subsystems: map<nat, byte>
    var dispatched: seq<Frame>

    constructor ()
      ensures buffer == [] && subsystems == map[] && dispatched == []
    {
      buffer, subsystems, dispatched := [], map[], [];
    }

    /** addSubSys: the unique identity index refuses a subsystem registered already. */
    method AddSubSys(sys: nat, code: byte)
      modifies this
      ensures subsystems == if sys in old(subsystems) then old(subsystems) else old(subsystems)[sys := code]
      ensures sys in subsystems && subsystems.Values == old(subsystems).Values + {subsystems[sys]}
      ensures buffer == old(buffer) && dispatched == old(dispatched)
    {
      if sys !in subsystems {
        ValuesOfAdded(subsystems, sys, code);
        subsystems := subsystems[sys := code];
      }
    }

    /** delSubSys: erases that subsystem only; others under the same code stay registered. */
    method DelSubSys(sys: nat)
      modifies this
      ensures subsystems == old(subsystems) - {sys}
      ensures buffer == old(buffer) && dispatched == old(dispatched)
    {
      subsystems := subsystems - {sys};
    }

    /** Main::parse(data), with the header threshold and the u32 size arithmetic corrected. */
    method Parse(data: bytes)
      modifies this
      ensures subsystems == old(subsystems)
      ensures dispatched == old(dispatched) + Frames(old(buffer) + data, subsystems.Values).0
      ensures buffer == Frames(old(buffer) + data, subsystems.Values).1
    {
      buffer := buffer + data;
      var known := subsystems.Values;
      ghost var whole := buffer;
      assert dispatched + [] == dispatched;
      while FrameReady(buffer)
        invariant subsystems == old(subsystems)
        invariant old(dispatched) + Frames(whole, known).0 == dispatched + Frames(buffer, known).0
        invariant Frames(whole, known).1 == Frames(buffer, known).1
        decreases |buffer|
      {
        var subsys := buffer[0];
        var size := FromLE(buffer[1..5]);
        var f := if subsys in known then [Frame(subsys, buffer[5..size + 5])] else [];
        ConcatAssoc(dispatched, f, Frames(buffer[size + 5..], known).0);
        if subsys in known {
          dispatched := dispatched + [Frame(subsys, buffer[5..size + 5])];
        }
        buffer := buffer[size + 5..];
      }
      assert Frames(buffer, known).0 == [];
      assert dispatched + [] == dispatched;
    }
  }

  /** Registering a new subsystem adds exactly its code to the registered codes. */
  lemma ValuesOfAdded(subs: map<nat, byte>, sys: nat, code: byte)
    requires sys !in subs
    ensures subs[sys := code].Values == subs.Values + {code}
  {
    var m := subs[sys := code];
    forall c | c in subs.Values
      ensures c in m.Values
    {
      var k :| k in subs && subs[k] == c;
      assert m[k] == c;
    }
    assert m[sys] == code;
  }

  /**
   * Two subsystems under one code: deleting one leaves the code registered,
   * so its frames still reach the other.
   */
  lemma DelKeepsSharedCode(subs: map<nat, byte>, a: nat, b: nat)
    requires a in subs && b in subs && a != b && subs[a] == subs[b]
    ensures subs[a] in (subs - {a}).Values
  {
    assert (subs - {a})[b] == subs[a];
  }

  // ---------------------------------------------------------------- sendPacket

  /** SubSysBase::sendPacket: subsystem code, u32 size, then the data. */
  function SendPacket(subCode: byte, data: bytes): (r: bytes)
    ensures |r| == HEADER + |data|
  {
    [subCode] + PutLE(|data|, 4) + data
  }

  /** A frame built by sendPacket is complete, and parse hands exactly that frame on and keeps what follows. */
  lemma {:induction false} ParseSendPacket(subCode: byte, data: bytes, rest: bytes, known: set<byte>)
    requires |data| < U32
    ensures Frames(SendPacket(subCode, data) + rest, known).0 ==
      (if subCode in known then [Frame(subCode, data)] else []) + Frames(rest, known).0
    ensures Frames(SendPacket(subCode, data) + rest, known).1 == Frames(rest, known).1
  {
    var buf := SendPacket(subCode, data) + rest;
    assert Pow256(4) == U32;
    assert buf[1..HEADER] == LE(|data|, 4);
    LERoundTrip(|data|, 4);
    assert buf[HEADER..|data| + HEADER] == data;
    assert buf[|data| + HEADER..] == rest;
  }

  /** The bytes of several frames sent one after the other. */
  function Sent(frames: seq<Frame>): bytes {
    if frames == [] then [] else SendPacket(frames[0].subsys, frames[0].payload) + Sent(frames[1..])
  }

  function ForKnown(frames: seq<Frame>, known: set<byte>): (r: seq<Frame>)
    ensures forall j :: 0 <= j < |r| ==> r[j].subsys in known
  {
    if frames == [] then []
    else (if frames[0].subsys in known then [frames[0]] else []) + ForKnown(frames[1..], known)
  }

  /** Sent frames are all handed on, in order, to the subsystems that are registered; nothing is kept. */
  lemma {:induction false} ParseSent(frames: seq<Frame>, known: set<byte>)
    requires forall j :: 0 <= j < |frames| ==> |frames[j].payload| < U32
    ensures Frames(Sent(frames), known) == (ForKnown(frames, known), [])
  {
    if frames != [] {
      ParseSent(frames[1..], known);
      ParseSendPacket(frames[0].subsys, frames[0].payload, Sent(frames[1..]), known);
    }
  }

  /** However the sent bytes are cut into chunks, feeding the chunks in turn hands on the same frames. */
  lemma ParseAnyCut(frames: seq<Frame>, k: nat, known: set<byte>)
    requires forall j :: 0 <= j < |frames| ==> |frames[j].payload| < U32
    requires k <= |Sent(frames)|
    ensures Frames(Sent(frames)[..k], known).0 + Frames(Frames(Sent(frames)[..k], known).1 + Sent(frames)[k..], known).0
      == ForKnown(frames, known)
  {
    var s := Sent(frames);
    assert s[..k] + s[k..] == s;
    FramesSplit(s[..k], s[k..], known);
    ParseSent(frames, known);
  }

  // ---------------------------------------------------------------- parse as written

  /**
   * One pass of the loop in Main::parse as written: it runs only while at least six
   * bytes are buffered, and computes size + 5 in 32 bits, both for the completeness
   * check and for the number of bytes erased. None when the loop stops.
   */
  function ParseStepAsWritten(buf: bytes, known: set<byte>): Option<(seq<Frame>, bytes)> {
    if |buf| < 6 then None
    else
      var size := SizeOf(buf);
      var total := (size + HEADER) % U32;
      if |buf| < total then None
      else
        var end := if size + HEADER <= |buf| then size + HEADER else |buf|;
        Some((if buf[0] in known then [Frame(buf[0], buf[HEADER..end])] else [], buf[total..]))
  }

  /** A frame with an empty payload is not handed on until some later byte arrives. */
  lemma HeaderOnlyFrameWaits(subCode: byte)
    ensures ParseStepAsWritten(SendPacket(subCode, []), {subCode}) == None
    ensures Frames(SendPacket(subCode, []), {subCode}) == ([Frame(subCode, [])], [])
  {
    ParseSendPacket(subCode, [], [], {subCode});
    assert Frames([], {subCode}) == ([], []);
    assert [Frame(subCode, [])] + [] == [Frame(subCode, [])];
    assert SendPacket(subCode, []) + [] == SendPacket(subCode, []);
  }

  /**
   * A header announcing 2^32 - 5 bytes makes size + 5 wrap to zero: the frame is
   * handed on, nothing is erased, and the loop condition still holds, so parse
   * never returns. The corrected reader waits for the payload instead.
   */
  lemma WrappedSizeSpins(subCode: byte, b: byte)
    ensures ParseStepAsWritten([subCode, 0xFB, 0xFF, 0xFF, 0xFF, b], {}) == Some(([], [subCode, 0xFB, 0xFF, 0xFF, 0xFF, b]))
    ensures Frames([subCode, 0xFB, 0xFF, 0xFF, 0xFF, b], {}) == ([], [subCode, 0xFB, 0xFF, 0xFF, 0xFF, b])
  {
    var buf: bytes := [subCode, 0xFB, 0xFF, 0xFF, 0xFF, b];
    assert buf[1..HEADER] == [0xFB, 0xFF, 0xFF, 0xFF];
    assert FromLE([0xFB, 0xFF, 0xFF, 0xFF]) == U32 - 5;
    assert buf[0..] == buf;
  }

  // ---------------------------------------------------------------- SharedFilesList

  /** The fields of a shared-file entry that the id change touches. */
  datatype SharedFile = SharedFile(id: nat, name: string, size: nat)

  /** Every entry is filed under its own id. */
  predicate KeysMatchIds(list: map<nat, SharedFile>) {
    forall id :: id in list ==> list[id].id == id
  }

  /** The shared-files list of the GUI side, keyed by file id. */
  class SharedFilesList {
    var list: map<nat, SharedFile>

    constructor ()
      ensures list == map[]
    {
      list := map[];
    }

    predicate Valid()
      reads this
    {
      KeysMatchIds(list)
    }

    /** OC_REMOVE: drop the entry with that id, if there is one. */
    method Remove(id: nat)
      modifies this
      ensures list == old(list) - {id}
      ensures old(Valid()) ==> Valid()
    {
      if id in list {
        list := list - {id};
      }
    }

    /** OC_CHANGEID: move the entry filed under oldId to newId and give it the new id. */
    method ChangeId(oldId: nat, newId: nat)
      modifies this
      ensures oldId !in old(list) ==> list == old(list)
      ensures oldId in old(list) ==> list == (old(list) - {oldId})[newId := old(list)[oldId].(id := newId)]
      ensures old(Valid()) ==> Valid()
    {
      if oldId in list {
        var obj := list[oldId];
        list := list - {oldId};
        obj := obj.(id := newId);
        list := list[newId := obj];
      }
    }

    /** SharedFilesList::handle for OC_REMOVE and OC_CHANGEID, with the ids read from the packet after the opcode. */
    method HandleIds(packet: bytes, changeId: bool) returns (r: Result<()>)
      modifies this
      ensures r.Ok? <==> |packet| >= (if changeId then 8 else 4)
      ensures r.Err? ==> list == old(list)
      ensures r.Ok? && !changeId ==> list == old(list) - {FromLE(packet[..4])}
      ensures r.Ok? && changeId ==> list == ChangedId(old(list), FromLE(packet[..4]), FromLE(packet[4..8]))
    {
      var first := ReadUint(packet, 4, false);
      if first.Err? {
        return Err(first.msg);
      }
      assert packet[..4] == packet[..4];
      if !changeId {
        Remove(first.value.0);
        return Ok(());
      }
      var second := ReadUint(first.value.1, 4, false);
      if second.Err? {
        return Err(second.msg);
      }
      assert first.value.1[..4] == packet[4..8];
      ChangeId(first.value.0, second.value.0);
      r := Ok(());
    }
  }

  /** The list after OC_CHANGEID. */
  function ChangedId(list: map<nat, SharedFile>, oldId: nat, newId: nat): map<nat, SharedFile> {
    if oldId in list then (list - {oldId})[newId := list[oldId].(id := newId)] else list
  }

  /**
   * OC_CHANGEID files the old entry under the new id and leaves every other id alone,
   * except that an entry already filed under newId is replaced.
   */
  lemma ChangedIdEffect(list: map<nat, SharedFile>, oldId: nat, newId: nat, other: nat)
    requires oldId in list && other != oldId && other != newId
    ensures newId in ChangedId(list, oldId, newId) && ChangedId(list, oldId, newId)[newId].id == newId
    ensures ChangedId(list, oldId, newId)[newId].name == list[oldId].name
    ensures oldId != newId ==> oldId !in ChangedId(list, oldId, newId)
    ensures other in ChangedId(list, oldId, newId) <==> other in list
    ensures other in list ==> ChangedId(list, oldId, newId)[other] == list[other]
  {
  }

  /** Rekeying keeps every entry filed under its own id. */
  lemma ChangedIdValid(list: map<nat, SharedFile>, oldId: nat, newId: nat)
    requires KeysMatchIds(list)
    ensures KeysMatchIds(ChangedId(list, oldId, newId))
  {
  }
}
