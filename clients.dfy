/**
 * The eD2k client accessors of hncore/ed2k/clients.h: the features word a
 * client announces in its hello packet (flags and 4-bit protocol versions),
 * the client software word (software code and version fields), the
 * low-ID/high-ID split of client IDs, and the software names of getSoft in
 * hncore/ed2k/clients.cpp.
 *
 * The C++ fields are uint32_t; here they are bv32, and the accessors are the
 * same shifts and masks.
 */
module Clients {
  import opened Wrappers
  import opened Streams
  import opened Utils

  // ---------------------------------------------------------------- features

  function SupportsPreview(f: bv32): bool { f & 0x01 != 0 }
  function SupportsMultiPacket(f: bv32): bool { f & 0x02 != 0 }

  /** supportsViewShared() as written: the mask is the complement of bit 2, so any other bit answers yes. */
  function SupportsViewSharedAsWritten(f: bv32): bool { f & !0x04 != 0 }

  /** supportsViewShared() as the other accessors read a flag: bit 2. */
  function SupportsViewShared(f: bv32): bool { f & 0x04 != 0 }

  function SupportsPeerCache(f: bv32): bool { f & 0x08 != 0 }

  /** The 4-bit version fields: getCommentVer() to getUdpVer(), each a uint8_t. */
  function CommentVer(f: bv32): (v: bv8) ensures v < 16 { ((f >> 4) & 0x0f) as bv8 }
  function ExtReqVer(f: bv32): (v: bv8) ensures v < 16 { ((f >> 8) & 0x0f) as bv8 }
  function SrcExchVer(f: bv32): (v: bv8) ensures v < 16 { ((f >> 12) & 0x0f) as bv8 }
  function SecIdentVer(f: bv32): (v: bv8) ensures v < 16 { ((f >> 16) & 0x0f) as bv8 }
  function ComprVer(f: bv32): (v: bv8) ensures v < 16 { ((f >> 20) & 0x0f) as bv8 }
  function UdpVer(f: bv32): (v: bv8) ensures v < 16 { ((f >> 24) & 0x0f) as bv8 }
  function SupportsUnicode(f: bv32): bool { (f >> 28) & 0x01 != 0 }
  function AICHVer(f: bv32): (v: bv8) ensures v < 8 { ((f >> 29) & 0x07) as bv8 }

  /** What a features word announces, field by field. */
  datatype Features = Features(
    preview: bool, multiPacket: bool, viewShared: bool, peerCache: bool,
    commentVer: bv8, extReqVer: bv8, srcExchVer: bv8, secIdentVer: bv8,
    comprVer: bv8, udpVer: bv8, unicode: bool, aichVer: bv8)

  /** Every version fits its field. */
  predicate FeaturesValid(x: Features) {
    x.commentVer < 16 && x.extReqVer < 16 && x.srcExchVer < 16 && x.secIdentVer < 16
    && x.comprVer < 16 && x.udpVer < 16 && x.aichVer < 8
  }

  function Flag(b: bool): bv32 { if b then 1 else 0 }

  /** The features word a client with these features sends: the layout the accessors read. */
  function EncodeFeatures(x: Features): bv32 {
    Flag(x.preview) | (Flag(x.multiPacket) << 1) | (Flag(x.viewShared) << 2) | (Flag(x.peerCache) << 3)
    | ((x.commentVer as bv32) << 4) | ((x.extReqVer as bv32) << 8) | ((x.srcExchVer as bv32) << 12)
    | ((x.secIdentVer as bv32) << 16) | ((x.comprVer as bv32) << 20) | ((x.udpVer as bv32) << 24)
    | (Flag(x.unicode) << 28) | ((x.aichVer as bv32) << 29)
  }

  /** The accessors, read together. */
  function DecodeFeatures(f: bv32): (x: Features)
    ensures FeaturesValid(x)
  {
    Features(SupportsPreview(f), SupportsMultiPacket(f), SupportsViewShared(f), SupportsPeerCache(f),
      CommentVer(f), ExtReqVer(f), SrcExchVer(f), SecIdentVer(f), ComprVer(f), UdpVer(f),
      SupportsUnicode(f), AICHVer(f))
  }

  /** The accessors read back exactly the fields a features word was built from. */
  lemma FeaturesRoundTrip(x: Features)
    requires FeaturesValid(x)
    ensures DecodeFeatures(EncodeFeatures(x)) == x
  {
  }

  /** The fields cover the whole word: nothing in it is outside a field. */
  lemma FeaturesCover(f: bv32)
    ensures EncodeFeatures(DecodeFeatures(f)) == f
  {
  }

  /**
   * As written, supportsViewShared() is false for a client that announces
   * only view-shared support (0x04) and true for one that announces only
   * preview support (0x01).
   */
  lemma ViewSharedAsWrittenWrong()
    ensures !SupportsViewSharedAsWritten(0x04) && SupportsViewShared(0x04)
    ensures SupportsViewSharedAsWritten(0x01) && !SupportsViewShared(0x01)
  {
  }

  /** As written, the answer is yes exactly when some bit other than bit 2 is set. */
  lemma ViewSharedAsWrittenMeans(f: bv32)
    ensures SupportsViewSharedAsWritten(f) <==> f != 0 && f != 0x04
  {
  }

  // ------------------------------------------------------------------ IDs

  const LOW_ID_LIMIT: nat := 0x00ff_ffff

  function IsLowId(id: nat): bool { id < LOW_ID_LIMIT }
  function IsHighId(id: nat): bool { id > LOW_ID_LIMIT }

  /** No ID is both low and high; 0x00ffffff itself is neither. */
  lemma LowHighIds(id: nat)
    ensures !(IsLowId(id) && IsHighId(id))
    ensures IsLowId(id) || IsHighId(id) <==> id != LOW_ID_LIMIT
  {
  }

  // ------------------------------------------------------- client software

  /** getClientSoft(): the top byte. */
  function ClientSoft(s: bv32): bv8 { (s >> 24) as bv8 }

  function VerMjr(s: bv32): (v: bv32) ensures v < 128 { (s >> 17) & 0x7f }
  function VerMin(s: bv32): (v: bv32) ensures v < 128 { (s >> 10) & 0x7f }
  function VerPch(s: bv32): (v: bv32) ensures v < 8 { (s >> 7) & 0x07 }
  function VerBld(s: bv32): (v: bv32) ensures v < 128 { s & 0x7f }

  /** A client software word, field by field. */
  datatype SoftVersion = SoftVersion(soft: bv8, mjr: bv32, min: bv32, pch: bv32, bld: bv32)

  predicate SoftValid(v: SoftVersion) {
    v.mjr < 128 && v.min < 128 && v.pch < 8 && v.bld < 128
  }

  /** The software word with these fields: software in the top byte, then major, minor, patch and build. */
  function EncodeSoft(v: SoftVersion): bv32 {
    ((v.soft as bv32) << 24) | (v.mjr << 17) | (v.min << 10) | (v.pch << 7) | v.bld
  }

  function DecodeSoft(s: bv32): (v: SoftVersion)
    ensures SoftValid(v)
  {
    SoftVersion(ClientSoft(s), VerMjr(s), VerMin(s), VerPch(s), VerBld(s))
  }

  /** The version accessors read back the fields a software word was built from. */
  lemma SoftRoundTrip(v: SoftVersion)
    requires SoftValid(v)
    ensures DecodeSoft(EncodeSoft(v)) == v
  {
  }

  /** The five fields cover the word. */
  lemma SoftCover(s: bv32)
    ensures EncodeSoft(DecodeSoft(s)) == s
  {
  }

  /** Utils::hexDump(val): "0x", a leading zero below 16, then std::hex. */
  function HexDump(v: nat): string {
    "0x" + (if v < 16 then "0" else "") + HexNumber(v)
  }

  /** A byte is dumped as "0x" and its two hex digits. */
  lemma HexDumpByte(v: nat)
    requires v < 256
    ensures HexDump(v) == "0x" + HexPair(v as byte)
  {
    if v < 16 {
      assert DigitChar(0) == '0';
    } else {
      assert HexNumber(v) == HexNumber(v / 16) + [DigitChar(v % 16)];
    }
  }

  /** The codes getSoft names, with the names. */
  function KnownSoft(c: nat): (r: Option<string>)
    ensures r.Some? ==> |r.value| > 0 && r.value[0] != 'U'
  {
    match c
    case 0x00 => Some("eMule")
    case 0x01 => Some("cDonkey")
    case 0x02 => Some("(l/x)mule")
    case 0x03 => Some("aMule")
    case 0x04 => Some("Shareaza")
    case 0x28 => Some("Shareaza")
    case 0x05 => Some("eMulePlus")
    case 0x06 => Some("Hydranode")
    case 0x0a => Some("MLDonkey")
    case 0x14 => Some("lphant")
    case 0x3c => Some("eDonkeyHybrid")
    case 0x3d => Some("eDonkey")
    case 0x3e => Some("OldMLDonkey")
    case 0x3f => Some("OldeMule")
    case 0x98 => Some("MLDonkey")
    case _ => None
  }

  /** The name getSoft() gives a software code: its own, else "Unknown" and the code in hex (CS_UNKNOWN among them). */
  function SoftName(c: nat): string {
    match KnownSoft(c)
    case Some(name) => name
    case None => "Unknown " + HexDump(c)
  }

  /** getSoft(): the name of the top byte of the software word. */
  function GetSoft(s: bv32): string {
    SoftName(ClientSoft(s) as nat)
  }

  /** Bytes with the same two hex digits are equal. */
  lemma HexPairInjective(a: byte, b: byte)
    ensures HexPair(a) == HexPair(b) <==> a == b
  {
    if HexPair(a) == HexPair(b) {
      assert DigitValue(HexPair(a)[0]) == a / 16 && DigitValue(HexPair(a)[1]) == a % 16;
      assert DigitValue(HexPair(b)[0]) == b / 16 && DigitValue(HexPair(b)[1]) == b % 16;
    }
  }

  /** An unknown code is named by its two hex digits, so different unknown codes get different names. */
  lemma UnknownSoftDistinct(c1: nat, c2: nat)
    requires c1 < 256 && c2 < 256 && KnownSoft(c1) == None && KnownSoft(c2) == None
    ensures SoftName(c1) == "Unknown 0x" + HexPair(c1)
    ensures SoftName(c1) == SoftName(c2) <==> c1 == c2
  {
    HexDumpByte(c1);
    HexDumpByte(c2);
    HexPairInjective(c1, c2);
    if SoftName(c1) == SoftName(c2) {
      assert SoftName(c1)[10..] == HexPair(c1);
      assert SoftName(c2)[10..] == HexPair(c2);
    }
  }

  /** The name of a known code is its own, and never reads as that of an unknown one. */
  lemma KnownSoftNamed(c: nat)
    requires KnownSoft(c).Some?
    ensures SoftName(c) == KnownSoft(c).value
    ensures SoftName(c)[0] != 'U'
  {
  }
}
