/**
 * The text encoders of hnbase/utils.cpp: hexadecimal (`decode` turns bytes
 * into hex text, `encode` turns hex text back into bytes, `hex2dec` reads one
 * digit), Base64 (`encode64`/`decode64`), `urlEncode` and `secondsToString`,
 * together with the `std::dec`/`std::hex` number formatting they rely on.
 *
 * Binary data (a std::string holding raw bytes) is a `bytes` value; text is a
 * `string`. A `char` read from a std::string is a byte, so only the code
 * points 0-255 occur in text that came from binary data.
 */
module Utils {
  import opened Wrappers
  import opened Streams

  const HEX_ERROR := "Hash::hex2dec: c > 15. Possibly input is not well-formed hexadecimal character."
  /** The text CheckFailed gives for encode's final check, s.size() == length/2. */
  const SIZE_ERROR := "Check `s.size() == length/2' failed"

  // ------------------------------------------------------ number formatting

  predicate IsDecChar(c: char) { '0' <= c <= '9' }

  predicate IsLowerHexChar(c: char) { '0' <= c <= '9' || 'a' <= c <= 'f' }

  /** The lowercase digit for d, as `std::hex` prints it. */
  function DigitChar(d: nat): (c: char)
    requires d < 16
    ensures IsLowerHexChar(c)
    ensures d < 10 ==> IsDecChar(c)
  {
    if d < 10 then ('0' as int + d) as char else ('a' as int + d - 10) as char
  }

  /** The value of a lowercase hex or decimal digit: the inverse of DigitChar. */
  function DigitValue(c: char): (d: nat)
    requires IsLowerHexChar(c)
    ensures d < 16 && DigitChar(d) == c
    ensures IsDecChar(c) ==> d < 10
  {
    if c <= '9' then c as int - '0' as int else c as int - 'a' as int + 10
  }

  /** `o << n` in `std::dec`: the decimal digits of n without leading zeros. */
  function Decimal(n: nat): (r: string)
    ensures |r| >= 1
    ensures forall i :: 0 <= i < |r| ==> IsDecChar(r[i])
  {
    if n < 10 then [DigitChar(n)] else Decimal(n / 10) + [DigitChar(n % 10)]
  }

  /** `o << std::hex << n`: the lowercase hex digits of n without leading zeros. */
  function HexNumber(n: nat): (r: string)
    ensures |r| >= 1
    ensures forall i :: 0 <= i < |r| ==> IsLowerHexChar(r[i])
  {
    if n < 16 then [DigitChar(n)] else HexNumber(n / 16) + [DigitChar(n % 16)]
  }

  /** The number a digit string denotes in the given base (a reference reading of Decimal and HexNumber). */
  function DigitsValue(s: string, base: nat): (n: nat)
    requires base == 10 || base == 16
    requires forall i :: 0 <= i < |s| ==> IsLowerHexChar(s[i])
  {
    if s == [] then 0 else DigitsValue(s[..|s| - 1], base) * base + DigitValue(s[|s| - 1])
  }

  lemma {:induction false} DecimalValue(n: nat)
    ensures DigitsValue(Decimal(n), 10) == n
  {
    if n >= 10 {
      DecimalValue(n / 10);
      var s := Decimal(n);
      assert s[..|s| - 1] == Decimal(n / 10);
    }
  }

  lemma {:induction false} HexNumberValue(n: nat)
    ensures DigitsValue(HexNumber(n), 16) == n
  {
    if n >= 16 {
      HexNumberValue(n / 16);
      var s := HexNumber(n);
      assert s[..|s| - 1] == HexNumber(n / 16);
    }
  }

  /** Decimal text has no leading zero, so different numbers print differently. */
  lemma DecimalInjective(m: nat, n: nat)
    requires Decimal(m) == Decimal(n)
    ensures m == n
  {
    DecimalValue(m);
    DecimalValue(n);
  }

  // ---------------------------------------------------------------- hex2dec

  /**
   * hex2dec: a digit '0'-'9' becomes 0-9 and a letter 'A'-'G' or 'a'-'g'
   * becomes 10-16; any other character keeps its code. A value above 15 is
   * an error. (The three `if`s of the source are exclusive: after one has
   * fired the value is below 'A'.)
   */
  function Hex2Dec(c: char): (r: Result<nat>)
    ensures r.Ok? <==> IsDecChar(c) || 'A' <= c <= 'F' || 'a' <= c <= 'f' || (c as int) < 16
    ensures r.Ok? ==> r.value <= 15
    ensures r.Err? ==> r.msg == HEX_ERROR
  {
    var v :=
      if '0' <= c <= '9' then c as int - '0' as int
      else if 'A' <= c <= 'G' then c as int - 'A' as int + 10
      else if 'a' <= c <= 'g' then c as int - 'a' as int + 10
      else c as int;
    if v > 15 then Err(HEX_ERROR) else Ok(v)
  }

  /** hex2dec reads every digit that DigitChar writes (and the upper-case letters alike). */
  lemma Hex2DecOfDigit(d: nat)
    requires d < 16
    ensures Hex2Dec(DigitChar(d)) == Ok(d)
    ensures 10 <= d ==> Hex2Dec(('A' as int + d - 10) as char) == Ok(d)
  {
  }

  // ------------------------------------------------- decode: bytes to hex text

  /** The two lowercase hex digits of a byte. */
  function HexPair(b: byte): (r: string)
    ensures |r| == 2 && IsLowerHexChar(r[0]) && IsLowerHexChar(r[1])
  {
    [DigitChar(b / 16), DigitChar(b % 16)]
  }

  /** The hex text of a byte string, two digits per byte. */
  function HexOf(data: bytes): (r: string)
    ensures |r| == 2 * |data|
  {
    if data == [] then [] else HexPair(data[0]) + HexOf(data[1..])
  }

  lemma {:induction false} HexOfAt(data: bytes, i: nat)
    requires i < |data|
    ensures HexOf(data)[2 * i..2 * i + 2] == HexPair(data[i])
  {
    if i > 0 {
      HexOfAt(data[1..], i - 1);
      assert HexOf(data)[2 * i..2 * i + 2] == HexOf(data[1..])[2 * (i - 1)..2 * (i - 1) + 2];
    }
  }

  lemma {:induction false} HexOfLower(data: bytes)
    ensures forall i :: 0 <= i < |HexOf(data)| ==> IsLowerHexChar(HexOf(data)[i])
  {
    if data != [] {
      HexOfLower(data[1..]);
      var h := HexOf(data);
      forall i | 0 <= i < |h| ensures IsLowerHexChar(h[i]) {
        if i >= 2 { assert h[i] == HexOf(data[1..])[i - 2]; }
      }
    }
  }

  lemma HexOfCons(data: bytes, i: nat)
    requires i < |data|
    ensures HexOf(data[i..]) == HexPair(data[i]) + HexOf(data[i + 1..])
  {
    assert data[i..][1..] == data[i + 1..];
  }

  /** `if (c < 16) o << "0"; o << std::hex << c` prints the two digits of the byte. */
  lemma PaddedHex(c: byte)
    ensures c < 16 ==> "0" + HexNumber(c) == HexPair(c)
    ensures 16 <= c ==> HexNumber(c) == HexPair(c)
  {
    if 16 <= c {
      assert HexNumber(c) == HexNumber(c / 16) + [DigitChar(c % 16)];
    }
  }

  lemma DecodeStep(data: bytes, i: nat, r0: string, r: string)
    requires i < |data| && HexOf(data) == r0 + HexOf(data[i..])
    requires r == r0 + HexPair(data[i])
    ensures HexOf(data) == r + HexOf(data[i + 1..])
  {
    HexOfCons(data, i);
    ConcatAssoc(r0, HexPair(data[i]), HexOf(data[i + 1..]));
  }

  /** decode(data, length): each byte as two lowercase hex digits, most significant first. */
  method Decode(data: bytes) returns (r: string)
    ensures r == HexOf(data)
  {
    r := "";
    var i := 0;
    assert data[0..] == data;
    while i < |data|
      invariant 0 <= i <= |data|
      invariant HexOf(data) == r + HexOf(data[i..])
    {
      var c := data[i];
      ghost var r0 := r;
      PaddedHex(c);
      if c < 16 {
        r := r + "0";
      }
      r := r + HexNumber(c);
      assert r == r0 + HexPair(c);
      DecodeStep(data, i, r0, r);
      i := i + 1;
    }
  }

  // ------------------------------------------------- encode: hex text to bytes

  /**
   * The bytes of hex text, two digits per byte. An odd length reads the
   * string's terminating NUL as the last low digit (hex2dec gives 0 for it),
   * and then fails the final size check.
   */
  function Unhex(data: string): (r: Result<bytes>)
    ensures r.Ok? ==> |data| % 2 == 0 && |r.value| == |data| / 2
  {
    if data == [] then Ok([])
    else
      var hi := Hex2Dec(data[0]);
      if hi.Err? then Err(hi.msg)
      else
        var lo := Hex2Dec(if |data| >= 2 then data[1] else 0 as char);
        if lo.Err? then Err(lo.msg)
        else if |data| == 1 then Err(SIZE_ERROR)
        else
          match Unhex(data[2..])
          case Err(e) => Err(e)
          case Ok(rest) => Ok([hi.value * 16 + lo.value] + rest)
  }

  /** encode(decode(x)) == x. */
  lemma {:induction false} UnhexOfHex(data: bytes)
    ensures Unhex(HexOf(data)) == Ok(data)
  {
    if data != [] {
      var h := HexOf(data);
      Hex2DecOfDigit(data[0] / 16);
      Hex2DecOfDigit(data[0] % 16);
      assert h[0] == DigitChar(data[0] / 16) && h[1] == DigitChar(data[0] % 16);
      assert h[2..] == HexOf(data[1..]);
      UnhexOfHex(data[1..]);
      assert data[0] / 16 * 16 + data[0] % 16 == data[0];
      assert data == [data[0]] + data[1..];
    }
  }

  /** Every byte of the result comes from a pair of hex digits of the input. */
  lemma {:induction false} UnhexAt(data: string, i: nat)
    requires Unhex(data).Ok? && i < |Unhex(data).value|
    ensures Hex2Dec(data[2 * i]).Ok? && Hex2Dec(data[2 * i + 1]).Ok?
    ensures Unhex(data).value[i] == Hex2Dec(data[2 * i]).value * 16 + Hex2Dec(data[2 * i + 1]).value
  {
    if i > 0 {
      UnhexAt(data[2..], i - 1);
    }
  }

  /** encode(data, length): pairs of hex digits back to bytes; the first bad digit throws. */
  method Encode(data: string) returns (r: Result<bytes>)
    ensures r == Unhex(data)
  {
    var s: bytes := [];
    var i := 0;
    assert data[0..] == data;
    PrependEmpty(Unhex(data));
    while i + 1 < |data|
      invariant 0 <= i <= |data| && i % 2 == 0
      invariant Unhex(data) == PrependOk(s, Unhex(data[i..]))
    {
      var hi := Hex2Dec(data[i]);
      if hi.Err? {
        assert Unhex(data[i..]) == Err(hi.msg);
        return Err(hi.msg);
      }
      var lo := Hex2Dec(data[i + 1]);
      if lo.Err? {
        assert Unhex(data[i..]) == Err(lo.msg);
        return Err(lo.msg);
      }
      UnhexStep(data, i);
      PrependAssoc(s, [hi.value * 16 + lo.value], Unhex(data[i + 2..]));
      s := s + [hi.value * 16 + lo.value];
      i := i + 2;
    }
    if i < |data| {
      assert data[i..] == [data[i]];
      assert Hex2Dec(0 as char) == Ok(0);
      var hi := Hex2Dec(data[i]);
      if hi.Err? {
        assert Unhex(data[i..]) == Err(hi.msg);
        return Err(hi.msg);
      }
      assert Unhex(data[i..]) == Err(SIZE_ERROR);
      return Err(SIZE_ERROR);
    }
    assert data[i..] == [];
    assert s + [] == s;
    r := Ok(s);
  }

  lemma UnhexStep(data: string, i: nat)
    requires i + 1 < |data| && Hex2Dec(data[i]).Ok? && Hex2Dec(data[i + 1]).Ok?
    ensures Unhex(data[i..]) ==
      PrependOk([Hex2Dec(data[i]).value * 16 + Hex2Dec(data[i + 1]).value], Unhex(data[i + 2..]))
  {
    assert data[i..][2..] == data[i + 2..];
  }

  lemma PrependEmpty(r: Result<bytes>)
    ensures PrependOk([], r) == r
  {
    if r.Ok? { assert [] + r.value == r.value; }
  }

  lemma PrependAssoc(s: bytes, t: bytes, r: Result<bytes>)
    ensures PrependOk(s, PrependOk(t, r)) == PrependOk(s + t, r)
  {
    if r.Ok? { assert s + (t + r.value) == (s + t) + r.value; }
  }

  /** s followed by the bytes of r, or r's error. */
  function PrependOk(s: bytes, r: Result<bytes>): (t: Result<bytes>)
    ensures t.Ok? <==> r.Ok?
  {
    match r
    case Ok(rest) => Ok(s + rest)
    case Err(e) => Err(e)
  }

  // ----------------------------------------------------------------- Base64

  /** Entry j of Base64Table: "A"-"Z", "a"-"z", "0"-"9", "+", "/". */
  function B64Char(j: nat): (c: char)
    requires j < 64
  {
    if j < 26 then ('A' as int + j) as char
    else if j < 52 then ('a' as int + j - 26) as char
    else if j < 62 then ('0' as int + j - 52) as char
    else if j == 62 then '+'
    else '/'
  }

  predicate IsB64Char(c: char) {
    'A' <= c <= 'Z' || 'a' <= c <= 'z' || '0' <= c <= '9' || c == '+' || c == '/'
  }

  /**
   * decode64's `tab[c]`: the index of c in Base64Table. A character that is
   * not in the table reads as 0 (std::map::operator[] inserts a zero).
   */
  function Sextet(c: char): (v: nat)
    ensures v < 64
    ensures IsB64Char(c) ==> B64Char(v) == c
  {
    if 'A' <= c <= 'Z' then c as int - 'A' as int
    else if 'a' <= c <= 'z' then c as int - 'a' as int + 26
    else if '0' <= c <= '9' then c as int - '0' as int + 52
    else if c == '+' then 62
    else if c == '/' then 63
    else 0
  }

  lemma SextetOfB64Char(j: nat)
    requires j < 64
    ensures IsB64Char(B64Char(j)) && Sextet(B64Char(j)) == j
  {
  }

  /** tmp[i]: a read at the end of a std::string gives its NUL; a read past that is modelled as NUL too. */
  function ByteAt(data: bytes, i: nat): byte {
    if i < |data| then data[i] else 0
  }

  /**
   * One output group for bytes b0, b1, b2 of which the first n are real: four
   * table characters of six bits each, with '=' in place of the characters
   * that only carry bits of bytes past the end.
   */
  function QuadOf(b0: byte, b1: byte, b2: byte, n: nat): (r: string)
    ensures |r| == 4
  {
    [B64Char(b0 / 4),
     B64Char(b0 % 4 * 16 + b1 / 16),
     if 2 <= n then B64Char(b1 % 16 * 4 + b2 / 64) else '=',
     if 3 <= n then B64Char(b2 % 64) else '=']
  }

  /** The group for the bytes at i, i+1, i+2. */
  function Quad(data: bytes, i: nat): (r: string)
    requires i < |data|
    ensures |r| == 4
  {
    QuadOf(data[i], ByteAt(data, i + 1), ByteAt(data, i + 2), |data| - i)
  }

  /** The line break encode64 emits after the group of byte i: after every 19th group (76 characters). */
  function LineBreak(i: nat): string {
    if i % 57 == 54 then "\n" else ""
  }

  /** encode64 from byte i on. */
  function Base64From(data: bytes, i: nat): (r: string)
    decreases |data| - i
  {
    if |data| <= i then "" else Quad(data, i) + LineBreak(i) + Base64From(data, i + 3)
  }

  /** The Base64 text of data, padded with '=' to whole groups of four. */
  function Base64(data: bytes): string {
    Base64From(data, 0)
  }

  /**
   * encode64, with the padding written into the last group (see Findings for
   * the source's version, which overwrites the last characters of the output
   * and so can overwrite a line break).
   */
  method Encode64(data: bytes) returns (ret: string)
    ensures ret == Base64(data)
  {
    ret := "";
    var i := 0;
    while i < |data|
      invariant Base64(data) == ret + Base64From(data, i)
      decreases |data| - i
    {
      var group := EncodeGroup(data, i);
      Encode64Step(data, i, ret, group);
      ret := ret + group;
      i := i + 3;
    }
  }

  /** The body of encode64's loop: the four characters for byte i and the line break after every 19th group. */
  method EncodeGroup(data: bytes, i: nat) returns (group: string)
    requires i < |data|
    ensures group == Quad(data, i) + LineBreak(i)
  {
    var b0, b1, b2 := data[i], ByteAt(data, i + 1), ByteAt(data, i + 2);
    group := [B64Char(b0 / 4), B64Char(b0 % 4 * 16 + b1 / 16)];
    group := group + [if i + 1 < |data| then B64Char(b1 % 16 * 4 + b2 / 64) else '='];
    group := group + [if i + 2 < |data| then B64Char(b2 % 64) else '='];
    if i % 57 == 54 {
      group := group + "\n";
    }
  }

  lemma Encode64Step(data: bytes, i: nat, ret: string, group: string)
    requires i < |data| && Base64(data) == ret + Base64From(data, i)
    requires group == Quad(data, i) + LineBreak(i)
    ensures Base64(data) == (ret + group) + Base64From(data, i + 3)
  {
    ConcatAssoc(ret, group, Base64From(data, i + 3));
  }

  // ------------------------------------------- encode64 as the source has it

  /** A char of the source's std::string: signed, so bytes 0x80-0xff are negative. */
  function SignedChar(b: byte): int {
    if b < 128 then b else b - 256
  }

  /**
   * `a | b` for a non-negative a whose low bits are clear where b may have
   * bits: the sum when b is non-negative. A negative b (all high bits set in
   * two's complement) gives a negative result; its exact value does not
   * matter, because any negative index reads before the table.
   */
  function OrBits(a: nat, b: int): int {
    if b < 0 then b else a + b
  }

  function TableAt(x: int): Option<char> {
    if 0 <= x < 64 then Some(B64Char(x)) else None
  }

  /**
   * The four characters the source appends for byte i, on signed chars
   * (`>>` of a negative char is floor division, `& m` is the non-negative
   * remainder); None when an index falls outside the table.
   */
  function RawQuad(data: bytes, i: nat): (r: Option<string>)
    requires i < |data|
    ensures r.Some? ==> |r.value| == 4
  {
    var s0, s1, s2 := SignedChar(data[i]), SignedChar(ByteAt(data, i + 1)), SignedChar(ByteAt(data, i + 2));
    var c0, c1, c2, c3 :=
      TableAt(s0 / 4), TableAt(OrBits(s0 % 4 * 16, s1 / 16)),
      TableAt(OrBits(s1 % 16 * 4, s2 / 64)), TableAt(s2 % 64);
    if c0.Some? && c1.Some? && c2.Some? && c3.Some? then Some([c0.value, c1.value, c2.value, c3.value])
    else None
  }

  function RawFrom(data: bytes, i: nat): (r: Option<string>)
    decreases |data| - i
  {
    if |data| <= i then Some("")
    else
      match (RawQuad(data, i), RawFrom(data, i + 3))
      case (Some(q), Some(rest)) => Some(q + LineBreak(i) + rest)
      case _ => None
  }

  /** encode64 as written: the groups, then '=' over the last one or two characters of the whole output. */
  function Encode64AsWritten(data: bytes): (r: Option<string>) {
    match RawFrom(data, 0)
    case None => None
    case Some(raw) =>
      if |data| % 3 == 1 && |raw| >= 2 then Some(raw[..|raw| - 2] + "==")
      else if |data| % 3 == 2 && |raw| >= 1 then Some(raw[..|raw| - 1] + "=")
      else Some(raw)
  }

  /** A byte of 0x80 or above makes the source index before the table. */
  lemma Encode64AsWrittenHighByte()
    ensures Encode64AsWritten([0x80]) == None
    ensures Base64([0x80]) == "gA=="
  {
    assert RawQuad([0x80], 0) == None;
    assert Base64From([0x80], 3) == "";
  }

  /** The last character of the encoding from group i on is that of the last group, the one at L. */
  lemma {:induction false} Base64Last(data: bytes, i: nat, L: nat)
    requires i <= L < |data| <= L + 3 && (L - i) % 3 == 0
    ensures |Base64From(data, i)| >= 4
    ensures Base64From(data, i)[|Base64From(data, i)| - 1] == if L % 57 == 54 then '\n' else Quad(data, L)[3]
    decreases |data| - i
  {
    if i < L {
      Base64Last(data, i + 3, L);
    } else {
      assert Base64From(data, i + 3) == "";
    }
  }

  lemma {:induction false} RawFromLength(data: bytes, i: nat)
    requires i < |data| && RawFrom(data, i).Some?
    ensures |RawFrom(data, i).value| >= 4
    decreases |data| - i
  {
  }

  /**
   * With 55 or 56 bytes, or any length 57k + 55 or 57k + 56, the last group
   * starts at an index i with i % 57 == 54 and is followed by a line break;
   * the corrected encoding keeps it, but the source writes its last '=' over
   * the line break.
   */
  lemma Encode64AsWrittenLosesLineBreak(data: bytes)
    requires (|data| % 57 == 55 || |data| % 57 == 56) && RawFrom(data, 0).Some?
    ensures Encode64AsWritten(data).Some?
    ensures Encode64AsWritten(data).value[|Encode64AsWritten(data).value| - 1] == '='
    ensures Base64(data)[|Base64(data)| - 1] == '\n'
  {
    var L := LastGroupAt(|data|);
    AsWrittenPadsEnd(data);
    Base64Last(data, 0, L);
  }

  /** The index of the last group for those lengths. */
  lemma LastGroupAt(n: nat) returns (L: nat)
    requires n % 57 == 55 || n % 57 == 56
    ensures L < n <= L + 3 && L % 3 == 0 && L % 57 == 54 && n % 3 != 0
  {
    var k, r := n / 57, n % 57;
    L := 57 * k + 54;
    ModOfLine(k, 54);
    ModOfGroup(19 * k + 18, 0);
    ModOfGroup(19 * k + 18, r - 54);
  }

  lemma ModOfLine(q: int, r: int)
    requires 0 <= r < 57
    ensures (57 * q + r) % 57 == r
  {
  }

  lemma ModOfGroup(q: int, r: int)
    requires 0 <= r < 3
    ensures (3 * q + r) % 3 == r
  {
  }

  /** When the length is not a multiple of 3, the source's output ends in '='. */
  lemma AsWrittenPadsEnd(data: bytes)
    requires |data| % 3 != 0 && RawFrom(data, 0).Some?
    ensures Encode64AsWritten(data).Some?
    ensures Encode64AsWritten(data).value[|Encode64AsWritten(data).value| - 1] == '='
  {
    RawFromLength(data, 0);
    var raw := RawFrom(data, 0).value;
    if |data| % 3 == 1 {
      assert Encode64AsWritten(data) == Some(raw[..|raw| - 2] + "==");
    } else {
      assert Encode64AsWritten(data) == Some(raw[..|raw| - 1] + "=");
    }
  }

  // ----------------------------------------------------------------- decode64

  /** boost::algorithm::erase_all(s, c): s without its c characters. */
  function Erased(s: string, c: char): (r: string)
    ensures |r| <= |s|
  {
    if s == [] then [] else (if s[0] == c then [] else [s[0]]) + Erased(s[1..], c)
  }

  /** std::count(s, c). */
  function CountChar(s: string, c: char): (n: nat)
    ensures n <= |s|
  {
    if s == [] then 0 else (if s[0] == c then 1 else 0) + CountChar(s[1..], c)
  }

  /** The two erase_all calls of decode64: the input without CR and LF. */
  function Strip(s: string): string {
    Erased(Erased(s, '\r'), '\n')
  }

  /** tmp[i] with the NUL read at (and, in this model, past) the end. */
  function CharAt(t: string, i: nat): char {
    if i < |t| then t[i] else 0 as char
  }

  /** t from index i on, or nothing once i is past the end. */
  function Drop(t: string, i: nat): (r: string)
    ensures |r| == if i <= |t| then |t| - i else 0
  {
    if i <= |t| then t[i..] else []
  }

  /**
   * The three bytes decoded from four table values. The source combines them
   * with `|`, but the operands never share a bit (the values are below 64),
   * so the ORs are sums and every result fits a byte.
   */
  function Combine(v0: nat, v1: nat, v2: nat, v3: nat): (r: bytes)
    requires v0 < 64 && v1 < 64 && v2 < 64 && v3 < 64
    ensures |r| == 3
  {
    [v0 * 4 + v1 / 16, v1 % 16 * 16 + v2 / 4, v2 % 4 * 64 + v3]
  }

  /** The three bytes decoded from the first four characters of t. */
  function Triple(t: string): (r: bytes)
    ensures |r| == 3
  {
    Combine(Sextet(CharAt(t, 0)), Sextet(CharAt(t, 1)), Sextet(CharAt(t, 2)), Sextet(CharAt(t, 3)))
  }

  /** decode64's loop over groups of four characters. */
  function Triples(t: string): (r: bytes)
    decreases |t|
  {
    if t == [] then [] else Triple(t) + Triples(Drop(t, 4))
  }

  /**
   * decode64: drop CR and LF, decode groups of four, then cut as many bytes
   * from the end as the input has '=' signs. The count is kept in a uint8_t,
   * and `ret.size() - remove` wraps around when remove is larger, so that
   * substr then keeps everything.
   */
  function Base64Decode(data: string): bytes {
    var raw := Triples(Strip(data));
    var remove := CountChar(data, '=') % 256;
    raw[..if remove <= |raw| then |raw| - remove else |raw|]
  }

  /** decode64's `tab`: a value read from it, with std::map::operator[]'s zero for a missing key. */
  function Lookup(tab: map<char, nat>, c: char): nat {
    if c in tab then tab[c] else 0
  }

  /** The loop that fills `tab` from Base64Table. */
  method BuildTable() returns (tab: map<char, nat>)
    ensures forall c :: Lookup(tab, c) == Sextet(c)
  {
    tab := map[];
    var j := 0;
    while j < 64
      invariant 0 <= j <= 64
      invariant forall c :: c in tab ==> IsB64Char(c) && tab[c] == Sextet(c)
      invariant forall k :: 0 <= k < j ==> B64Char(k) in tab
    {
      SextetOfB64Char(j);
      tab := tab[B64Char(j) := j];
      j := j + 1;
    }
    forall c ensures Lookup(tab, c) == Sextet(c) {
      if IsB64Char(c) {
        assert B64Char(Sextet(c)) in tab;
      }
    }
  }

  method Decode64(data: string) returns (ret: bytes)
    ensures ret == Base64Decode(data)
  {
    var tab := BuildTable();
    var tmp := Erased(data, '\r');
    tmp := Erased(tmp, '\n');
    ret := [];
    var i := 0;
    while i < |tmp|
      invariant Triples(tmp) == ret + Triples(Drop(tmp, i))
      decreases |tmp| - i
    {
      var group := DecodeGroup(tab, tmp, i);
      DecodeGroupStep(tmp, i, ret, group);
      ret := ret + group;
      i := i + 4;
    }
    assert Drop(tmp, i) == [];
    var remove := CountChar(data, '=') % 256;
    ret := ret[..if remove <= |ret| then |ret| - remove else |ret|];
  }

  /** The body of decode64's loop: three bytes from the four characters at i. */
  method DecodeGroup(tab: map<char, nat>, tmp: string, i: nat) returns (group: bytes)
    requires i < |tmp|
    requires forall c :: Lookup(tab, c) == Sextet(c)
    ensures group == Triple(Drop(tmp, i))
  {
    var v0, v1 := Lookup(tab, CharAt(tmp, i)), Lookup(tab, CharAt(tmp, i + 1));
    var v2, v3 := Lookup(tab, CharAt(tmp, i + 2)), Lookup(tab, CharAt(tmp, i + 3));
    var t := Drop(tmp, i);
    assert CharAt(t, 0) == CharAt(tmp, i) && CharAt(t, 1) == CharAt(tmp, i + 1);
    assert CharAt(t, 2) == CharAt(tmp, i + 2) && CharAt(t, 3) == CharAt(tmp, i + 3);
    group := Combine(v0, v1, v2, v3);
  }

  lemma DecodeGroupStep(t: string, i: nat, ret: bytes, group: bytes)
    requires i < |t| && Triples(t) == ret + Triples(Drop(t, i))
    requires group == Triple(Drop(t, i))
    ensures Triples(t) == (ret + group) + Triples(Drop(t, i + 4))
  {
    assert Drop(Drop(t, i), 4) == Drop(t, i + 4);
    ConcatAssoc(ret, group, Triples(Drop(t, i + 4)));
  }

  // ------------------------------------------------- decode64 of encode64

  lemma {:induction false} ErasedConcat(a: string, b: string, c: char)
    ensures Erased(a + b, c) == Erased(a, c) + Erased(b, c)
  {
    if a != [] {
      assert (a + b)[1..] == a[1..] + b;
      ErasedConcat(a[1..], b, c);
      ConcatAssoc(if a[0] == c then [] else [a[0]], Erased(a[1..], c), Erased(b, c));
    } else {
      assert a + b == b;
    }
  }

  lemma {:induction false} CountConcat(a: string, b: string, c: char)
    ensures CountChar(a + b, c) == CountChar(a, c) + CountChar(b, c)
  {
    if a != [] {
      assert (a + b)[1..] == a[1..] + b;
      CountConcat(a[1..], b, c);
    } else {
      assert a + b == b;
    }
  }

  /** The encoding without its line breaks. */
  function PlainFrom(data: bytes, i: nat): (r: string)
    decreases |data| - i
  {
    if |data| <= i then "" else Quad(data, i) + PlainFrom(data, i + 3)
  }

  /** The number of '=' that pad the last group when m bytes are left. */
  function PadCount(m: nat): (p: nat)
    ensures p <= 2
  {
    if m <= 3 then (3 - m) % 3 else PadCount(m - 3)
  }

  function Zeros(n: nat): (r: bytes)
    ensures |r| == n
  {
    if n == 0 then [] else [0] + Zeros(n - 1)
  }

  lemma {:induction false} ErasedAbsent(s: string, c: char)
    requires forall k :: 0 <= k < |s| ==> s[k] != c
    ensures Erased(s, c) == s
  {
    if s != [] {
      ErasedAbsent(s[1..], c);
    }
  }

  lemma Count4(q: string, c: char)
    requires |q| == 4
    ensures CountChar(q, c) == (if q[0] == c then 1 else 0) + (if q[1] == c then 1 else 0)
      + (if q[2] == c then 1 else 0) + (if q[3] == c then 1 else 0)
  {
    assert q[1..][1..] == q[2..];
    assert q[2..][1..] == q[3..];
    assert q[3..][1..] == [];
    assert CountChar(q[3..], c) == if q[3] == c then 1 else 0;
    assert CountChar(q[2..], c) == (if q[2] == c then 1 else 0) + CountChar(q[3..], c);
    assert CountChar(q[1..], c) == (if q[1] == c then 1 else 0) + CountChar(q[2..], c);
  }

  lemma QuadOfChars(b0: byte, b1: byte, b2: byte, n: nat)
    ensures Erased(QuadOf(b0, b1, b2, n), '\r') == QuadOf(b0, b1, b2, n)
    ensures Erased(QuadOf(b0, b1, b2, n), '\n') == QuadOf(b0, b1, b2, n)
    ensures CountChar(QuadOf(b0, b1, b2, n), '=') == (if 2 <= n then 0 else 1) + (if 3 <= n then 0 else 1)
  {
    var q := QuadOf(b0, b1, b2, n);
    SextetOfB64Char(b0 / 4);
    SextetOfB64Char(b0 % 4 * 16 + b1 / 16);
    SextetOfB64Char(b1 % 16 * 4 + b2 / 64);
    SextetOfB64Char(b2 % 64);
    Erased4(q, '\r');
    Erased4(q, '\n');
    Count4(q, '=');
  }

  /** A group has no CR or LF in it. */
  lemma Erased4(q: string, c: char)
    requires |q| == 4 && (c == '\r' || c == '\n')
    requires forall k :: 0 <= k < 4 ==> IsB64Char(q[k]) || q[k] == '='
    ensures Erased(q, c) == q
  {
    assert q[1..][1..] == q[2..];
    assert q[2..][1..] == q[3..];
    assert q[3..][1..] == [];
    assert Erased(q[3..], c) == q[3..];
    assert Erased(q[2..], c) == q[2..];
    assert Erased(q[1..], c) == q[1..];
  }

  lemma QuadChars(data: bytes, i: nat)
    requires i < |data|
    ensures Erased(Quad(data, i), '\r') == Quad(data, i)
    ensures Erased(Quad(data, i), '\n') == Quad(data, i)
    ensures CountChar(Quad(data, i), '=') == if i + 3 <= |data| then 0 else 3 - (|data| - i)
  {
    QuadOfChars(data[i], ByteAt(data, i + 1), ByteAt(data, i + 2), |data| - i);
  }

  lemma {:induction false} StripBase64(data: bytes, i: nat)
    ensures Strip(Base64From(data, i)) == PlainFrom(data, i)
    decreases |data| - i
  {
    if i < |data| {
      var q, lb, rest := Quad(data, i), LineBreak(i), Base64From(data, i + 3);
      StripBase64(data, i + 3);
      QuadChars(data, i);
      ErasedConcat(q + lb, rest, '\r');
      ErasedConcat(q, lb, '\r');
      ErasedConcat(q + lb, Erased(rest, '\r'), '\n');
      ErasedConcat(q, lb, '\n');
      assert Erased(lb, '\r') == lb;
      assert Erased(lb, '\n') == "";
    }
  }

  lemma {:induction false} CountBase64(data: bytes, i: nat)
    requires i <= |data|
    ensures CountChar(Base64From(data, i), '=') == PadCount(|data| - i)
    decreases |data| - i
  {
    if i < |data| {
      var q, lb, rest := Quad(data, i), LineBreak(i), Base64From(data, i + 3);
      QuadChars(data, i);
      CountConcat(q + lb, rest, '=');
      CountConcat(q, lb, '=');
      assert CountChar(lb, '=') == 0;
      if i + 3 <= |data| {
        CountBase64(data, i + 3);
        assert PadCount(|data| - i) == PadCount(|data| - (i + 3));
      } else {
        assert rest == "";
      }
    }
  }

  lemma {:induction false} TriplesCons(q: string, rest: string)
    requires |q| == 4
    ensures Triples(q + rest) == Triple(q) + Triples(rest)
  {
    assert Drop(q + rest, 4) == rest;
    assert Triple(q + rest) == Triple(q);
  }

  /** The arithmetic of one group: the four six-bit values put back together give the three bytes. */
  lemma CombineSextets(b0: byte, b1: byte, b2: byte, n: nat)
    requires (n < 2 ==> b1 == 0) && (n < 3 ==> b2 == 0)
    ensures Combine(b0 / 4, b0 % 4 * 16 + b1 / 16, if 2 <= n then b1 % 16 * 4 + b2 / 64 else 0,
      if 3 <= n then b2 % 64 else 0) == [b0, b1, b2]
  {
  }

  /** Each group decodes to its bytes, with zeros for the padded positions. */
  lemma QuadOfDecodes(b0: byte, b1: byte, b2: byte, n: nat)
    requires (n < 2 ==> b1 == 0) && (n < 3 ==> b2 == 0)
    ensures Triple(QuadOf(b0, b1, b2, n)) == [b0, b1, b2]
  {
    var j0, j1, j2, j3 := b0 / 4, b0 % 4 * 16 + b1 / 16, b1 % 16 * 4 + b2 / 64, b2 % 64;
    SextetOfB64Char(j0);
    SextetOfB64Char(j1);
    SextetOfB64Char(j2);
    SextetOfB64Char(j3);
    CombineSextets(b0, b1, b2, n);
  }

  lemma QuadDecodes(data: bytes, i: nat)
    requires i < |data|
    ensures Triple(Quad(data, i)) == [data[i], ByteAt(data, i + 1), ByteAt(data, i + 2)]
  {
    QuadOfDecodes(data[i], ByteAt(data, i + 1), ByteAt(data, i + 2), |data| - i);
  }

  /** The first group of the plain encoding decodes to the first three bytes, the rest to the rest. */
  lemma GroupDecodes(data: bytes, i: nat)
    requires i < |data|
    ensures Triples(PlainFrom(data, i)) == [data[i], ByteAt(data, i + 1), ByteAt(data, i + 2)] + Triples(PlainFrom(data, i + 3))
  {
    var q, rest := Quad(data, i), PlainFrom(data, i + 3);
    assert PlainFrom(data, i) == q + rest;
    TriplesCons(q, rest);
    QuadDecodes(data, i);
  }

  lemma {:induction false} TriplesPlain(data: bytes, i: nat)
    requires i <= |data|
    ensures Triples(PlainFrom(data, i)) == data[i..] + Zeros(PadCount(|data| - i))
    decreases |data| - i
  {
    if i + 3 <= |data| {
      TriplesPlain(data, i + 3);
      FullGroupStep(data, i);
    } else if i < |data| {
      LastGroupStep(data, i);
    } else {
      assert data[i..] == [];
    }
  }

  /** The step of TriplesPlain over a full group, given what it states for the groups after it. */
  lemma FullGroupStep(data: bytes, i: nat)
    requires i + 3 <= |data|
    requires Triples(PlainFrom(data, i + 3)) == data[i + 3..] + Zeros(PadCount(|data| - (i + 3)))
    ensures Triples(PlainFrom(data, i)) == data[i..] + Zeros(PadCount(|data| - i))
  {
    GroupDecodes(data, i);
    PadStep(|data| - i);
    FullGroupBytes(data, i, Zeros(PadCount(|data| - i)));
  }

  /** The last, short group decodes to its bytes and the zero padding. */
  lemma LastGroupStep(data: bytes, i: nat)
    requires i < |data| < i + 3
    ensures Triples(PlainFrom(data, i)) == data[i..] + Zeros(PadCount(|data| - i))
  {
    GroupDecodes(data, i);
    assert PlainFrom(data, i + 3) == "";
    LastGroupBytes(data, i);
  }

  /** A full group of three bytes needs no padding of its own. */
  lemma PadStep(m: nat)
    requires m >= 3
    ensures PadCount(m) == PadCount(m - 3)
  {
  }

  lemma FullGroupBytes(data: bytes, i: nat, z: bytes)
    requires i + 3 <= |data|
    ensures [data[i], ByteAt(data, i + 1), ByteAt(data, i + 2)] + (data[i + 3..] + z) == data[i..] + z
  {
    assert data[i..] == [data[i], data[i + 1], data[i + 2]] + data[i + 3..];
    ConcatAssoc([data[i], data[i + 1], data[i + 2]], data[i + 3..], z);
  }

  lemma LastGroupBytes(data: bytes, i: nat)
    requires i < |data| < i + 3
    ensures [data[i], ByteAt(data, i + 1), ByteAt(data, i + 2)] + Triples("") == data[i..] + Zeros(PadCount(|data| - i))
  {
    if i + 1 == |data| {
      assert Zeros(2) == [0, 0];
      assert data[i..] == [data[i]];
    } else {
      assert Zeros(1) == [0];
      assert data[i..] == [data[i], data[i + 1]];
    }
  }

  lemma ModSmall(x: nat, m: nat)
    requires x < m
    ensures x % m == x
  {
  }

  /** decode64(encode64(x)) == x for the corrected encoder. */
  lemma Base64RoundTrip(data: bytes)
    ensures Base64Decode(Base64(data)) == data
  {
    var enc := Base64(data);
    var p := PadCount(|data|);
    StripBase64(data, 0);
    TriplesPlain(data, 0);
    assert data[0..] == data;
    CountBase64(data, 0);
    ModSmall(p, 256);
    var raw := data + Zeros(p);
    assert Triples(Strip(enc)) == raw;
    assert raw[..|data|] == data;
  }

  lemma StripConcat(a: string, b: string)
    ensures Strip(a + b) == Strip(a) + Strip(b)
  {
    ErasedConcat(a, b, '\r');
    ErasedConcat(Erased(a, '\r'), Erased(b, '\r'), '\n');
  }

  /** decode64 ignores line breaks: a CR or LF anywhere in the input changes nothing. */
  lemma Decode64IgnoresLineBreak(a: string, b: string, c: char)
    requires c == '\r' || c == '\n'
    ensures Base64Decode(a + [c] + b) == Base64Decode(a + b)
  {
    StripSkipsLineBreak(a, b, c);
    CountSkipsLineBreak(a, b, c);
    DecodeOfStripped(a + [c] + b, a + b);
  }

  lemma StripSkipsLineBreak(a: string, b: string, c: char)
    requires c == '\r' || c == '\n'
    ensures Strip(a + [c] + b) == Strip(a + b)
  {
    StripConcat(a + [c], b);
    StripConcat(a, [c]);
    StripConcat(a, b);
    assert Strip([c]) == [];
  }

  lemma CountSkipsLineBreak(a: string, b: string, c: char)
    requires c == '\r' || c == '\n'
    ensures CountChar(a + [c] + b, '=') == CountChar(a + b, '=')
  {
    CountConcat(a + [c], b, '=');
    CountConcat(a, [c], '=');
    CountConcat(a, b, '=');
    assert CountChar([c], '=') == 0;
  }

  /** decode64 sees only the input without CR and LF, and its number of '='. */
  lemma DecodeOfStripped(x: string, y: string)
    requires Strip(x) == Strip(y) && CountChar(x, '=') == CountChar(y, '=')
    ensures Base64Decode(x) == Base64Decode(y)
  {
  }

  /** The number of started groups of four among n characters. */
  function GroupCount(n: nat): nat {
    if n == 0 then 0 else if n <= 4 then 1 else 1 + GroupCount(n - 4)
  }

  /** Three bytes for every started group of four characters. */
  lemma {:induction false} TriplesLength(t: string)
    ensures |Triples(t)| == 3 * GroupCount(|t|)
    decreases |t|
  {
    if t != [] {
      TriplesLength(Drop(t, 4));
    }
  }

  /** Each '=' of the input (fewer than 256 of them, and no more than the decoded bytes) drops one byte. */
  lemma Decode64Length(data: string)
    requires CountChar(data, '=') < 256
    requires CountChar(data, '=') <= 3 * GroupCount(|Strip(data)|)
    ensures |Base64Decode(data)| == 3 * GroupCount(|Strip(data)|) - CountChar(data, '=')
  {
    var raw := Triples(Strip(data));
    TriplesLength(Strip(data));
    var remove := CountChar(data, '=');
    ModSmall(remove, 256);
    assert Base64Decode(data) == raw[..|raw| - remove];
  }

  // ---------------------------------------------------------------- urlEncode

  predicate IsAlnum(b: byte) {
    'a' as int <= b <= 'z' as int || 'A' as int <= b <= 'Z' as int || '0' as int <= b <= '9' as int
  }

  /** The reserved characters urlEncode leaves alone unless encodeDelims is set. */
  predicate IsUrlDelim(b: byte) {
    b == '$' as int || b == '-' as int || b == '_' as int || b == '.' as int || b == '+' as int
    || b == '!' as int || b == '*' as int || b == '\'' as int || b == '(' as int || b == ')' as int
  }

  predicate UrlLiteral(b: byte, encodeDelims: bool) {
    IsAlnum(b) || (!encodeDelims && IsUrlDelim(b))
  }

  /** One input byte of urlEncode: itself, or '%' and its two lowercase hex digits. */
  function UrlByte(b: byte, encodeDelims: bool): (r: string)
    ensures UrlLiteral(b, encodeDelims) ==> r == [b as char]
    ensures !UrlLiteral(b, encodeDelims) ==> |r| == 3 && r[0] == '%' && r[1..] == HexPair(b)
  {
    if UrlLiteral(b, encodeDelims) then [b as char] else "%" + HexPair(b)
  }

  function UrlEncoded(input: bytes, encodeDelims: bool): string {
    if input == [] then "" else UrlByte(input[0], encodeDelims) + UrlEncoded(input[1..], encodeDelims)
  }

  /** urlEncode(input, encodeDelims). */
  method UrlEncode(input: bytes, encodeDelims: bool) returns (r: string)
    ensures r == UrlEncoded(input, encodeDelims)
  {
    r := "";
    var i := 0;
    assert input[0..] == input;
    while i < |input|
      invariant 0 <= i <= |input|
      invariant UrlEncoded(input, encodeDelims) == r + UrlEncoded(input[i..], encodeDelims)
    {
      var c := input[i];
      ghost var r0 := r;
      if IsAlnum(c) {
        r := r + [c as char];
      } else if !encodeDelims && IsUrlDelim(c) {
        r := r + [c as char];
      } else {
        PaddedHex(c);
        r := r + "%";
        if c < 16 {
          r := r + "0";
        }
        r := r + HexNumber(c);
      }
      UrlStep(input, i, encodeDelims, r0, r);
      i := i + 1;
    }
  }

  lemma UrlStep(input: bytes, i: nat, encodeDelims: bool, r0: string, r: string)
    requires i < |input|
    requires UrlEncoded(input, encodeDelims) == r0 + UrlEncoded(input[i..], encodeDelims)
    requires r == r0 + UrlByte(input[i], encodeDelims)
    ensures UrlEncoded(input, encodeDelims) == r + UrlEncoded(input[i + 1..], encodeDelims)
  {
    assert input[i..][1..] == input[i + 1..];
    ConcatAssoc(r0, UrlByte(input[i], encodeDelims), UrlEncoded(input[i + 1..], encodeDelims));
  }

  /** A reference decoder for URL escapes: "%hh" is the byte hh, any other character is its own code. */
  function UrlDecoded(s: string): Option<bytes> {
    if s == [] then Some([])
    else if s[0] == '%' then
      if |s| >= 3 && IsLowerHexChar(s[1]) && IsLowerHexChar(s[2]) then
        match UrlDecoded(s[3..])
        case Some(rest) => Some([DigitValue(s[1]) * 16 + DigitValue(s[2])] + rest)
        case None => None
      else None
    else if (s[0] as int) < 256 then
      match UrlDecoded(s[1..])
      case Some(rest) => Some([s[0] as int] + rest)
      case None => None
    else None
  }

  /** urlEncode loses nothing: decoding its output gives the input back, with or without encodeDelims. */
  lemma {:induction false} UrlRoundTrip(input: bytes, encodeDelims: bool)
    ensures UrlDecoded(UrlEncoded(input, encodeDelims)) == Some(input)
  {
    if input != [] {
      var b := input[0];
      var head, tail := UrlByte(b, encodeDelims), UrlEncoded(input[1..], encodeDelims);
      UrlRoundTrip(input[1..], encodeDelims);
      var s := head + tail;
      if UrlLiteral(b, encodeDelims) {
        assert s[0] == b as char && s[1..] == tail;
      } else {
        var h := HexPair(b);
        assert s[0] == '%' && s[1] == h[0] && s[2] == h[1] && s[3..] == tail;
        assert DigitValue(h[0]) * 16 + DigitValue(h[1]) == b;
      }
      assert input == [b] + input[1..];
    }
  }

  /** Alphanumeric text comes out unchanged. */
  lemma {:induction false} UrlAlnumUnchanged(input: bytes, encodeDelims: bool)
    requires forall i :: 0 <= i < |input| ==> IsAlnum(input[i])
    ensures UrlEncoded(input, encodeDelims) == seq(|input|, i requires 0 <= i < |input| => input[i] as char)
  {
    if input != [] {
      UrlAlnumUnchanged(input[1..], encodeDelims);
    }
  }

  // ---------------------------------------------------------------- secondsToString

  const MINUTE: nat := 60
  const HOUR: nat := 60 * 60
  const DAY: nat := 60 * 60 * 24
  const MONTH: nat := 60 * 60 * 24 * 30
  const YEAR: nat := 60 * 60 * 24 * 30 * 12

  /** The units secondsToString tries, largest first, and the suffix it prints for each. */
  const UNITS: seq<nat> := [YEAR, MONTH, DAY, HOUR, MINUTE, 1]
  const UNIT_NAMES: seq<string> := ["y", "mo", "d", "h", "m", "s"]

  /** An index into UNITS. */
  type UnitIndex = k: nat | k < 6

  /** One printed group: a count of the unit with index `unit`. */
  datatype TimePart = TimePart(count: nat, unit: UnitIndex)

  /**
   * The groups secondsToString prints for `sec` seconds when at most `trunc` more
   * groups may be printed and units from index k on are left to try.
   */
  function TimeParts(sec: nat, trunc: nat, k: nat): (r: seq<TimePart>)
    requires k <= 6
    decreases 6 - k
  {
    if k == 6 then []
    else if trunc > 0 && sec >= UNITS[k] then
      [TimePart(sec / UNITS[k], k)] + TimeParts(sec % UNITS[k], trunc - 1, k + 1)
    else TimeParts(sec, trunc, k + 1)
  }

  function Render(parts: seq<TimePart>): string
  {
    if parts == [] then ""
    else Decimal(parts[0].count) + UNIT_NAMES[parts[0].unit] + " " + Render(parts[1..])
  }

  /** The number of seconds the groups stand for. */
  function PartsValue(parts: seq<TimePart>): nat
  {
    if parts == [] then 0 else parts[0].count * UNITS[parts[0].unit] + PartsValue(parts[1..])
  }

  /** Division by each unit, one literal divisor at a time. */
  lemma UnitDivision(sec: nat, k: nat)
    requires k < 6
    ensures UNITS[k] > 0
    ensures sec / UNITS[k] * UNITS[k] + sec % UNITS[k] == sec
    ensures sec % UNITS[k] < UNITS[k]
    ensures sec >= UNITS[k] ==> sec / UNITS[k] >= 1
  {
    if k == 0 { assert UNITS[k] == 31104000; }
    else if k == 1 { assert UNITS[k] == 2592000; }
    else if k == 2 { assert UNITS[k] == 86400; }
    else if k == 3 { assert UNITS[k] == 3600; }
    else if k == 4 { assert UNITS[k] == 60; }
    else { assert UNITS[k] == 1; }
  }

  /** A printed group: a count of at least one, and of less than the next larger unit. */
  predicate PartOk(p: TimePart) {
    p.count >= 1 && (p.unit > 0 ==> p.count * UNITS[p.unit] < UNITS[p.unit - 1])
  }

  /** secondsToString prints at most trunc groups. */
  lemma {:induction false} TimePartsCount(sec: nat, trunc: nat, k: nat)
    requires k <= 6
    ensures |TimeParts(sec, trunc, k)| <= trunc
    decreases 6 - k
  {
    if k < 6 {
      if trunc > 0 && sec >= UNITS[k] {
        TimePartsCount(sec % UNITS[k], trunc - 1, k + 1);
      } else {
        TimePartsCount(sec, trunc, k + 1);
      }
    }
  }

  /** The groups come in order of strictly decreasing unit: years first, seconds last. */
  lemma {:induction false} TimePartsOrdered(sec: nat, trunc: nat, k: nat)
    requires k <= 6
    ensures forall j :: 0 < j < |TimeParts(sec, trunc, k)| ==>
      TimeParts(sec, trunc, k)[j - 1].unit < TimeParts(sec, trunc, k)[j].unit
    decreases 6 - k
  {
    if k < 6 {
      if trunc > 0 && sec >= UNITS[k] {
        var r := sec % UNITS[k];
        TimePartsOrdered(r, trunc - 1, k + 1);
        var rest := TimeParts(r, trunc - 1, k + 1);
        var all := [TimePart(sec / UNITS[k], k)] + rest;
        assert TimeParts(sec, trunc, k) == all;
        forall j | 0 < j < |all| ensures all[j - 1].unit < all[j].unit {
          assert all[j] == rest[j - 1];
          if j > 1 { assert all[j - 1] == rest[j - 2]; }
        }
      } else {
        TimePartsOrdered(sec, trunc, k + 1);
      }
    }
  }

  /**
   * Every count is at least one and below the next larger unit: months below 12, days
   * below 30, hours below 24, minutes and seconds below 60.
   */
  lemma {:induction false} TimePartsBounded(sec: nat, trunc: nat, k: nat)
    requires k <= 6
    requires k == 0 || trunc == 0 || sec < UNITS[k - 1]
    ensures forall j :: 0 <= j < |TimeParts(sec, trunc, k)| ==> PartOk(TimeParts(sec, trunc, k)[j])
    decreases 6 - k
  {
    if k < 6 {
      if trunc > 0 && sec >= UNITS[k] {
        UnitDivision(sec, k);
        var q, r := sec / UNITS[k], sec % UNITS[k];
        TimePartsBounded(r, trunc - 1, k + 1);
        var rest := TimeParts(r, trunc - 1, k + 1);
        assert TimeParts(sec, trunc, k) == [TimePart(q, k)] + rest;
        assert PartOk(TimePart(q, k));
      } else {
        TimePartsBounded(sec, trunc, k + 1);
      }
    }
  }

  /** Nothing is printed exactly when trunc is zero or there are no seconds. */
  lemma {:induction false} TimePartsEmpty(sec: nat, trunc: nat, k: nat)
    requires k < 6
    ensures TimeParts(sec, trunc, k) == [] <==> (trunc == 0 || sec == 0)
    decreases 6 - k
  {
    if !(trunc > 0 && sec >= UNITS[k]) && k < 5 {
      TimePartsEmpty(sec, trunc, k + 1);
    }
  }

  /** The value of a group in front of the others. */
  lemma PartsValueCons(p: TimePart, rest: seq<TimePart>)
    ensures PartsValue([p] + rest) == p.count * UNITS[p.unit] + PartsValue(rest)
  {
    assert ([p] + rest)[1..] == rest;
  }

  /** A printed group stands for the seconds it divides off; the rest are left to the smaller units. */
  lemma ValueDivides(sec: nat, trunc: nat, k: nat)
    requires k < 6 && trunc > 0 && sec >= UNITS[k]
    ensures sec % UNITS[k] < UNITS[k]
    ensures PartsValue(TimeParts(sec, trunc, k)) == sec - sec % UNITS[k] + PartsValue(TimeParts(sec % UNITS[k], trunc - 1, k + 1))
  {
    UnitDivision(sec, k);
    var q, r := sec / UNITS[k], sec % UNITS[k];
    var rest := TimeParts(r, trunc - 1, k + 1);
    assert TimeParts(sec, trunc, k) == [TimePart(q, k)] + rest;
    PartsValueCons(TimePart(q, k), rest);
  }

  /** The step of TimePartsValue where a group is printed, given what it states for the remainder. */
  lemma DividedValue(sec: nat, trunc: nat, k: nat)
    requires k < 6 && trunc > 0 && sec >= UNITS[k]
    requires PartsValue(TimeParts(sec % UNITS[k], trunc - 1, k + 1)) <= sec % UNITS[k]
    requires trunc - 1 > 0 && trunc - 1 >= 6 - (k + 1) ==>
      PartsValue(TimeParts(sec % UNITS[k], trunc - 1, k + 1)) == sec % UNITS[k]
    ensures PartsValue(TimeParts(sec, trunc, k)) <= sec
    ensures trunc >= 6 - k ==> PartsValue(TimeParts(sec, trunc, k)) == sec
  {
    ValueDivides(sec, trunc, k);
    if k == 5 {
      assert UNITS[5] == 1;
    }
  }

  /** The groups never add up to more than the input, and with trunc of six or more they add up to it exactly. */
  lemma {:induction false} TimePartsValue(sec: nat, trunc: nat, k: nat)
    requires k <= 6
    requires k == 0 || trunc == 0 || sec < UNITS[k - 1]
    ensures PartsValue(TimeParts(sec, trunc, k)) <= sec
    ensures trunc > 0 && trunc >= 6 - k ==> PartsValue(TimeParts(sec, trunc, k)) == sec
    decreases 6 - k
  {
    if k < 6 {
      if trunc > 0 && sec >= UNITS[k] {
        ValueDivides(sec, trunc, k);
        TimePartsValue(sec % UNITS[k], trunc - 1, k + 1);
        DividedValue(sec, trunc, k);
      } else {
        TimePartsValue(sec, trunc, k + 1);
        assert TimeParts(sec, trunc, k) == TimeParts(sec, trunc, k + 1);
        if k == 5 {
          assert UNITS[5] == 1;
        }
      }
    } else {
      assert TimeParts(sec, trunc, k) == [];
      if trunc > 0 {
        assert UNITS[5] == 1;
      }
    }
  }

  /** The printed text holds one space per group, so at most trunc of them. */
  lemma {:induction false} RenderSpaces(parts: seq<TimePart>)
    ensures CountChar(Render(parts), ' ') == |parts|
  {
    if parts != [] {
      var d, n := Decimal(parts[0].count), UNIT_NAMES[parts[0].unit];
      DecimalHasNoSpace(d);
      assert CountChar(n, ' ') == 0;
      RenderSpaces(parts[1..]);
      CountConcat(d, n, ' ');
      CountConcat(d + n, " ", ' ');
      CountConcat(d + n + " ", Render(parts[1..]), ' ');
    }
  }

  lemma {:induction false} DecimalHasNoSpace(d: string)
    requires forall i :: 0 <= i < |d| ==> IsDecChar(d[i])
    ensures CountChar(d, ' ') == 0
  {
    if d != [] {
      DecimalHasNoSpace(d[1..]);
    }
  }

  lemma TimePartsStep(sec: nat, trunc: nat, k: nat)
    requires k < 6
    ensures trunc > 0 && sec >= UNITS[k] ==>
      Render(TimeParts(sec, trunc, k)) ==
        Decimal(sec / UNITS[k]) + UNIT_NAMES[k] + " " + Render(TimeParts(sec % UNITS[k], trunc - 1, k + 1))
    ensures !(trunc > 0 && sec >= UNITS[k]) ==>
      Render(TimeParts(sec, trunc, k)) == Render(TimeParts(sec, trunc, k + 1))
  {
    UnitDivision(sec, k);
    if trunc > 0 && sec >= UNITS[k] {
      var rest := TimeParts(sec % UNITS[k], trunc - 1, k + 1);
      assert ([TimePart(sec / UNITS[k], k)] + rest)[1..] == rest;
    }
  }

  /**
   * One of the five blocks of secondsToString that divide by a unit: appends the group,
   * if any, to the text so far and returns what is left to print.
   */
  method EmitGroup(text: string, sec: nat, trunc: nat, k: nat) returns (text': string, rest: nat, left: nat)
    requires k < 5
    ensures text' + Render(TimeParts(rest, left, k + 1)) == text + Render(TimeParts(sec, trunc, k))
  {
    TimePartsStep(sec, trunc, k);
    UnitDivision(sec, k);
    if trunc > 0 && sec >= UNITS[k] {
      var count := sec / UNITS[k];
      rest := sec - count * UNITS[k];
      text' := text + (Decimal(count) + UNIT_NAMES[k] + " ");
      left := trunc - 1;
      ConcatAssoc(text, Decimal(count) + UNIT_NAMES[k] + " ", Render(TimeParts(rest, left, k + 1)));
    } else {
      text', rest, left := text, sec, trunc;
    }
  }

  /** secondsToString(sec, trunc): years, months, days, hours and minutes, then the remaining seconds. */
  method SecondsToString(sec: nat, trunc: nat) returns (speedStr: string)
    ensures speedStr == Render(TimeParts(sec, trunc, 0))
  {
    var s, t;
    var k := 0;
    ghost var whole := Render(TimeParts(sec, trunc, k));
    assert "" + whole == whole;
    speedStr, s, t := EmitGroup("", sec, trunc, k);        // years
    assert speedStr + Render(TimeParts(s, t, 1)) == whole;
    speedStr, s, t := EmitGroup(speedStr, s, t, 1);        // months
    assert speedStr + Render(TimeParts(s, t, 2)) == whole;
    speedStr, s, t := EmitGroup(speedStr, s, t, 2);        // days
    assert speedStr + Render(TimeParts(s, t, 3)) == whole;
    speedStr, s, t := EmitGroup(speedStr, s, t, 3);        // hours
    assert speedStr + Render(TimeParts(s, t, 4)) == whole;
    speedStr, s, t := EmitGroup(speedStr, s, t, 4);        // minutes
    assert speedStr + Render(TimeParts(s, t, 5)) == whole;
    SecondsGroup(s, t);
    if t > 0 && s != 0 {
      ConcatAssoc(speedStr, Decimal(s), "s ");
      speedStr := speedStr + Decimal(s) + "s ";
    } else {
      assert speedStr + "" == speedStr;
    }
  }

  /** The last block of secondsToString prints whatever seconds are left, without dividing. */
  lemma SecondsGroup(sec: nat, trunc: nat)
    ensures Render(TimeParts(sec, trunc, 5)) == if trunc > 0 && sec != 0 then Decimal(sec) + "s " else ""
  {
    assert UNITS[5] == 1 && UNIT_NAMES[5] == "s";
    if trunc > 0 && sec != 0 {
      assert TimeParts(sec, trunc, 5) == [TimePart(sec, 5)];
    }
  }

  // ---------------------------------------------------------------- secondsToString as written

  const U32: nat := 0x1_0000_0000
  const U64: nat := 0x1_0000_0000_0000_0000

  /**
   * The groups secondsToString prints as written: the counts of the five dividing
   * blocks are uint32_t variables, so the quotient is truncated to 32 bits and the
   * product subtracted from the uint64_t seconds is computed, and wraps, in 32 bits.
   */
  function TimePartsAsWritten(sec: nat, trunc: nat, k: nat): seq<TimePart>
    requires k <= 6
    decreases 6 - k
  {
    if k == 6 then []
    else if trunc > 0 && sec >= UNITS[k] then
      if k == 5 then [TimePart(sec, 5)]
      else
        var count := sec / UNITS[k] % U32;
        [TimePart(count, k)] + TimePartsAsWritten((sec - count * UNITS[k] % U32) % U64, trunc - 1, k + 1)
    else TimePartsAsWritten(sec, trunc, k + 1)
  }

  /** Below 2^32 seconds nothing wraps, and the code as written prints what it should. */
  lemma {:induction false} TimePartsAsWrittenAgrees(sec: nat, trunc: nat, k: nat)
    requires k <= 6 && sec < U32
    ensures TimePartsAsWritten(sec, trunc, k) == TimeParts(sec, trunc, k)
    decreases 6 - k
  {
    if k < 6 {
      UnitDivision(sec, k);
      if trunc > 0 && sec >= UNITS[k] {
        var q := sec / UNITS[k];
        assert q * UNITS[k] <= sec;
        ModSmall(q * UNITS[k], U32);
        if k == 5 {
          assert UNITS[5] == 1;
          assert TimeParts(sec % 1, trunc - 1, 6) == [];
        } else {
          assert q <= sec;
          ModSmall(q, U32);
          ModSmall(sec - q * UNITS[k], U64);
          TimePartsAsWrittenAgrees(sec % UNITS[k], trunc - 1, k + 1);
        }
      } else {
        TimePartsAsWrittenAgrees(sec, trunc, k + 1);
      }
    }
  }

  /**
   * 140 years of 360 days, printed with two groups: the year product wraps to
   * 59592704 in 32 bits, 2^32 seconds are left over, and a bogus month group follows.
   */
  lemma SecondsYearWraps()
    ensures TimeParts(4354560000, 2, 0) == [TimePart(140, 0)]
    ensures TimePartsAsWritten(4354560000, 2, 0) == [TimePart(140, 0), TimePart(1657, 1)]
  {
    assert UNITS[0] == 31104000 && UNITS[1] == 2592000;
    assert 4354560000 / 31104000 == 140 && 4354560000 % 31104000 == 0;
    assert TimeParts(0, 1, 1) == [];
    assert 140 * 31104000 % U32 == 59592704;
    assert (4354560000 - 59592704) % U64 == 4294967296;
    assert 4294967296 / 2592000 == 1657;
    assert TimePartsAsWritten(4294967296 - 1657 * 2592000, 0, 2) == [];
  }
}
