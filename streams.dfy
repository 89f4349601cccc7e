/**
 * Binary stream I/O of hnbase/utils.h: `getVal`/`putVal` for fixed-width
 * unsigned integers (little-endian stream order, or big-endian for the
 * BitTorrent streams), length-prefixed strings and fixed-length strings.
 * Strings are byte strings.
 */
module Streams {
  import opened Wrappers

  type byte = b: int | 0 <= b < 256
  type bytes = seq<byte>

  const READ_ERROR := "unexpected end of stream"

  function Pow256(n: nat): (r: nat)
    ensures r >= 1
  {
    if n == 0 then 1 else 256 * Pow256(n - 1)
  }

  /** The largest value of an n-byte unsigned integer type. */
  function MaxOf(n: nat): nat { Pow256(n) - 1 }

  /** Truncation of an integer to an n-byte unsigned type (C++ conversion). */
  function Wrap(x: int, n: nat): (r: nat)
    ensures r < Pow256(n)
  {
    if 0 <= x < Pow256(n) then x else x % Pow256(n)
  }

  // ---------------------------------------------------------------- SwapData

  /** The n bytes of x in little-endian (stream) order. */
  function LE(x: nat, n: nat): (r: bytes)
    requires x < Pow256(n)
    ensures |r| == n
  {
    if n == 0 then [] else [(x % 256) as byte] + LE(x / 256, n - 1)
  }

  function FromLE(s: bytes): (x: nat)
    ensures x < Pow256(|s|)
  {
    if s == [] then 0 else s[0] + 256 * FromLE(s[1..])
  }

  /** The n bytes of x in big-endian (network) order. */
  function BE(x: nat, n: nat): (r: bytes)
    requires x < Pow256(n)
    ensures |r| == n
  {
    if n == 0 then [] else BE(x / 256, n - 1) + [(x % 256) as byte]
  }

  function FromBE(s: bytes): (x: nat)
    ensures x < Pow256(|s|)
  {
    if s == [] then 0 else 256 * FromBE(s[..|s| - 1]) + s[|s| - 1]
  }

  function Encode(x: nat, n: nat, bigEndian: bool): (r: bytes)
    requires x < Pow256(n)
    ensures |r| == n
  {
    if bigEndian then BE(x, n) else LE(x, n)
  }

  /** putVal<T>(o, x) on a little-endian stream with sizeof(T) == n: x truncated to n bytes. */
  function PutLE(x: int, n: nat): (r: bytes)
    ensures |r| == n
  {
    Encode(Wrap(x, n), n, false)
  }

  function Decode(s: bytes, bigEndian: bool): (x: nat)
    ensures x < Pow256(|s|)
  {
    if bigEndian then FromBE(s) else FromLE(s)
  }

  lemma {:induction false} LERoundTrip(x: nat, n: nat)
    requires x < Pow256(n)
    ensures FromLE(LE(x, n)) == x
  {
    if n > 0 {
      LERoundTrip(x / 256, n - 1);
      assert LE(x, n)[1..] == LE(x / 256, n - 1);
    }
  }

  /** getVal<T> reads back what putVal<T> wrote, when the value fits. */
  lemma ReadPutLE(x: int, n: nat, tail: bytes)
    requires 0 <= x < Pow256(n)
    ensures ReadUint(PutLE(x, n) + tail, n, false) == Ok((x, tail))
  {
    LERoundTrip(x, n);
    assert (LE(x, n) + tail)[..n] == LE(x, n);
    assert (LE(x, n) + tail)[n..] == tail;
  }

  lemma {:induction false} LEOfFromLE(s: bytes)
    ensures LE(FromLE(s), |s|) == s
  {
    if s != [] {
      LEOfFromLE(s[1..]);
      assert (s[0] + 256 * FromLE(s[1..])) / 256 == FromLE(s[1..]);
    }
  }

  lemma {:induction false} BERoundTrip(x: nat, n: nat)
    requires x < Pow256(n)
    ensures FromBE(BE(x, n)) == x
  {
    if n > 0 {
      BERoundTrip(x / 256, n - 1);
      assert BE(x, n)[..n - 1] == BE(x / 256, n - 1);
    }
  }

  lemma {:induction false} BEOfFromBE(s: bytes)
    ensures BE(FromBE(s), |s|) == s
  {
    if s != [] {
      BEOfFromBE(s[..|s| - 1]);
      assert (256 * FromBE(s[..|s| - 1]) + s[|s| - 1]) / 256 == FromBE(s[..|s| - 1]);
    }
  }

  /** putVal<T> followed by getVal<T> gives the value back. */
  lemma EncodeRoundTrip(x: nat, n: nat, bigEndian: bool)
    requires x < Pow256(n)
    ensures Decode(Encode(x, n, bigEndian), bigEndian) == x
  {
    if bigEndian { BERoundTrip(x, n); } else { LERoundTrip(x, n); }
  }

  // ---------------------------------------------- pure readers (specifications)

  /** getVal<T>: n bytes, or ReadError when fewer are left. Returns the value and the unread rest. */
  function ReadUint(s: bytes, n: nat, bigEndian: bool): (r: Result<(nat, bytes)>)
    ensures r.Ok? <==> n <= |s|
    ensures r.Ok? ==> r.value.0 < Pow256(n) && r.value.1 == s[n..]
    ensures r.Err? ==> r.msg == READ_ERROR
  {
    if n <= |s| then Ok((Decode(s[..n], bigEndian), s[n..])) else Err(READ_ERROR)
  }

  /** getVal<std::string>(i, len): exactly len bytes, or ReadError. */
  function ReadFixed(s: bytes, len: nat): (r: Result<(bytes, bytes)>)
    ensures r.Ok? <==> len <= |s|
    ensures r.Ok? ==> |r.value.0| == len && s == r.value.0 + r.value.1
  {
    if len <= |s| then Ok((s[..len], s[len..])) else Err(READ_ERROR)
  }

  /** getVal<std::string>: a u16 length, then that many bytes. */
  function ReadString(s: bytes): (r: Result<(bytes, bytes)>)
    ensures r.Ok? <==> 2 <= |s| && FromLE(s[..2]) <= |s| - 2
    ensures r.Ok? ==> |r.value.0| == FromLE(s[..2]) && s == s[..2] + r.value.0 + r.value.1
  {
    match ReadUint(s, 2, false)
    case Err(e) => Err(e)
    case Ok((len, rest)) => ReadFixed(rest, len)
  }

  /** putVal<std::string>: the length truncated to u16, then every byte. */
  function PutStringBytes(str: bytes): (r: bytes)
    ensures |r| == 2 + |str| && r[2..] == str
  {
    LE(Wrap(|str|, 2), 2) + str
  }

  lemma StringRoundTrip(str: bytes, tail: bytes)
    requires |str| < 0x1_0000
    ensures ReadString(PutStringBytes(str) + tail) == Ok((str, tail))
  {
    var w := PutStringBytes(str) + tail;
    assert w[..2] == LE(|str|, 2);
    LERoundTrip(|str|, 2);
    assert w[2..] == str + tail;
  }

  /** Strings of 64 KiB or longer do not survive the trip: the length prefix wraps. */
  lemma StringLengthWraps(str: bytes)
    requires |str| == 0x1_0000
    ensures ReadString(PutStringBytes(str)) == Ok(([], str))
  {
    var w := PutStringBytes(str);
    assert Wrap(|str|, 2) == 0;
    assert LE(0, 2) == [0, 0];
    assert w[..2] == [0, 0];
    assert FromLE([0, 0]) == 0;
    assert w[2..] == str;
    assert ReadUint(w, 2, false) == Ok((0, str));
  }

  /** seekg(n, std::ios::cur) forward: past the end there is nothing left to read. */
  function Skip(s: bytes, n: nat): (r: bytes)
    ensures |r| == if n <= |s| then |s| - n else 0
    ensures n <= |s| ==> s == s[..n] + r
  {
    if n <= |s| then s[n..] else []
  }

  // ------------------------------------------------------------------ streams

  /** An input stream: the bytes not yet read. */
  class InStream {
    var rest: bytes
    const bigEndian: bool

    constructor (data: bytes, bigEndian: bool)
      ensures rest == data && this.bigEndian == bigEndian
    {
      rest := data;
      this.bigEndian := bigEndian;
    }

    /** getVal<T> with sizeof(T) == n. A short read consumes what is left. */
    method GetVal(n: nat) returns (r: Result<nat>)
      modifies this
      ensures ReadUint(old(rest), n, bigEndian).Ok? ==>
        r == Ok(ReadUint(old(rest), n, bigEndian).value.0) && rest == ReadUint(old(rest), n, bigEndian).value.1
      ensures ReadUint(old(rest), n, bigEndian).Err? ==> r == Err(READ_ERROR) && rest == []
    {
      if n <= |rest| {
        r := Ok(Decode(rest[..n], bigEndian));
        rest := rest[n..];
      } else {
        r := Err(READ_ERROR);
        rest := [];
      }
    }

    /** getVal<std::string>(i, len). */
    method GetFixed(len: nat) returns (r: Result<bytes>)
      modifies this
      ensures ReadFixed(old(rest), len).Ok? ==>
        r == Ok(ReadFixed(old(rest), len).value.0) && rest == ReadFixed(old(rest), len).value.1
      ensures ReadFixed(old(rest), len).Err? ==> r == Err(READ_ERROR) && rest == []
    {
      if len <= |rest| {
        r := Ok(rest[..len]);
        rest := rest[len..];
      } else {
        r := Err(READ_ERROR);
        rest := [];
      }
    }

    /** seekg(n, std::ios::cur). */
    method SeekForward(n: nat)
      modifies this
      ensures rest == Skip(old(rest), n)
    {
      if n <= |rest| {
        rest := rest[n..];
      } else {
        rest := [];
      }
    }

    /** getVal<std::string>: u16 length, then the bytes. */
    method GetString() returns (r: Result<bytes>)
      requires !bigEndian
      modifies this
      ensures ReadString(old(rest)).Ok? ==>
        r == Ok(ReadString(old(rest)).value.0) && rest == ReadString(old(rest)).value.1
      ensures ReadString(old(rest)).Err? ==> r == Err(READ_ERROR) && rest == []
    {
      var len := GetVal(2);
      if len.Err? {
        r := Err(len.msg);
      } else {
        r := GetFixed(len.value);
      }
    }
  }

  /** An output stream: the bytes written so far. */
  class OutStream {
    var bytes: bytes
    const bigEndian: bool

    constructor (bigEndian: bool)
      ensures bytes == [] && this.bigEndian == bigEndian
    {
      bytes := [];
      this.bigEndian := bigEndian;
    }

    /** putVal<T> with sizeof(T) == n; the value is converted to T first. */
    method PutVal(x: int, n: nat)
      modifies this
      ensures bytes == old(bytes) + Encode(Wrap(x, n), n, bigEndian)
    {
      bytes := bytes + Encode(Wrap(x, n), n, bigEndian);
    }

    /** putVal<std::string>(o, str, len): the first len bytes of str. */
    method PutFixed(str: bytes, len: nat)
      requires len <= |str|
      modifies this
      ensures bytes == old(bytes) + str[..len]
    {
      bytes := bytes + str[..len];
    }

    /** putVal<std::string>(o, str). */
    method PutString(str: bytes)
      requires !bigEndian
      modifies this
      ensures bytes == old(bytes) + PutStringBytes(str)
    {
      PutVal(|str|, 2);
      bytes := bytes + str;
    }
  }

  /** Concatenation is associative; stated once so that proofs need not rediscover it. */
  lemma ConcatAssoc<T>(a: seq<T>, b: seq<T>, c: seq<T>)
    ensures a + (b + c) == (a + b) + c
  {
  }

  /** Dropping the head of a + b drops the head of a. */
  lemma DropConcat<T>(a: seq<T>, b: seq<T>)
    requires a != []
    ensures (a + b)[1..] == a[1..] + b
  {
  }

  /** A sequence is its first k elements followed by the rest. */
  lemma TakeDrop<T>(s: seq<T>, k: nat)
    requires k <= |s|
    ensures s == s[..k] + s[k..]
  {
  }

  /** The first i + 1 elements are the first i and then element i. */
  lemma TakeSnoc<T>(s: seq<T>, i: nat)
    requires i < |s|
    ensures s[..i + 1] == s[..i] + [s[i]]
  {
  }

  /** n flags, all set: every chunk present, as for a full source or a seed. */
  function Ones(n: nat): (r: seq<bool>)
    ensures |r| == n && forall i :: 0 <= i < n ==> r[i]
  {
    seq(n, i => true)
  }

  // ------------------------------------------------------------- BoolCheck

  /** How many slots answered yes before the first no (all of them when none says no). */
  function FirstFalse(answers: seq<bool>): (k: nat)
    ensures k <= |answers|
    ensures forall i :: 0 <= i < k ==> answers[i]
    ensures k < |answers| ==> !answers[k]
  {
    if answers == [] then 0
    else if !answers[0] then 0
    else 1 + FirstFalse(answers[1..])
  }

  /**
   * Utils::BoolCheck, the signal combiner (Config uses it for valueChanging): yes exactly when every
   * slot says yes. Slots run one by one and the first no stops the rest:
   * `called` is how many ran.
   */
  method BoolCheck(answers: seq<bool>) returns (ok: bool, called: nat)
    ensures ok <==> forall i :: 0 <= i < |answers| ==> answers[i]
    ensures called == if ok then |answers| else FirstFalse(answers) + 1
  {
    var first := 0;
    while first < |answers| && answers[first]
      invariant first <= |answers|
      invariant forall i :: 0 <= i < first ==> answers[i]
    {
      first := first + 1;
    }
    ok := first == |answers|;
    called := if ok then first else first + 1;
  }
}
