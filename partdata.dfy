/**
 * The bookkeeping of a download in hncore/partdata.cpp: how many chunks a
 * chunk size splits the file into, per-chunk source availability kept from
 * the sources' chunk masks, the pause/stop/resume flags, the range lists of
 * complete, corrupt and verified data, the size of the write buffer and the
 * cleaning of the destination name.
 *
 * The chunks of one size are the entries of one sequence of availability
 * counts, indexed by chunk number. The write buffer (a std::map from offset
 * to data) is the list of its entries in key order.
 */
module PartData {
  import opened Wrappers
  import opened Ranges
  import opened RangeLists
  import opened Utils
  import opened Streams

  /** The eD2k part size of hnbase/hash.h. */
  const ED2K_PARTSIZE: nat := 9728000

  /** getChunkCount(cs): the number of chunks of size cs, the last one possibly short. */
  function ChunkCount(size: nat, cs: nat): (n: nat)
    requires cs > 0
    ensures n == 0 <==> size == 0
  {
    size / cs + (if size % cs != 0 then 1 else 0)
  }

  /** The chunks cover the file, and all but the last are full: the count is the ceiling of size / cs. */
  lemma ChunkCountBounds(size: nat, cs: nat)
    requires cs > 0
    ensures size <= ChunkCount(size, cs) * cs
    ensures ChunkCount(size, cs) > 0 ==> (ChunkCount(size, cs) - 1) * cs < size
  {
    var q := size / cs;
    var r := size % cs;
    assert size == q * cs + r;
    if r != 0 {
      assert (q + 1) * cs == q * cs + cs;
    }
  }

  /** Only one number of chunks fits those bounds: the count is the ceiling of size / cs. */
  lemma ChunkCountUnique(size: nat, cs: nat, n: nat)
    requires cs > 0
    requires size <= n * cs && (n > 0 ==> (n - 1) * cs < size)
    ensures n == ChunkCount(size, cs)
  {
    var c := ChunkCount(size, cs);
    ChunkCountBounds(size, cs);
    if n < c {
      assert n <= c - 1;
      MulMono(n, c - 1, cs);
      assert false;
    } else if c < n {
      assert c <= n - 1;
      MulMono(c, n - 1, cs);
      assert false;
    }
  }

  lemma MulMono(a: nat, b: nat, c: nat)
    requires a <= b
    ensures a * c <= b * c
  {
  }

  /** The mask length a source must send: one more than the chunk count for part-aligned eD2k files. */
  function ExpectedMask(size: nat, cs: nat): (n: nat)
    requires cs > 0
    ensures n == ChunkCount(size, cs) || (n == ChunkCount(size, cs) + 1 && cs == ED2K_PARTSIZE && size % cs == 0)
    ensures n >= ChunkCount(size, cs)
  {
    ChunkCount(size, cs) + (if size % cs == 0 && cs == ED2K_PARTSIZE then 1 else 0)
  }

  function MaskError(expected: nat, got: nat): string {
    "Invalid number of values in chunkmap (expected " + Decimal(expected) + ", got " + Decimal(got) + ")"
  }

  function Bit(b: bool): nat { if b then 1 else 0 }

  /** Availability after every chunk gained one source where the mask says it has the chunk. */
  function Added(a: seq<nat>, m: seq<bool>): (r: seq<nat>)
    requires |a| <= |m|
    ensures |r| == |a|
  {
    seq(|a|, i requires 0 <= i < |a| => a[i] + Bit(m[i]))
  }

  /** The first chunk, from index from on, that the mask would take below zero, or |a| when there is none. */
  function Underflow(a: seq<nat>, m: seq<bool>, from: nat): (k: nat)
    requires |a| <= |m| && from <= |a|
    ensures from <= k <= |a|
    ensures forall i :: from <= i < k ==> !m[i] || a[i] > 0
    ensures k < |a| ==> m[k] && a[k] == 0
    decreases |a| - from
  {
    if from == |a| then |a|
    else if m[from] && a[from] == 0 then from
    else Underflow(a, m, from + 1)
  }

  /**
   * The availability a release leaves: every chunk in front of the first one
   * that would underflow loses the source its mask bit names; the check on
   * that chunk throws and the chunks from it on keep their counts.
   */
  function Released(a: seq<nat>, m: seq<bool>): (r: seq<nat>)
    requires |a| <= |m|
    ensures |r| == |a|
  {
    var k := Underflow(a, m, 0);
    seq(|a|, i requires 0 <= i < |a| => if i < k && m[i] then a[i] - 1 else a[i])
  }

  /** The adding loop of addSourceMask / addFullSource over the chunks of one size. */
  method AddMask(a: seq<nat>, m: seq<bool>) returns (b: seq<nat>)
    requires |a| <= |m|
    ensures b == Added(a, m)
    ensures forall i :: 0 <= i < |a| ==> b[i] == a[i] + Bit(m[i])
  {
    b := a;
    var i := 0;
    while i < |a|
      invariant 0 <= i <= |a| && |b| == |a|
      invariant forall j :: 0 <= j < i ==> b[j] == a[j] + Bit(m[j])
      invariant forall j :: i <= j < |a| ==> b[j] == a[j]
    {
      b := b[i := b[i] + Bit(m[i])];
      i := i + 1;
    }
  }

  /**
   * The releasing loop of delSourceMask / delFullSource: ok is false when a
   * chunk the mask names has no source left, which the C++ code reports by
   * throwing after the earlier chunks were already decremented.
   */
  method ReleaseMask(a: seq<nat>, m: seq<bool>) returns (b: seq<nat>, ok: bool)
    requires |a| <= |m|
    ensures b == Released(a, m)
    ensures ok <==> forall i :: 0 <= i < |a| ==> !m[i] || a[i] > 0
  {
    b := a;
    var i := 0;
    ghost var k := Underflow(a, m, 0);
    while i < |a|
      invariant 0 <= i <= k && |b| == |a|
      invariant forall j :: 0 <= j < i ==> b[j] == a[j] - Bit(m[j])
      invariant forall j :: i <= j < |a| ==> b[j] == a[j]
    {
      if m[i] && b[i] == 0 {
        assert i == k;
        ok := false;
        return;
      }
      b := b[i := b[i] - Bit(m[i])];
      i := i + 1;
    }
    ok := true;
  }

  // ------------------------------------------------ availability properties

  /** Releasing a mask right after adding it restores every count and cannot underflow. */
  lemma AddThenRelease(a: seq<nat>, m: seq<bool>)
    requires |a| <= |m|
    ensures Underflow(Added(a, m), m, 0) == |a|
    ensures Released(Added(a, m), m) == a
  {
    var b := Added(a, m);
    var k := Underflow(b, m, 0);
    var r := Released(b, m);
    assert forall i :: 0 <= i < |a| ==> r[i] == a[i];
  }

  /** A release that fails leaves the counts from the failing chunk on untouched. */
  lemma ReleaseStopsAtUnderflow(a: seq<nat>, m: seq<bool>)
    requires |a| <= |m| && Underflow(a, m, 0) < |a|
    ensures var k := Underflow(a, m, 0);
      m[k] && a[k] == 0 && Released(a, m)[k..] == a[k..]
  {
  }

  // --------------------------------------------------------- run state

  /** m_paused, m_stopped and m_autoPaused. */
  datatype Run = Run(paused: bool, stopped: bool, autoPaused: bool)

  /** A download is never paused and stopped at once. */
  predicate Consistent(s: Run) { !(s.paused && s.stopped) }

  /** The events the download emits. */
  datatype Notice = Paused | Stopped | Resumed | Corruption(range: Range)

  /** pause(): a running or stopped download becomes paused; a paused one stays as it is. */
  function Pause(s: Run): (r: Run)
    ensures Consistent(s) ==> Consistent(r)
    ensures Consistent(s) ==> r.paused && !r.stopped
    ensures s.paused ==> r == s
    ensures r.autoPaused == s.autoPaused
  {
    if !s.paused then Run(true, false, s.autoPaused) else s
  }

  /** stop(): the reverse of pause. */
  function Stop(s: Run): (r: Run)
    ensures Consistent(s) ==> Consistent(r)
    ensures Consistent(s) ==> r.stopped && !r.paused
    ensures s.stopped ==> r == s
    ensures r.autoPaused == s.autoPaused
  {
    if !s.stopped then Run(false, true, s.autoPaused) else s
  }

  /** resume(): a paused or stopped download runs again and forgets it was auto-paused. */
  function Resume(s: Run): (r: Run)
    ensures !r.paused && !r.stopped
    ensures (s.paused || s.stopped) ==> !r.autoPaused
    ensures !s.paused && !s.stopped ==> r == s
  {
    if s.paused || s.stopped then Run(false, false, false) else s
  }

  /** Each of pause, stop and resume emits its event exactly when it changes the state. */
  lemma NoticeIffChange(s: Run)
    requires Consistent(s)
    ensures Pause(s) != s <==> !s.paused
    ensures Stop(s) != s <==> !s.stopped
    ensures Resume(s) != s <==> s.paused || s.stopped
  {
  }

  /** Pausing twice is pausing once, and so for stop and resume. */
  lemma RunIdempotent(s: Run)
    ensures Pause(Pause(s)) == Pause(s)
    ensures Stop(Stop(s)) == Stop(s)
    ensures Resume(Resume(s)) == Resume(s)
  {
  }

  /** autoPause(): pause and remember that the pause was automatic. */
  function AutoPause(s: Run): (r: Run)
    ensures r.paused && r.autoPaused
    ensures Consistent(s) ==> Consistent(r)
  {
    var p := Pause(s);
    Run(p.paused, p.stopped, true)
  }

  /** An automatic pause followed by resume leaves a running download with no automatic-pause mark. */
  lemma AutoPauseResume(s: Run)
    requires Consistent(s)
    ensures Resume(AutoPause(s)) == Run(false, false, false)
  {
  }

  // ----------------------------------------------------------- name

  /** The characters cleanupName removes from the file name. */
  predicate Forbidden(c: char) {
    c == '\\' || c == '/' || c == '*' || c == ':' || c == '"' || c == '?' || c == '<' || c == '>' || c == '|'
  }

  /** The name without its forbidden characters. */
  function Cleaned(s: string): (r: string)
    ensures |r| <= |s|
    ensures forall i :: 0 <= i < |r| ==> !Forbidden(r[i])
  {
    if s == [] then [] else (if Forbidden(s[0]) then [] else [s[0]]) + Cleaned(s[1..])
  }

  /** Cleaning distributes over concatenation: the kept characters stay in their order. */
  lemma {:induction false} CleanedAppend(a: string, b: string)
    ensures Cleaned(a + b) == Cleaned(a) + Cleaned(b)
    decreases |a|
  {
    if a != [] {
      assert (a + b)[1..] == a[1..] + b;
      CleanedAppend(a[1..], b);
    } else {
      assert a + b == b;
    }
  }

  /** A name is left exactly as it is if and only if it holds no forbidden character. */
  lemma {:induction false} CleanedKeeps(s: string)
    ensures Cleaned(s) == s <==> forall i :: 0 <= i < |s| ==> !Forbidden(s[i])
    decreases |s|
  {
    if s != [] {
      CleanedKeeps(s[1..]);
      if !Forbidden(s[0]) && Cleaned(s) == s {
        assert Cleaned(s[1..]) == s[1..];
        forall i | 0 <= i < |s| ensures !Forbidden(s[i]) {
          if i > 0 { assert s[i] == s[1..][i - 1]; }
        }
      }
      if forall i :: 0 <= i < |s| ==> !Forbidden(s[i]) {
        assert forall i :: 0 <= i < |s[1..]| ==> s[1..][i] == s[i + 1];
        assert [s[0]] + s[1..] == s;
      }
    }
  }

  /** Cleaning a single character keeps it unless it is forbidden. */
  lemma CleanedChar(c: char)
    ensures Cleaned([c]) == if Forbidden(c) then [] else [c]
  {
    assert [c][1..] == [];
  }

  /** The first character of a text is cleaned on its own, and the rest after it. */
  lemma CleanedHead(rest: string)
    requires rest != []
    ensures Cleaned(rest) == (if Forbidden(rest[0]) then [] else [rest[0]]) + Cleaned(rest[1..])
  {
    assert rest == [rest[0]] + rest[1..];
    CleanedAppend([rest[0]], rest[1..]);
    CleanedChar(rest[0]);
  }

  /** Erasing a forbidden character at i leaves the text before it and the cleaned text from i unchanged. */
  lemma CleanDropStep(f: string, i: nat)
    requires i < |f| && Forbidden(f[i])
    ensures var g := f[..i] + f[i + 1..]; g[..i] == f[..i] && Cleaned(g[i..]) == Cleaned(f[i..])
  {
    var g := f[..i] + f[i + 1..];
    assert g[..i] == f[..i];
    assert g[i..] == f[i..][1..];
    CleanedHead(f[i..]);
  }

  /** Stepping over a kept character moves it from the cleaned rest to the prefix. */
  lemma CleanKeepStep(f: string, i: nat)
    requires i < |f| && !Forbidden(f[i])
    ensures f[..i] + Cleaned(f[i..]) == f[..i + 1] + Cleaned(f[i + 1..])
  {
    assert f[..i + 1] == f[..i] + [f[i]];
    assert f[i + 1..] == f[i..][1..];
    CleanedHead(f[i..]);
  }

  /** The erasing loop of cleanupName: a removed character is not stepped over. */
  method CleanName(name: string) returns (fname: string)
    ensures fname == Cleaned(name)
  {
    fname := name;
    var i := 0;
    while i < |fname|
      invariant 0 <= i <= |fname|
      invariant Cleaned(name) == fname[..i] + Cleaned(fname[i..])
      decreases |fname| - i
    {
      if Forbidden(fname[i]) {
        CleanDropStep(fname, i);
        fname := fname[..i] + fname[i + 1..];
      } else {
        CleanKeepStep(fname, i);
        i := i + 1;
      }
    }
    assert fname[i..] == [];
    assert fname[..i] == fname;
  }

  // ---------------------------------------------------------- buffer

  /** The number of bytes held by the buffer entries. */
  function Total(buffer: seq<(nat, string)>): nat {
    if buffer == [] then 0 else Total(buffer[..|buffer| - 1]) + |buffer[|buffer| - 1].1|
  }

  /** Buffered sizes add up over consecutive parts of the buffer. */
  lemma {:induction false} TotalAppend(a: seq<(nat, string)>, b: seq<(nat, string)>)
    ensures Total(a + b) == Total(a) + Total(b)
    decreases |b|
  {
    if b == [] {
      assert a + b == a;
    } else {
      assert (a + b)[..|a + b| - 1] == a + b[..|b| - 1];
      TotalAppend(a, b[..|b| - 1]);
    }
  }

  // ------------------------------------------------------ checkAddChunkMap

  /** Every chunk size has as many counts as the file has chunks of that size. */
  predicate CountsValid(avail: map<nat, seq<nat>>, size: nat) {
    forall cs :: cs in avail ==> cs > 0 && |avail[cs]| == ChunkCount(size, cs)
  }

  /** The counts of the chunks of size cs, all zero before those chunks exist. */
  function AvailOf(avail: map<nat, seq<nat>>, size: nat, cs: nat): (a: seq<nat>)
    requires cs > 0 && CountsValid(avail, size)
    ensures |a| == ChunkCount(size, cs)
    ensures cs !in avail ==> forall i :: 0 <= i < |a| ==> a[i] == 0
  {
    if cs in avail then avail[cs] else seq(ChunkCount(size, cs), i => 0)
  }

  /** Chunks of a size above cs exist: in the size index, equal_range(cs).first is then such a chunk and not end(). */
  predicate LargerChunks(avail: map<nat, seq<nat>>, cs: nat) {
    exists k :: k in avail && k > cs
  }

  /**
   * The counts after a source with mask m is counted into the chunks of
   * size cs, as addSourceMask and addFullSource do it: checkAddChunkMap
   * creates the chunks of size cs only when equal_range(cs).first is end(),
   * so when chunks of a larger size exist and none of size cs, nothing is
   * created, the equal_range is empty and no count changes.
   */
  function CountedAsWritten(avail: map<nat, seq<nat>>, size: nat, cs: nat, m: seq<bool>): (r: map<nat, seq<nat>>)
    requires cs > 0 && CountsValid(avail, size) && ChunkCount(size, cs) <= |m|
    ensures CountsValid(r, size)
    ensures forall k :: k in r ==> k in avail || k == cs
    ensures forall k :: k in avail && k != cs ==> k in r && r[k] == avail[k]
    ensures cs in r <==> cs in avail || !LargerChunks(avail, cs)
    ensures cs in r ==> r[cs] == Added(AvailOf(avail, size, cs), m)
  {
    if cs !in avail && LargerChunks(avail, cs) then avail
    else avail[cs := Added(AvailOf(avail, size, cs), m)]
  }

  /**
   * The evidently intended counting: checkAddChunkMap tests whether the
   * equal_range is empty (ret.first == ret.second), so the chunks of size cs
   * exist afterwards whatever other sizes there are.
   */
  function CountedFixed(avail: map<nat, seq<nat>>, size: nat, cs: nat, m: seq<bool>): (r: map<nat, seq<nat>>)
    requires cs > 0 && CountsValid(avail, size) && ChunkCount(size, cs) <= |m|
    ensures CountsValid(r, size)
    ensures cs in r && forall k :: k in avail ==> k in r
  {
    avail[cs := Added(AvailOf(avail, size, cs), m)]
  }

  /** With the corrected test every chunk the mask names gains exactly one source, and no other count changes. */
  lemma FixedCountsEverySource(avail: map<nat, seq<nat>>, size: nat, cs: nat, m: seq<bool>)
    requires cs > 0 && CountsValid(avail, size) && ChunkCount(size, cs) <= |m|
    ensures var r := CountedFixed(avail, size, cs, m);
      cs in r && |r[cs]| == ChunkCount(size, cs) &&
      (forall i :: 0 <= i < |r[cs]| ==> r[cs][i] == AvailOf(avail, size, cs)[i] + Bit(m[i])) &&
      (forall k :: k in r && k != cs ==> k in avail && r[k] == avail[k]) &&
      (forall k :: k in avail ==> k in r)
  {
  }

  /** The two agree unless chunks of a larger size exist and none of size cs. */
  lemma AsWrittenAgreesWithFixed(avail: map<nat, seq<nat>>, size: nat, cs: nat, m: seq<bool>)
    requires cs > 0 && CountsValid(avail, size) && ChunkCount(size, cs) <= |m|
    ensures CountedAsWritten(avail, size, cs, m) == CountedFixed(avail, size, cs, m)
        <==> cs in avail || !LargerChunks(avail, cs)
  {
    if cs !in avail && LargerChunks(avail, cs) {
      assert cs in CountedFixed(avail, size, cs, m);
    }
  }

  /**
   * A 20,000,000-byte file with its three eD2k parts known to one full
   * source: a BitTorrent source with every 262144-byte piece is counted in
   * no chunk as written, while the corrected test gives each of the 77
   * pieces one source.
   */
  lemma SkippedCountAsWritten()
    ensures ChunkCount(20000000, ED2K_PARTSIZE) == 3 && ExpectedMask(20000000, 262144) == 77
    ensures var avail := map[ED2K_PARTSIZE := [1, 1, 1]];
      CountedAsWritten(avail, 20000000, 262144, Ones(77)) == avail &&
      CountedFixed(avail, 20000000, 262144, Ones(77))[262144] == seq(77, i => 1)
  {
    var avail := map[ED2K_PARTSIZE := [1, 1, 1]];
    assert CountsValid(avail, 20000000);
    assert ED2K_PARTSIZE in avail && ED2K_PARTSIZE > 262144;
    assert LargerChunks(avail, 262144);
  }

  // ------------------------------------------------------------ the class

  class PartData {
    /** m_size. */
    const size: nat
    var sourceCnt: nat
    var fullSourceCnt: nat
    /** The availability count of every chunk, per chunk size. */
    var avail: map<nat, seq<nat>>
    var paused: bool
    var stopped: bool
    var autoPaused: bool
    var notices: seq<Notice>
    /** m_buffer, in offset order. */
    var buffer: seq<(nat, string)>
    /** The directory and the leaf of m_dest. */
    var destDir: string
    var name: string
    const complete: RangeList
    const corrupt: RangeList
    const verified: RangeList
    const dontDownload: RangeList

    function State(): Run
      reads this
    {
      Run(paused, stopped, autoPaused)
    }

    /** Every chunk size has as many counts as the file has chunks of that size. */
    ghost predicate ChunksValid()
      reads this
    {
      CountsValid(avail, size) && Consistent(State())
    }

    /** The four range lists are distinct objects and each is normal. */
    ghost predicate RangesValid()
      reads this, complete, corrupt, verified, dontDownload
    {
      complete != corrupt && complete != verified && complete != dontDownload &&
      corrupt != verified && corrupt != dontDownload && verified != dontDownload &&
      complete.Valid() && corrupt.Valid() && verified.Valid() && dontDownload.Valid() &&
      Normal(complete.ranges) && Normal(corrupt.ranges) && Normal(verified.ranges) && Normal(dontDownload.ranges)
    }

    /** A new download: no sources, no chunks yet, running, nothing complete. */
    constructor (size: nat, destDir: string, name: string)
      ensures this.size == size && this.destDir == destDir && this.name == name
      ensures sourceCnt == 0 && fullSourceCnt == 0 && avail == map[]
      ensures State() == Run(false, false, false) && notices == [] && buffer == []
      ensures complete.ranges == [] && corrupt.ranges == [] && verified.ranges == [] && dontDownload.ranges == []
      ensures ChunksValid() && RangesValid()
    {
      this.size := size;
      sourceCnt := 0;
      fullSourceCnt := 0;
      avail := map[];
      paused, stopped, autoPaused := false, false, false;
      notices := [];
      buffer := [];
      this.destDir := destDir;
      this.name := name;
      complete := new RangeList(8);
      corrupt := new RangeList(8);
      verified := new RangeList(8);
      dontDownload := new RangeList(8);
    }

    /** getChunkCount. */
    function GetChunkCount(cs: nat): (n: nat)
      requires cs > 0
      reads this
      ensures n == 0 <==> size == 0
    {
      ChunkCount(size, cs)
    }

    /** The availability of the chunks of size cs, all zero before they are created. */
    function Avail(cs: nat): (a: seq<nat>)
      requires cs > 0 && ChunksValid()
      reads this
      ensures |a| == ChunkCount(size, cs)
      ensures cs !in avail ==> forall i :: 0 <= i < |a| ==> a[i] == 0
    {
      AvailOf(avail, size, cs)
    }

    /**
     * addSourceMask(cs, chunks): counts the source first; an empty mask is a
     * full source (addFullSource); a mask of the wrong length throws; else
     * the source is counted into the chunks of size cs as checkAddChunkMap
     * leaves them (CountedAsWritten).
     */
    method AddSourceMask(cs: nat, chunks: seq<bool>) returns (r: Result<()>)
      requires cs > 0 && ChunksValid()
      modifies this
      ensures ChunksValid()
      ensures sourceCnt == old(sourceCnt) + 1
      ensures chunks == [] ==> (r.Ok? && fullSourceCnt == old(fullSourceCnt) + 1 &&
        avail == CountedAsWritten(old(avail), size, cs, Ones(ChunkCount(size, cs))))
      ensures chunks != [] ==> fullSourceCnt == old(fullSourceCnt)
      ensures chunks != [] && |chunks| != ExpectedMask(size, cs) ==>
        r == Err(MaskError(ExpectedMask(size, cs), |chunks|)) && avail == old(avail)
      ensures chunks != [] && |chunks| == ExpectedMask(size, cs) ==>
        r.Ok? && avail == CountedAsWritten(old(avail), size, cs, chunks)
      ensures State() == old(State()) && notices == old(notices) && buffer == old(buffer) && name == old(name)
    {
      sourceCnt := sourceCnt + 1;
      if chunks == [] {
        AddFullSource(cs);
        return Ok(());
      }
      var expected := ExpectedMask(size, cs);
      if |chunks| != expected {
        return Err(MaskError(expected, |chunks|));
      }
      SetAvail(cs, chunks);
      r := Ok(());
    }

    /** addFullSource(cs): the full source is counted, and every chunk of size cs that checkAddChunkMap leaves gains it. */
    method AddFullSource(cs: nat)
      requires cs > 0 && ChunksValid()
      modifies this
      ensures ChunksValid()
      ensures fullSourceCnt == old(fullSourceCnt) + 1 && sourceCnt == old(sourceCnt)
      ensures avail == CountedAsWritten(old(avail), size, cs, Ones(ChunkCount(size, cs)))
      ensures State() == old(State()) && notices == old(notices) && buffer == old(buffer) && name == old(name)
    {
      SetAvail(cs, Ones(ChunkCount(size, cs)));
      fullSourceCnt := fullSourceCnt + 1;
    }

    /**
     * checkAddChunkMap(cs) and the counting loop over equal_range(cs): the
     * chunks of size cs are created only when none of that size or larger
     * exist; those of size cs then gain the sources the mask names.
     */
    method SetAvail(cs: nat, m: seq<bool>)
      requires cs > 0 && ChunksValid() && ChunkCount(size, cs) <= |m|
      modifies this
      ensures ChunksValid()
      ensures avail == CountedAsWritten(old(avail), size, cs, m)
      ensures sourceCnt == old(sourceCnt) && fullSourceCnt == old(fullSourceCnt)
      ensures State() == old(State()) && notices == old(notices) && buffer == old(buffer) && name == old(name)
    {
      if cs !in avail && exists k :: k in avail && k > cs {
        return;
      }
      var b := AddMask(Avail(cs), m);
      avail := avail[cs := b];
    }

    /**
     * delSourceMask(cs, chunks): throws when no source is counted; else
     * uncounts it; an empty mask is a full source (delFullSource, which throws
     * when no full source is counted); a mask of the wrong length throws;
     * else every chunk loses the source its mask bit names, and a chunk
     * with no source left throws before it would underflow.
     */
    method DelSourceMask(cs: nat, chunks: seq<bool>) returns (r: Result<()>)
      requires cs > 0 && ChunksValid()
      modifies this
      ensures ChunksValid()
      ensures old(sourceCnt) == 0 ==>
        r == Err(CheckFailed("m_sourceCnt")) && sourceCnt == 0 && fullSourceCnt == old(fullSourceCnt) && avail == old(avail)
      ensures old(sourceCnt) > 0 ==> sourceCnt == old(sourceCnt) - 1
      ensures old(sourceCnt) > 0 && chunks == [] && old(fullSourceCnt) == 0 ==>
        r == Err(CheckFailed("m_fullSourceCnt")) && avail == old(avail)
      ensures old(sourceCnt) > 0 && chunks == [] && old(fullSourceCnt) > 0 ==>
        fullSourceCnt == old(fullSourceCnt) - 1 && ReleasedAs(cs, Ones(ChunkCount(size, cs)), r, old(avail))
      ensures chunks != [] ==> fullSourceCnt == old(fullSourceCnt)
      ensures old(sourceCnt) > 0 && chunks != [] && |chunks| != ExpectedMask(size, cs) ==>
        r == Err(MaskError(ExpectedMask(size, cs), |chunks|)) && avail == old(avail)
      ensures old(sourceCnt) > 0 && chunks != [] && |chunks| == ExpectedMask(size, cs) ==>
        ReleasedAs(cs, chunks, r, old(avail))
      ensures State() == old(State()) && notices == old(notices) && buffer == old(buffer) && name == old(name)
    {
      if sourceCnt == 0 {
        return Err(CheckFailed("m_sourceCnt"));
      }
      sourceCnt := sourceCnt - 1;
      if chunks == [] {
        r := DelFullSource(cs);
        return;
      }
      var expected := ExpectedMask(size, cs);
      if |chunks| != expected {
        return Err(MaskError(expected, |chunks|));
      }
      r := Release(cs, chunks);
    }

    /** delFullSource(cs): throws when no full source is counted, else every chunk of size cs loses the source. */
    method DelFullSource(cs: nat) returns (r: Result<()>)
      requires cs > 0 && ChunksValid()
      modifies this
      ensures ChunksValid()
      ensures sourceCnt == old(sourceCnt)
      ensures old(fullSourceCnt) == 0 ==> r == Err(CheckFailed("m_fullSourceCnt")) && avail == old(avail) && fullSourceCnt == 0
      ensures old(fullSourceCnt) > 0 ==>
        fullSourceCnt == old(fullSourceCnt) - 1 && ReleasedAs(cs, Ones(ChunkCount(size, cs)), r, old(avail))
      ensures State() == old(State()) && notices == old(notices) && buffer == old(buffer) && name == old(name)
    {
      if fullSourceCnt == 0 {
        return Err(CheckFailed("m_fullSourceCnt"));
      }
      fullSourceCnt := fullSourceCnt - 1;
      r := Release(cs, Ones(ChunkCount(size, cs)));
    }

    /**
     * What releasing the mask did to the chunks of size cs, from the counts
     * before: chunks that do not exist are left alone; otherwise the counts
     * are those a release leaves, and the call fails exactly when a chunk
     * the mask names had no source.
     */
    ghost predicate ReleasedAs(cs: nat, m: seq<bool>, r: Result<()>, before: map<nat, seq<nat>>)
      reads this
    {
      if cs !in before then r.Ok? && avail == before
      else (|before[cs]| <= |m| && avail == before[cs := Released(before[cs], m)] &&
        (r.Ok? <==> forall i :: 0 <= i < |before[cs]| ==> !m[i] || before[cs][i] > 0) &&
        (r.Err? ==> r.msg == CheckFailed("(*j).m_avail")))
    }

    /** The releasing loop over the chunks of size cs that exist. */
    method Release(cs: nat, m: seq<bool>) returns (r: Result<()>)
      requires cs > 0 && ChunksValid() && ChunkCount(size, cs) <= |m|
      modifies this
      ensures ChunksValid()
      ensures ReleasedAs(cs, m, r, old(avail))
      ensures sourceCnt == old(sourceCnt) && fullSourceCnt == old(fullSourceCnt)
      ensures State() == old(State()) && notices == old(notices) && buffer == old(buffer) && name == old(name)
    {
      if cs !in avail {
        return Ok(());
      }
      var b, ok := ReleaseMask(avail[cs], m);
      avail := avail[cs := b];
      r := if ok then Ok(()) else Err(CheckFailed("(*j).m_avail"));
    }

    /** pause(). */
    method DoPause()
      requires ChunksValid()
      modifies this
      ensures ChunksValid()
      ensures State() == Pause(old(State()))
      ensures notices == old(notices) + (if old(paused) then [] else [Paused])
      ensures avail == old(avail) && sourceCnt == old(sourceCnt) && buffer == old(buffer) && name == old(name)
    {
      if !paused {
        paused := true;
        stopped := false;
        notices := notices + [Paused];
      }
    }

    /** stop(). */
    method DoStop()
      requires ChunksValid()
      modifies this
      ensures ChunksValid()
      ensures State() == Stop(old(State()))
      ensures notices == old(notices) + (if old(stopped) then [] else [Stopped])
      ensures avail == old(avail) && sourceCnt == old(sourceCnt) && buffer == old(buffer) && name == old(name)
    {
      if !stopped {
        paused := false;
        stopped := true;
        notices := notices + [Stopped];
      }
    }

    /** resume(). */
    method DoResume()
      requires ChunksValid()
      modifies this
      ensures ChunksValid()
      ensures State() == Resume(old(State()))
      ensures notices == old(notices) + (if old(paused) || old(stopped) then [Resumed] else [])
      ensures avail == old(avail) && sourceCnt == old(sourceCnt) && buffer == old(buffer) && name == old(name)
    {
      if paused || stopped {
        paused := false;
        stopped := false;
        autoPaused := false;
        notices := notices + [Resumed];
      }
    }

    /** autoPause(). */
    method DoAutoPause()
      requires ChunksValid()
      modifies this
      ensures ChunksValid()
      ensures State() == AutoPause(old(State()))
      ensures notices == old(notices) + (if old(paused) then [] else [Paused])
      ensures avail == old(avail) && sourceCnt == old(sourceCnt) && buffer == old(buffer) && name == old(name)
    {
      DoPause();
      autoPaused := true;
    }

    /** amountBuffered(): the buffered byte count, summed in a 32-bit counter. */
    method AmountBuffered() returns (ret: nat)
      ensures ret == Total(buffer) % U32
    {
      ret := 0;
      var i := 0;
      while i < |buffer|
        invariant 0 <= i <= |buffer|
        invariant ret == Total(buffer[..i]) % U32
      {
        assert buffer[..i + 1][..i] == buffer[..i];
        ret := (ret + |buffer[i].1|) % U32;
        i := i + 1;
      }
      assert buffer[..i] == buffer;
    }

    /** cleanupName(): the destination keeps its directory and loses the forbidden characters of its name. */
    method CleanupName()
      requires ChunksValid()
      modifies this
      ensures ChunksValid()
      ensures name == Cleaned(old(name)) && destDir == old(destDir)
      ensures avail == old(avail) && State() == old(State()) && notices == old(notices) && buffer == old(buffer)
    {
      var fname := CleanName(name);
      name := fname;
    }

    /** setComplete(range): the range becomes complete and downloadable again. */
    method SetComplete(range: Range)
      requires RangesValid()
      modifies complete, dontDownload
      ensures RangesValid()
      ensures forall p :: Covered(complete.ranges, p) <==> Covered(old(complete.ranges), p) || Has(range, p)
      ensures forall p :: Covered(dontDownload.ranges, p) <==> Covered(old(dontDownload.ranges), p) && !Has(range, p)
    {
      complete.Merge(range);
      dontDownload.Erase(range);
    }

    /** setCorrupt(range): the range is no longer complete nor verified, and becomes corrupt. */
    method SetCorrupt(range: Range)
      requires RangesValid()
      modifies this, complete, corrupt, verified
      ensures RangesValid()
      ensures forall p :: Covered(complete.ranges, p) <==> Covered(old(complete.ranges), p) && !Has(range, p)
      ensures forall p :: Covered(corrupt.ranges, p) <==> Covered(old(corrupt.ranges), p) || Has(range, p)
      ensures forall p :: Covered(verified.ranges, p) <==> Covered(old(verified.ranges), p) && !Has(range, p)
      ensures dontDownload.ranges == old(dontDownload.ranges)
      ensures notices == old(notices) + [Corruption(range)]
      ensures avail == old(avail) && State() == old(State()) && buffer == old(buffer) && name == old(name)
    {
      complete.Erase(range);
      corrupt.Merge(range);
      verified.Erase(range);
      notices := notices + [Corruption(range)];
    }

    /** setVerified(range): the range becomes verified and complete, and is no longer corrupt. */
    method SetVerified(range: Range)
      requires RangesValid()
      modifies complete, corrupt, verified
      ensures RangesValid()
      ensures forall p :: Covered(verified.ranges, p) <==> Covered(old(verified.ranges), p) || Has(range, p)
      ensures forall p :: Covered(corrupt.ranges, p) <==> Covered(old(corrupt.ranges), p) && !Has(range, p)
      ensures forall p :: Covered(complete.ranges, p) <==> Covered(old(complete.ranges), p) || Has(range, p)
      ensures dontDownload.ranges == old(dontDownload.ranges)
    {
      verified.Merge(range);
      corrupt.Erase(range);
      complete.Merge(range);
    }
  }
}
