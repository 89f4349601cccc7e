/**
 * The logger of hnbase/log.cpp and hnbase/log.h: the history of the last 100
 * messages, the copy of each message written to the log files with its
 * colour sequences taken out, the prefix string, and the trace masks that
 * decide whether a trace message is shown.
 *
 * The console, the log files and the time stamp are outside the model: what
 * would be written to the files is recorded in `fileLines`, one entry per
 * message. The message-type handlers and the mutexes are left out.
 */
module Log {
  import opened Wrappers
  import Streams

  const ESC: char := 27 as char
  const HISTORY_SIZE: nat := 100

  // -------------------------------------------------------------- colours

  /** std::string::find(c, from): the first c at or after from. */
  function Find(s: string, c: char, from: nat): (r: Option<nat>)
    ensures r.Some? ==> from <= r.value < |s| && s[r.value] == c
    decreases |s| - from
  {
    if from >= |s| then None
    else if s[from] == c then Some(from)
    else Find(s, c, from + 1)
  }

  /** What Find skips holds no c: it is the first one, and None means there is none. */
  lemma {:induction false} FindFirst(s: string, c: char, from: nat)
    ensures Find(s, c, from).Some? ==> forall k :: from <= k < Find(s, c, from).value ==> s[k] != c
    ensures Find(s, c, from).None? ==> forall k :: from <= k < |s| ==> s[k] != c
    decreases |s| - from
  {
    if from < |s| && s[from] != c {
      FindFirst(s, c, from + 1);
    }
  }

  /** Conversely, a c with none before it is what Find returns. */
  lemma {:induction false} FindIsFirst(s: string, c: char, from: nat, j: nat)
    requires from <= j < |s| && s[j] == c
    requires forall k :: from <= k < j ==> s[k] != c
    ensures Find(s, c, from) == Some(j)
    decreases j - from
  {
    if from < j {
      FindIsFirst(s, c, from + 1, j);
    }
  }

  predicate NoEsc(s: string) {
    forall k :: 0 <= k < |s| ==> s[k] != ESC
  }

  /**
   * A message with every colour sequence taken out, read character by
   * character: an ESC starts a sequence that ends at the next 'm'; an ESC
   * with no 'm' after it drops the rest of the message (the erase length
   * then runs past the end).
   */
  function Stripped(s: string): (r: string)
    decreases |s|
  {
    if s == [] then []
    else if s[0] != ESC then [s[0]] + Stripped(s[1..])
    else
      match Find(s, 'm', 0)
      case None => []
      case Some(j) => Stripped(s[j + 1..])
  }

  /** Find moved past a prefix: the positions shift by the prefix's length. */
  function Shift(r: Option<nat>, d: nat): Option<nat> {
    if r.None? then None else Some(r.value + d)
  }

  lemma {:induction false} FindShifted(a: string, b: string, c: char, q: nat)
    ensures Find(a + b, c, |a| + q) == Shift(Find(b, c, q), |a|)
    decreases |b| - q
  {
    if q < |b| {
      assert (a + b)[|a| + q] == b[q];
      if b[q] != c {
        FindShifted(a, b, c, q + 1);
      }
    }
  }

  lemma ConcatAssoc(a: string, b: string, c: string)
    ensures a + (b + c) == (a + b) + c
  {
  }

  /** Text without ESC in front of the rest is kept as it is. */
  lemma {:induction false} StrippedAfterPlain(a: string, b: string)
    requires NoEsc(a)
    ensures Stripped(a + b) == a + Stripped(b)
    decreases |a|
  {
    if a == [] {
      assert a + b == b;
    } else {
      assert (a + b)[0] == a[0];
      assert (a + b)[1..] == a[1..] + b;
      StrippedAfterPlain(a[1..], b);
      ConcatAssoc([a[0]], a[1..], Stripped(b));
      assert [a[0]] + a[1..] == a;
    }
  }

  /** No ESC is left, so the file copy holds no colour sequence. */
  lemma {:induction false} StrippedNoEsc(s: string)
    ensures NoEsc(Stripped(s))
    decreases |s|
  {
    if s == [] {
    } else if s[0] != ESC {
      StrippedNoEsc(s[1..]);
      var r := Stripped(s[1..]);
      forall k | 0 <= k < |[s[0]] + r| ensures ([s[0]] + r)[k] != ESC {
        if k > 0 { assert ([s[0]] + r)[k] == r[k - 1]; }
      }
    } else {
      match Find(s, 'm', 0)
      case None =>
      case Some(j) => StrippedNoEsc(s[j + 1..]);
    }
  }

  /** A message without colours is written as it is, and stripping twice is stripping once. */
  lemma StrippedPlain(s: string)
    ensures NoEsc(s) ==> Stripped(s) == s
    ensures Stripped(Stripped(s)) == Stripped(s)
  {
    if NoEsc(s) {
      StrippedAfterPlain(s, []);
      assert s + [] == s;
    }
    StrippedNoEsc(s);
    StrippedAfterPlain(Stripped(s), []);
    assert Stripped(s) + [] == Stripped(s);
  }

  /** One colour sequence between two texts is taken out, and only it. */
  lemma ColourRemoved(a: string, code: string, b: string)
    requires NoEsc(a) && NoEsc(b) && forall k :: 0 <= k < |code| ==> code[k] != 'm'
    ensures Stripped(a + ([ESC] + code + "m") + b) == a + b
  {
    var c := [ESC] + code + "m";
    var s := c + b;
    ConcatAssoc(a, c, b);
    StrippedAfterPlain(a, s);
    assert s[1 + |code|] == 'm';
    forall k | 0 <= k < 1 + |code| ensures s[k] != 'm' {
      if k > 0 { assert s[k] == code[k - 1]; }
    }
    FindIsFirst(s, 'm', 0, 1 + |code|);
    assert s[2 + |code|..] == b;
    StrippedPlain(b);
  }

  /** A colour sequence at the front is dropped, and with it everything when it has no 'm'. */
  lemma StrippedAtEsc(t: string)
    requires t != [] && t[0] == ESC
    ensures Find(t, 'm', 0).None? ==> Stripped(t) == []
    ensures Find(t, 'm', 0).Some? ==> Stripped(t) == Stripped(t[Find(t, 'm', 0).value + 1..])
  {
  }

  /** Up to the first ESC the message is plain: it is kept, and the search for 'm' from there runs on the rest. */
  lemma SplitAtEsc(r: string, p: nat)
    requires Find(r, ESC, 0) == Some(p)
    ensures NoEsc(r[..p]) && r[..p] + r[p..] == r
    ensures Stripped(r) == r[..p] + Stripped(r[p..])
    ensures Find(r, 'm', p) == Shift(Find(r[p..], 'm', 0), p)
  {
    var head, tail := r[..p], r[p..];
    FindFirst(r, ESC, 0);
    Streams.TakeDrop(r, p);
    assert NoEsc(head);
    StrippedAfterPlain(head, tail);
    FindShifted(head, tail, 'm', 0);
  }

  /** An ESC with no 'm' after it: everything from there on is dropped. */
  lemma EraseCut(head: string, tail: string)
    requires NoEsc(head) && tail != [] && tail[0] == ESC && Find(tail, 'm', 0).None?
    ensures Stripped(head) == Stripped(head + tail)
  {
    StrippedAtEsc(tail);
    StrippedAfterPlain(head, tail);
    StrippedPlain(head);
    assert head + [] == head;
  }

  /** An ESC whose sequence ends at tail[k]: erasing the sequence leaves the stripped text as it was. */
  lemma EraseSequence(head: string, tail: string, k: nat)
    requires NoEsc(head) && tail != [] && tail[0] == ESC && Find(tail, 'm', 0) == Some(k)
    ensures Stripped(head + tail[k + 1..]) == Stripped(head + tail)
  {
    StrippedAtEsc(tail);
    StrippedAfterPlain(head, tail);
    StrippedAfterPlain(head, tail[k + 1..]);
  }

  /** A round of the loop below that finds no 'm' after the first ESC: the message is cut there. */
  lemma EraseCutAt(r: string, p: nat)
    requires Find(r, ESC, 0) == Some(p) && Find(r, 'm', p).None?
    ensures Stripped(r[..p]) == Stripped(r)
  {
    SplitAtEsc(r, p);
    EraseCut(r[..p], r[p..]);
  }

  /** A round of the loop below that finds the 'm' at j: the colour sequence from the first ESC to j is erased. */
  lemma EraseSequenceAt(r: string, p: nat, j: nat)
    requires Find(r, ESC, 0) == Some(p) && Find(r, 'm', p) == Some(j)
    ensures Stripped(r[..p] + r[j + 1..]) == Stripped(r)
  {
    SplitAtEsc(r, p);
    var tail := r[p..];
    var k := j - p;
    assert Find(tail, 'm', 0) == Some(k);
    assert tail[k + 1..] == r[j + 1..];
    EraseSequence(r[..p], tail, k);
  }

  /** The loop of sendToFiles() and writeMsg(): find the first ESC, erase up to the next 'm', search again from the start. */
  method StripColors(msg: string) returns (r: string)
    ensures r == Stripped(msg)
  {
    r := msg;
    var pos := Find(r, ESC, 0);
    while pos.Some?
      invariant Stripped(r) == Stripped(msg)
      invariant pos == Find(r, ESC, 0)
      decreases |r|
    {
      var p := pos.value;
      var j := Find(r, 'm', p);
      if j.None? {
        EraseCutAt(r, p);
        r := r[..p];
      } else {
        EraseSequenceAt(r, p, j.value);
        r := r[..p] + r[j.value + 1..];
      }
      pos := Find(r, ESC, 0);
    }
    FindFirst(r, ESC, 0);
    StrippedPlain(r);
  }

  // --------------------------------------------------------------- history

  /** The last min(n, |h|) entries of h, oldest first. */
  function Last(h: seq<string>, n: nat): (r: seq<string>)
    ensures |r| == if n <= |h| then n else |h|
  {
    if n <= |h| then h[|h| - n..] else h
  }

  /** addMsg: the message is appended and, past 100 entries, the oldest is dropped. */
  function Pushed(h: seq<string>, msg: string): (r: seq<string>)
    ensures |h| <= HISTORY_SIZE ==> |r| <= HISTORY_SIZE
    ensures r != [] && r[|r| - 1] == msg
  {
    var h' := h + [msg];
    if |h'| > HISTORY_SIZE then h'[1..] else h'
  }

  /** The history after a series of messages. */
  function PushedAll(h: seq<string>, msgs: seq<string>): seq<string>
    decreases |msgs|
  {
    if msgs == [] then h else PushedAll(Pushed(h, msgs[0]), msgs[1..])
  }

  /** However many messages come, the history holds the last 100 of them, oldest first. */
  lemma {:induction false} HistoryIsLast(h: seq<string>, msgs: seq<string>)
    requires |h| <= HISTORY_SIZE
    ensures PushedAll(h, msgs) == Last(h + msgs, HISTORY_SIZE)
    decreases |msgs|
  {
    if msgs == [] {
      assert h + msgs == h;
    } else {
      var h1 := Pushed(h, msgs[0]);
      HistoryIsLast(h1, msgs[1..]);
      var all := h + msgs;
      assert h + [msgs[0]] + msgs[1..] == all;
      if |h| + 1 > HISTORY_SIZE {
        assert h1 + msgs[1..] == all[1..];
        LastOfTail(all, HISTORY_SIZE);
      } else {
        assert h1 + msgs[1..] == all;
      }
    }
  }

  /** Dropping the first entry of a list longer than n leaves its last n entries as they are. */
  lemma LastOfTail(s: seq<string>, n: nat)
    requires n < |s|
    ensures Last(s[1..], n) == Last(s, n)
  {
    assert s[1..][|s| - 1 - n..] == s[|s| - n..];
  }

  class Log {
    var messages: seq<string>
    var fileLines: seq<string>
    var preStr: string
    var traceMasks: map<int, string>
    var strMasks: set<string>
    var enabledStrMasks: set<string>

    predicate Valid()
      reads this
    {
      |messages| <= HISTORY_SIZE
    }

    constructor ()
      ensures Valid() && messages == [] && fileLines == [] && preStr == ""
      ensures traceMasks == map[] && strMasks == {} && enabledStrMasks == {}
    {
      messages := [];
      fileLines := [];
      preStr := "";
      traceMasks := map[];
      strMasks := {};
      enabledStrMasks := {};
    }

    /** addMsg(t, msg). */
    method AddMsg(msg: string)
      requires Valid()
      modifies this
      ensures Valid() && messages == Pushed(old(messages), msg)
      ensures fileLines == old(fileLines) && preStr == old(preStr)
      ensures traceMasks == old(traceMasks) && strMasks == old(strMasks) && enabledStrMasks == old(enabledStrMasks)
    {
      messages := messages + [msg];
      if |messages| > HISTORY_SIZE {
        messages := messages[1..];
      }
    }

    /** getLastMsg(): the newest message (the history must not be empty). */
    function GetLastMsg(): (r: string)
      requires messages != []
      reads this
      ensures r in messages
    {
      messages[|messages| - 1]
    }

    /** getLast(count, cont): the last min(count, size) messages are appended to cont, oldest first. */
    method GetLast(count: nat, cont: seq<string>) returns (r: seq<string>)
      ensures r == cont + Last(messages, count)
    {
      var size := |messages|;
      var c := count;
      if c > size {
        c := size;
      }
      ghost var first := size - c;
      r := cont;
      while c > 0
        invariant first <= size - c <= size
        invariant r == cont + messages[first..size - c]
      {
        c := c - 1;
        assert messages[first..size - c] == messages[first..size - c - 1] + [messages[size - c - 1]];
        r := r + [messages[size - c - 1]];
      }
      assert messages[first..size] == Last(messages, count);
    }

    /**
     * doLogString(t, msg): the copy for the files is stripped of colours,
     * the history keeps the message as it is.
     */
    method LogString(msg: string)
      requires Valid()
      modifies this
      ensures Valid() && messages == Pushed(old(messages), msg)
      ensures fileLines == old(fileLines) + [Stripped(msg)]
      ensures preStr == old(preStr) && traceMasks == old(traceMasks)
      ensures strMasks == old(strMasks) && enabledStrMasks == old(enabledStrMasks)
    {
      var line := StripColors(msg);
      fileLines := fileLines + [line];
      AddMsg(msg);
    }

    /**
     * doLogString(mask, msg): with the string mask enabled the message is
     * logged as "Trace(mask): msg"; else it only enters the history.
     */
    method TraceString(mask: string, msg: string)
      requires Valid()
      modifies this
      ensures Valid()
      ensures mask in old(enabledStrMasks) ==>
        (messages == Pushed(old(messages), "Trace(" + mask + "): " + msg)
        && fileLines == old(fileLines) + [Stripped("Trace(" + mask + "): " + msg)])
      ensures mask !in old(enabledStrMasks) ==>
        messages == Pushed(old(messages), msg) && fileLines == old(fileLines)
      ensures preStr == old(preStr) && traceMasks == old(traceMasks)
      ensures strMasks == old(strMasks) && enabledStrMasks == old(enabledStrMasks)
    {
      if mask in enabledStrMasks {
        LogString("Trace(" + mask + "): " + msg);
      } else {
        AddMsg(msg);
      }
    }

    /** doLogString(traceMask, msg): the same, for an integer mask and its string. */
    method TraceInt(traceMask: int, msg: string)
      requires Valid()
      modifies this
      ensures Valid()
      ensures traceMask in old(traceMasks) ==>
        (messages == Pushed(old(messages), "Trace(" + old(traceMasks)[traceMask] + "): " + msg)
        && fileLines == old(fileLines) + [Stripped("Trace(" + old(traceMasks)[traceMask] + "): " + msg)])
      ensures traceMask !in old(traceMasks) ==>
        messages == Pushed(old(messages), msg) && fileLines == old(fileLines)
      ensures preStr == old(preStr) && traceMasks == old(traceMasks)
      ensures strMasks == old(strMasks) && enabledStrMasks == old(enabledStrMasks)
    {
      if traceMask in traceMasks {
        LogString("Trace(" + traceMasks[traceMask] + "): " + msg);
      } else {
        AddMsg(msg);
      }
    }

    /** getTraceStr(traceMask): the mask's string, or "" for one not enabled. */
    function GetTraceStr(traceMask: int): (r: string)
      reads this
      ensures traceMask !in traceMasks ==> r == ""
      ensures traceMask in traceMasks ==> r == traceMasks[traceMask]
    {
      if traceMask in traceMasks then traceMasks[traceMask] else ""
    }

    method EnableTraceMask(traceInt: int, traceStr: string)
      modifies this
      ensures traceMasks == old(traceMasks)[traceInt := traceStr]
      ensures messages == old(messages) && fileLines == old(fileLines) && preStr == old(preStr)
      ensures strMasks == old(strMasks) && enabledStrMasks == old(enabledStrMasks)
    {
      traceMasks := traceMasks[traceInt := traceStr];
    }

    method DisableTraceMask(traceInt: int)
      modifies this
      ensures traceMasks == old(traceMasks) - {traceInt}
      ensures messages == old(messages) && fileLines == old(fileLines) && preStr == old(preStr)
      ensures strMasks == old(strMasks) && enabledStrMasks == old(enabledStrMasks)
    {
      traceMasks := traceMasks - {traceInt};
    }

    method EnableStrMask(mask: string)
      modifies this
      ensures enabledStrMasks == old(enabledStrMasks) + {mask}
      ensures messages == old(messages) && fileLines == old(fileLines) && preStr == old(preStr)
      ensures strMasks == old(strMasks) && traceMasks == old(traceMasks)
    {
      enabledStrMasks := enabledStrMasks + {mask};
    }

    method AddTraceMask(mask: string)
      modifies this
      ensures strMasks == old(strMasks) + {mask}
      ensures messages == old(messages) && fileLines == old(fileLines) && preStr == old(preStr)
      ensures enabledStrMasks == old(enabledStrMasks) && traceMasks == old(traceMasks)
    {
      strMasks := strMasks + {mask};
    }

    method DisableStrMask(mask: string)
      modifies this
      ensures enabledStrMasks == old(enabledStrMasks) - {mask}
      ensures messages == old(messages) && fileLines == old(fileLines) && preStr == old(preStr)
      ensures strMasks == old(strMasks) && traceMasks == old(traceMasks)
    {
      enabledStrMasks := enabledStrMasks - {mask};
    }

    /** removeTraceMask(mask): the mask is disabled and no longer offered. */
    method RemoveTraceMask(mask: string)
      modifies this
      ensures enabledStrMasks == old(enabledStrMasks) - {mask} && strMasks == old(strMasks) - {mask}
      ensures messages == old(messages) && fileLines == old(fileLines) && preStr == old(preStr)
      ensures traceMasks == old(traceMasks)
    {
      DisableStrMask(mask);
      strMasks := strMasks - {mask};
    }

    method AddPreStr(str: string)
      modifies this
      ensures preStr == old(preStr) + str
      ensures messages == old(messages) && fileLines == old(fileLines) && traceMasks == old(traceMasks)
      ensures strMasks == old(strMasks) && enabledStrMasks == old(enabledStrMasks)
    {
      preStr := preStr + str;
    }

    /** remPreStr(str): the last occurrence of str is cut out of the prefix. */
    method RemPreStr(str: string)
      modifies this
      ensures preStr == RemovedLast(old(preStr), str)
      ensures messages == old(messages) && fileLines == old(fileLines) && traceMasks == old(traceMasks)
      ensures strMasks == old(strMasks) && enabledStrMasks == old(enabledStrMasks)
    {
      var i := RFind(preStr, str);
      if i.Some? {
        preStr := preStr[..i.value] + preStr[i.value + |str|..];
      }
    }
  }

  // ---------------------------------------------------------------- prefix

  /** Whether t occurs in s at k. */
  predicate OccursAt(s: string, t: string, k: nat) {
    k + |t| <= |s| && s[k..k + |t|] == t
  }

  /** The search of rfind, from position k down. */
  function RFindAt(s: string, t: string, k: nat): (r: Option<nat>)
    requires k + |t| <= |s|
    ensures r.Some? ==> r.value <= k && OccursAt(s, t, r.value)
    ensures r.Some? ==> forall i :: r.value < i <= k ==> !OccursAt(s, t, i)
    ensures r.None? ==> forall i :: 0 <= i <= k ==> !OccursAt(s, t, i)
    decreases k
  {
    if s[k..k + |t|] == t then Some(k)
    else if k == 0 then None
    else RFindAt(s, t, k - 1)
  }

  /** std::string::rfind(t): where the last occurrence of t starts. */
  function RFind(s: string, t: string): (r: Option<nat>)
    ensures r.Some? ==> OccursAt(s, t, r.value) && forall i :: r.value < i ==> !OccursAt(s, t, i)
    ensures r.None? ==> forall i :: !OccursAt(s, t, i)
  {
    if |t| > |s| then None else RFindAt(s, t, |s| - |t|)
  }

  /** The prefix with the last occurrence of t cut out; unchanged when t does not occur. */
  function RemovedLast(s: string, t: string): (r: string)
    ensures RFind(s, t).None? ==> r == s
    ensures RFind(s, t).Some? ==> |r| == |s| - |t|
  {
    match RFind(s, t)
    case None => s
    case Some(i) => s[..i] + s[i + |t|..]
  }

  /** Removing what was just added restores the prefix, even when the string also occurs earlier. */
  lemma AddThenRemove(p: string, t: string)
    ensures RemovedLast(p + t, t) == p
  {
    var s := p + t;
    assert s[|p|..|p| + |t|] == t;
    assert RFind(s, t) == Some(|p|);
    assert s[..|p|] == p;
  }

  /** Of two occurrences, it is the later one that goes. */
  lemma RemovesLastOnly(a: string, t: string, b: string)
    requires forall i :: |a| < i ==> !OccursAt(a + t + b, t, i)
    ensures RemovedLast(a + t + b, t) == a + b
  {
    var s := a + t + b;
    assert s[|a|..|a| + |t|] == t;
    assert OccursAt(s, t, |a|);
    assert RFind(s, t) == Some(|a|);
    assert s[..|a|] == a && s[|a| + |t|..] == b;
  }
}
