/**
 * The bandwidth and connection gate of the networking scheduler,
 * hnbase/schedbase.cpp: free bandwidth under the limits, whether a new
 * connection may be opened now, the clamp of the connection limit to what
 * select() can watch, and how the four limits follow configuration changes.
 *
 * The C++ fields are uint32_t except the ticks (uint64_t). The speed meters
 * are reduced to their current speeds, the clock to the field `curTick`, and
 * FD_SETSIZE to the constant field `fdSetSize`.
 */
module SchedBase {
  import opened Wrappers
  import opened Streams
  import opened Utils
  import opened Config

  const U32MAX: nat := 0xFFFF_FFFF

  /** getFreeUp()/getFreeDown(): what the speed leaves of the limit, and 0 once the speed is over it. */
  function FreeBandwidth(limit: nat, speed: nat): (r: nat)
    ensures r <= limit
    ensures speed <= limit ==> r + speed == limit
    ensures speed >= limit ==> r == 0
  {
    if speed > limit then 0 else limit - speed
  }

  /** The more is used, the less is free. */
  lemma FreeBandwidthFalls(limit: nat, s1: nat, s2: nat)
    requires s1 <= s2
    ensures FreeBandwidth(limit, s2) <= FreeBandwidth(limit, s1)
  {
  }

  /** updateConnLimit(): 0 and anything over FD_SETSIZE - 10 become FD_SETSIZE - 10. */
  function ClampConnLimit(limit: nat, fdSetSize: nat): (r: nat)
    requires fdSetSize > 10
    ensures 0 < r <= fdSetSize - 10
    ensures 0 < limit <= fdSetSize - 10 ==> r == limit
    ensures limit == 0 || limit > fdSetSize - 10 ==> r == fdSetSize - 10
  {
    if limit == 0 || limit > fdSetSize - 10 then fdSetSize - 10 else limit
  }

  /** Clamping twice is clamping once. */
  lemma ClampIdempotent(limit: nat, fdSetSize: nat)
    requires fdSetSize > 10
    ensures ClampConnLimit(ClampConnLimit(limit, fdSetSize), fdSetSize) == ClampConnLimit(limit, fdSetSize)
  {
  }

  // -------------------------------------------------------- config changes

  /** What onConfigChange does with a key and its new value. */
  datatype ConfigEffect =
    | Vetoed                    // answers false: the value is not stored
    | Ignored                   // not a scheduler key: answers true, nothing changes
    | SetUpLimit(up: nat)
    | SetDownLimit(down: nat)
    | SetConnLimit(conn: nat)   // before updateConnLimit()
    | SetConnectingLimit(connecting: nat)

  /**
   * onConfigChange(key, val): the four scheduler keys need a uint32_t
   * value; an unlimited (0) upload rate is refused, and 0 means unlimited
   * for the download rate and the connecting limit.
   */
  function OnConfigValue(key: string, val: string): (e: ConfigEffect)
    ensures e.SetUpLimit? ==> 0 < e.up < U32
    ensures e.SetDownLimit? ==> 0 < e.down < U32
    ensures e.SetConnectingLimit? ==> 0 < e.connecting < U32
    ensures e.SetConnLimit? ==> e.conn < U32
  {
    if key == "UpSpeedLimit" then
      match CastU32(val)
      case None => Vetoed
      case Some(n) => if n == 0 then Vetoed else SetUpLimit(n)
    else if key == "DownSpeedLimit" then
      match CastU32(val)
      case None => Vetoed
      case Some(n) => SetDownLimit(if n == 0 then U32MAX else n)
    else if key == "ConnectionLimit" then
      match CastU32(val)
      case None => Vetoed
      case Some(n) => SetConnLimit(n)
    else if key == "ConnectingLimit" then
      match CastU32(val)
      case None => Vetoed
      case Some(n) => SetConnectingLimit(if n == 0 then U32MAX else n)
    else Ignored
  }

  predicate SchedulerKey(key: string) {
    key == "UpSpeedLimit" || key == "DownSpeedLimit" || key == "ConnectionLimit" || key == "ConnectingLimit"
  }

  /** A value written with Config's write<uint32_t> takes effect as written, except the zero cases. */
  lemma NumberApplied(key: string, n: nat)
    requires n < U32 && SchedulerKey(key)
    ensures key == "UpSpeedLimit" ==> OnConfigValue(key, Decimal(n)) == if n == 0 then Vetoed else SetUpLimit(n)
    ensures key == "DownSpeedLimit" ==> OnConfigValue(key, Decimal(n)) == SetDownLimit(if n == 0 then U32MAX else n)
    ensures key == "ConnectionLimit" ==> OnConfigValue(key, Decimal(n)) == SetConnLimit(n)
    ensures key == "ConnectingLimit" ==> OnConfigValue(key, Decimal(n)) == SetConnectingLimit(if n == 0 then U32MAX else n)
  {
    CastDecimal(n);
  }

  /** A scheduler key with a value that is not a uint32_t is refused; any other key is let through untouched. */
  lemma NonNumberRefused(key: string, val: string)
    ensures SchedulerKey(key) && CastU32(val) == None ==> OnConfigValue(key, val) == Vetoed
    ensures !SchedulerKey(key) ==> OnConfigValue(key, val) == Ignored
  {
  }

  // ------------------------------------------------------------ combiner

  /**
   * The Combiner of isAllowed: with no slots the connection is allowed;
   * else slots run until one says no, and the answer is whether none did.
   */
  method IsAllowedCombiner(answers: seq<bool>) returns (ok: bool, called: nat)
    ensures ok <==> forall i :: 0 <= i < |answers| ==> answers[i]
    ensures called == if ok then |answers| else FirstFalse(answers) + 1
  {
    if answers == [] {
      return true, 0;
    }
    var first := 0;
    while first < |answers| && answers[first]
      invariant first <= |answers|
      invariant forall i :: 0 <= i < first ==> answers[i]
    {
      first := first + 1;
    }
    ok := first == |answers|;
    called := if ok then first else first + 1;
  }

  // ------------------------------------------------------------ scheduler

  class Scheduler {
    var upLimit: nat
    var downLimit: nat
    var connLimit: nat
    var connCnt: nat
    var connectingLimit: nat
    var connectingCnt: nat
    var curTick: nat
    var lastConnTime: nat
    var connDelay: nat
    var upSpeed: nat
    var downSpeed: nat
    const fdSetSize: nat

    /** The initial limits: 25 KiB/s up, unlimited down, 300 connections, unlimited connecting. */
    constructor (fdSetSize: nat, connDelay: nat)
      ensures this.fdSetSize == fdSetSize && this.connDelay == connDelay
      ensures upLimit == 25 * 1024 && downLimit == U32MAX && connLimit == 300 && connectingLimit == U32MAX
      ensures connCnt == 0 && connectingCnt == 0 && lastConnTime == 0 && curTick == 0
      ensures upSpeed == 0 && downSpeed == 0
    {
      this.fdSetSize := fdSetSize;
      this.connDelay := connDelay;
      upLimit := 25 * 1024;
      downLimit := U32MAX;
      connLimit := 300;
      connectingLimit := U32MAX;
      connCnt := 0;
      connectingCnt := 0;
      lastConnTime := 0;
      curTick := 0;
      upSpeed := 0;
      downSpeed := 0;
    }

    function GetFreeUp(): (r: nat)
      reads this
      ensures r <= upLimit && (upSpeed <= upLimit ==> r == upLimit - upSpeed)
    {
      FreeBandwidth(upLimit, upSpeed)
    }

    function GetFreeDown(): (r: nat)
      reads this
      ensures r <= downLimit && (downSpeed <= downLimit ==> r == downLimit - downSpeed)
    {
      FreeBandwidth(downLimit, downSpeed)
    }

    /**
     * Whether getConnection(out) grants a connection now: fewer open than
     * the limit; for an outgoing one also fewer connecting than that limit,
     * and the delay since the last granted connection has passed (the sum
     * taken as a uint64_t).
     */
    predicate MayConnect(out: bool)
      reads this
    {
      connCnt < connLimit
      && (out ==> connectingCnt < connectingLimit && (lastConnTime + connDelay) % U64 <= curTick)
    }

    /** getConnection(out): the time of the last connection moves to now only when one is granted. */
    method GetConnection(out: bool) returns (r: bool)
      modifies this
      ensures r == old(MayConnect(out))
      ensures lastConnTime == if r then curTick else old(lastConnTime)
      ensures curTick == old(curTick) && connCnt == old(connCnt) && connLimit == old(connLimit)
      ensures connectingCnt == old(connectingCnt) && connectingLimit == old(connectingLimit) && connDelay == old(connDelay)
      ensures upLimit == old(upLimit) && downLimit == old(downLimit) && upSpeed == old(upSpeed) && downSpeed == old(downSpeed)
    {
      if connCnt >= connLimit {
        return false;
      }
      if out && connectingCnt >= connectingLimit {
        return false;
      }
      if out && (lastConnTime + connDelay) % U64 > curTick {
        return false;
      }
      lastConnTime := curTick;
      r := true;
    }

    /**
     * updateConnLimit(): the limit is clamped; when it was too high, the
     * clamped value is written back to the "/ConnectionLimit" preference,
     * which `saved` returns.
     */
    method UpdateConnLimit() returns (saved: Option<nat>)
      requires fdSetSize > 10
      modifies this
      ensures connLimit == ClampConnLimit(old(connLimit), fdSetSize)
      ensures saved == if old(connLimit) > fdSetSize - 10 then Some(fdSetSize - 10) else None
      ensures upLimit == old(upLimit) && downLimit == old(downLimit) && connectingLimit == old(connectingLimit)
      ensures connCnt == old(connCnt) && connectingCnt == old(connectingCnt) && lastConnTime == old(lastConnTime)
      ensures curTick == old(curTick) && connDelay == old(connDelay) && upSpeed == old(upSpeed) && downSpeed == old(downSpeed)
    {
      saved := None;
      if connLimit == 0 {
        connLimit := fdSetSize - 10;
      } else if connLimit > fdSetSize - 10 {
        connLimit := fdSetSize - 10;
        saved := Some(fdSetSize - 10);
      }
    }

    /** onConfigChange(key, val): the effect OnConfigValue names is applied; the answer is false only for a veto. */
    method OnConfigChange(key: string, val: string) returns (ok: bool, saved: Option<nat>)
      requires fdSetSize > 10
      modifies this
      ensures ok <==> !OnConfigValue(key, val).Vetoed?
      ensures upLimit == (if OnConfigValue(key, val).SetUpLimit? then OnConfigValue(key, val).up else old(upLimit))
      ensures downLimit == (if OnConfigValue(key, val).SetDownLimit? then OnConfigValue(key, val).down else old(downLimit))
      ensures connLimit == (if OnConfigValue(key, val).SetConnLimit? then ClampConnLimit(OnConfigValue(key, val).conn, fdSetSize) else old(connLimit))
      ensures connectingLimit ==
        (if OnConfigValue(key, val).SetConnectingLimit? then OnConfigValue(key, val).connecting else old(connectingLimit))
      ensures saved.Some? ==> OnConfigValue(key, val).SetConnLimit? && saved.value == fdSetSize - 10
      ensures connCnt == old(connCnt) && connectingCnt == old(connectingCnt) && lastConnTime == old(lastConnTime)
      ensures curTick == old(curTick) && connDelay == old(connDelay) && upSpeed == old(upSpeed) && downSpeed == old(downSpeed)
    {
      saved := None;
      var e := OnConfigValue(key, val);
      match e
      case Vetoed => ok := false;
      case Ignored => ok := true;
      case SetUpLimit(n) =>
        upLimit := n;
        ok := true;
      case SetDownLimit(n) =>
        downLimit := n;
        ok := true;
      case SetConnLimit(n) =>
        connLimit := n;
        saved := UpdateConnLimit();
        ok := true;
      case SetConnectingLimit(n) =>
        connectingLimit := n;
        ok := true;
    }

    /** addConn()/delConn(): the open connection count; delConn asserts there is one. */
    method AddConn()
      modifies this
      ensures connCnt == old(connCnt) + 1 && connLimit == old(connLimit)
    {
      connCnt := connCnt + 1;
    }

    method DelConn()
      requires connCnt > 0
      modifies this
      ensures connCnt == old(connCnt) - 1 && connLimit == old(connLimit)
    {
      connCnt := connCnt - 1;
    }
  }

  /** At the limit no connection of either kind is granted. */
  lemma RefusedAtLimit(s: Scheduler, out: bool)
    requires s.connCnt >= s.connLimit
    ensures !s.MayConnect(out)
  {
  }

  /** A granted outgoing connection comes at least connDelay after the last one, while the tick sum has not wrapped. */
  lemma OutgoingSpaced(s: Scheduler)
    requires s.MayConnect(true) && s.lastConnTime + s.connDelay < U64
    ensures s.curTick >= s.lastConnTime + s.connDelay
    ensures s.connectingCnt < s.connectingLimit
  {
  }
}
