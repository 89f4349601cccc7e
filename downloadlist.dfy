/**
 * The per-file rules of hncore/ed2k/downloadlist.cpp: when a Download may
 * ask a client for more sources (source exchange), and the ed2k link it
 * offers for its file.
 *
 * The clock, the client object and the PartData are outside the model: the
 * current tick, the client's features word and the time of the last
 * exchange with it, the file's running state and its source counts are
 * parameters. Ticks and stored times are uint64_t, so the sums of a time and
 * an interval wrap modulo 2^64 as in the C++ code.
 */
module DownloadList {
  import opened Wrappers
  import opened Streams
  import opened Utils
  import Clients

  /** One source-exchange query per client per 40 minutes, in milliseconds. */
  const SRCEXCH_CTIME: nat := 40 * 60 * 1000
  /** One source-exchange query per file per 5 minutes, in milliseconds. */
  const SRCEXCH_FTIME: nat := 5 * 60 * 1000

  /** A uint64_t sum of a stored time and an interval. */
  function AddTicks(t: nat, d: nat): (r: nat)
    ensures r < U64
    ensures t + d < U64 ==> r == t + d
  {
    (t + d) % U64
  }

  // ------------------------------------------------------ source exchange

  /**
   * isSourceReqAllowed(c): whether to send a source-exchange request for this
   * file to the client. `features` is the client's features word,
   * `sourceLimit` the file's source limit (0 for none), `sourceCount` its
   * number of sources, `clientLast` the time of the last exchange with the
   * client, `fileLast` the time of the last exchange for the file, and
   * `now` the current tick.
   */
  function IsSourceReqAllowed(features: bv32, sourceLimit: nat, sourceCount: nat, running: bool,
                              clientLast: nat, fileLast: nat, now: nat): (r: bool)
    ensures r ==> Clients.SrcExchVer(features) >= 1 && running
    ensures r ==> sourceLimit == 0 || sourceCount < sourceLimit
    ensures r ==> AddTicks(clientLast, SRCEXCH_CTIME) <= now
    ensures r && sourceCount >= 10 ==> AddTicks(fileLast, SRCEXCH_FTIME) <= now
    ensures r && sourceCount >= 50 ==> AddTicks(fileLast, SRCEXCH_FTIME * 4) <= now
  {
    if Clients.SrcExchVer(features) < 1 then false
    else if sourceLimit != 0 && sourceCount >= sourceLimit then false
    else if !running then false
    else if AddTicks(clientLast, SRCEXCH_CTIME) > now then false
    else if sourceCount < 10 then true
    else if AddTicks(fileLast, SRCEXCH_FTIME) > now then false
    else if sourceCount < 50 then true
    else if AddTicks(fileLast, SRCEXCH_FTIME * 4) > now then false
    else true
  }

  /**
   * The other direction of the contract: a client that supports source
   * exchange, for a running file below its limit, is asked once every
   * interval its rarity tier sets has passed.
   */
  lemma AllowedWhenDue(features: bv32, sourceLimit: nat, sourceCount: nat, clientLast: nat, fileLast: nat, now: nat)
    requires Clients.SrcExchVer(features) >= 1
    requires sourceLimit == 0 || sourceCount < sourceLimit
    requires AddTicks(clientLast, SRCEXCH_CTIME) <= now
    requires sourceCount >= 10 ==> AddTicks(fileLast, SRCEXCH_FTIME) <= now
    requires sourceCount >= 50 ==> AddTicks(fileLast, SRCEXCH_FTIME * 4) <= now
    ensures IsSourceReqAllowed(features, sourceLimit, sourceCount, true, clientLast, fileLast, now)
  {
  }

  /** Once allowed, a request stays allowed as time goes on (while the sums do not wrap). */
  lemma AllowedLater(features: bv32, sourceLimit: nat, sourceCount: nat, running: bool,
                     clientLast: nat, fileLast: nat, now: nat, later: nat)
    requires clientLast + SRCEXCH_CTIME < U64 && fileLast + SRCEXCH_FTIME * 4 < U64
    requires now <= later
    requires IsSourceReqAllowed(features, sourceLimit, sourceCount, running, clientLast, fileLast, now)
    ensures IsSourceReqAllowed(features, sourceLimit, sourceCount, running, clientLast, fileLast, later)
  {
  }

  /** A file with fewer sources is never held back more: the rarer the file, the more often it asks. */
  lemma RarerAsksMore(features: bv32, sourceLimit: nat, fewer: nat, sourceCount: nat, running: bool,
                      clientLast: nat, fileLast: nat, now: nat)
    requires fewer <= sourceCount
    requires IsSourceReqAllowed(features, sourceLimit, sourceCount, running, clientLast, fileLast, now)
    ensures IsSourceReqAllowed(features, sourceLimit, fewer, running, clientLast, fileLast, now)
  {
  }

  /** A very rare file (under 10 sources) asks each due client whatever the file's own last request. */
  lemma VeryRareIgnoresFileTime(features: bv32, sourceLimit: nat, sourceCount: nat, running: bool,
                                clientLast: nat, fileLast: nat, fileLast': nat, now: nat)
    requires sourceCount < 10
    ensures IsSourceReqAllowed(features, sourceLimit, sourceCount, running, clientLast, fileLast, now)
        == IsSourceReqAllowed(features, sourceLimit, sourceCount, running, clientLast, fileLast', now)
  {
  }

  // ------------------------------------------------------------------ link

  /** boost::algorithm::replace_all(s, " ", "."). */
  function Dotted(s: string): (r: string)
    ensures |r| == |s|
    ensures forall i :: 0 <= i < |s| ==> r[i] == if s[i] == ' ' then '.' else s[i]
  {
    if s == [] then [] else [if s[0] == ' ' then '.' else s[0]] + Dotted(s[1..])
  }

  predicate NoSpace(s: string) {
    forall i :: 0 <= i < |s| ==> s[i] != ' '
  }

  /** The ed2k link of a file: "ed2k://|file|<name>|<size>|<hash in hex>|/", with every space made a dot. */
  function Link(name: string, size: nat, hash: bytes): (r: string)
    ensures NoSpace(r)
  {
    Dotted("ed2k://|file|" + name + "|" + Decimal(size) + "|" + HexOf(hash) + "|/")
  }

  /** replace_all works piece by piece. */
  lemma DottedConcat(a: string, b: string)
    ensures Dotted(a + b) == Dotted(a) + Dotted(b)
  {
    var l, r := Dotted(a + b), Dotted(a) + Dotted(b);
    assert |l| == |r|;
    forall i | 0 <= i < |l| ensures l[i] == r[i] {
      if i < |a| {
        assert (a + b)[i] == a[i];
      } else {
        assert (a + b)[i] == b[i - |a|];
      }
    }
  }

  /** Text without spaces is left as it is. */
  lemma DottedPlain(s: string)
    requires NoSpace(s)
    ensures Dotted(s) == s
  {
  }

  lemma HexNoSpace(hash: bytes)
    ensures NoSpace(HexOf(hash))
  {
    HexOfLower(hash);
  }

  /** The fixed parts of the link have no spaces. */
  lemma HeadPlain()
    ensures Dotted("ed2k://|file|") == "ed2k://|file|"
  {
    var s := "ed2k://|file|";
    assert s[0] != ' ' && s[1] != ' ' && s[2] != ' ' && s[3] != ' ' && s[4] != ' ' && s[5] != ' ' && s[6] != ' ';
    assert s[7] != ' ' && s[8] != ' ' && s[9] != ' ' && s[10] != ' ' && s[11] != ' ' && s[12] != ' ';
    DottedPlain(s);
  }

  lemma SeparatorsPlain()
    ensures Dotted("|") == "|" && Dotted("|/") == "|/"
  {
    assert "|/"[0] != ' ' && "|/"[1] != ' ';
    DottedPlain("|/");
    assert "|"[0] != ' ';
    DottedPlain("|");
  }

  /** The size and hash fields have no spaces. */
  lemma FieldsPlain(size: nat, hash: bytes)
    ensures Dotted(Decimal(size)) == Decimal(size) && Dotted(HexOf(hash)) == HexOf(hash)
  {
    HexNoSpace(hash);
    DottedPlain(Decimal(size));
    DottedPlain(HexOf(hash));
  }

  /**
   * Only the name is changed by the replacement: the link holds the file
   * name with dots for spaces, the size in decimal and the hash in hex,
   * between the separators, and the size reads back as the file's size.
   */
  lemma LinkFields(name: string, size: nat, hash: bytes)
    ensures Link(name, size, hash)
         == "ed2k://|file|" + Dotted(name) + "|" + Decimal(size) + "|" + HexOf(hash) + "|/"
    ensures DigitsValue(Decimal(size), 10) == size
  {
    var head, d, h := "ed2k://|file|", Decimal(size), HexOf(hash);
    HeadPlain();
    SeparatorsPlain();
    FieldsPlain(size, hash);
    var x1 := head + name;
    var x2 := x1 + "|";
    var x3 := x2 + d;
    var x4 := x3 + "|";
    var x5 := x4 + h;
    DottedConcat(head, name);
    DottedConcat(x1, "|");
    DottedConcat(x2, d);
    DottedConcat(x3, "|");
    DottedConcat(x4, h);
    DottedConcat(x5, "|/");
    DecimalValue(size);
  }

  /** A name without spaces appears in the link as it is. */
  lemma LinkKeepsPlainName(name: string, size: nat, hash: bytes)
    requires NoSpace(name)
    ensures Link(name, size, hash)
         == "ed2k://|file|" + name + "|" + Decimal(size) + "|" + HexOf(hash) + "|/"
  {
    LinkFields(name, size, hash);
    DottedPlain(name);
  }

  /**
   * getLink(file, links): the link is appended when the request is for this
   * Download's own file; for another file CHECK_RET returns with the list
   * untouched.
   */
  function GetLink(ownFile: bool, name: string, size: nat, hash: bytes, links: seq<string>): (r: seq<string>)
    ensures !ownFile ==> r == links
    ensures ownFile ==> |r| == |links| + 1 && r[..|links|] == links
    ensures ownFile ==> NoSpace(r[|links|]) && r[|links|] == Link(name, size, hash)
  {
    if ownFile then links + [Link(name, size, hash)] else links
  }
}
