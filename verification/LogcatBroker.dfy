/** The log buffer of `logcat_broker.cpp`: a bounded deque that is always a suffix of what was logged,
    the query over it, and the packets of the log socket. */
module LogcatBroker {
  import opened Bytes
  import opened Text

  const MAIN: nat := 0
  const CRASH: nat := 4
  const INFO: nat := 4
  const FATAL: nat := 7
  const HEADER_SIZE: nat := 11

  datatype LogEntry = LogEntry(
    sequence: nat, bufferId: nat, priority: nat, pid: int, tid: int, tag: string, message: string)

  // ---------------------------------------------------------------------------
  // Queries
  // ---------------------------------------------------------------------------

  predicate Matches(e: LogEntry, bufferIdFilter: int, minPriority: int) {
    (bufferIdFilter < 0 || e.bufferId == bufferIdFilter) && e.priority >= minPriority
  }

  function Filter(es: seq<LogEntry>, bufferIdFilter: int, minPriority: int): seq<LogEntry> {
    if es == [] then []
    else (if Matches(es[0], bufferIdFilter, minPriority) then [es[0]] else [])
         + Filter(es[1..], bufferIdFilter, minPriority)
  }

  /** `maxLines` as the unsigned limit it is cast to: a negative one limits nothing in practice. */
  function LineLimit(maxLines: int): nat
    requires -TWO_63 <= maxLines < TWO_63
  {
    if maxLines >= 0 then maxLines else TWO_64 + maxLines
  }

  /** The last n entries, in order. */
  function LastOf(es: seq<LogEntry>, n: nat): seq<LogEntry> {
    if |es| <= n then es else es[|es| - n..]
  }

  lemma {:induction false} FilterAppend(a: seq<LogEntry>, b: seq<LogEntry>, f: int, p: int)
    ensures Filter(a + b, f, p) == Filter(a, f, p) + Filter(b, f, p)
  {
    if a == [] {
      assert a + b == b;
    } else {
      assert (a + b)[0] == a[0] && (a + b)[1..] == a[1..] + b;
      FilterAppend(a[1..], b, f, p);
      Assoc(if Matches(a[0], f, p) then [a[0]] else [], Filter(a[1..], f, p), Filter(b, f, p));
    }
  }

  /** A filter keeps exactly the matching entries, in their order. */
  lemma {:induction false} FilterMembers(es: seq<LogEntry>, f: int, p: int)
    ensures |Filter(es, f, p)| <= |es|
    ensures forall e :: e in Filter(es, f, p) <==> e in es && (f < 0 || e.bufferId == f) && e.priority >= p
  {
    if es != [] {
      FilterMembers(es[1..], f, p);
      forall e ensures e in es <==> e == es[0] || e in es[1..] {}
    }
  }

  /** Each entry is kept at its place or left out. */
  lemma FilterEach(a: seq<LogEntry>, e: LogEntry, b: seq<LogEntry>, f: int, p: int)
    ensures Filter(a + [e] + b, f, p)
         == Filter(a, f, p) + (if (f < 0 || e.bufferId == f) && e.priority >= p then [e] else []) + Filter(b, f, p)
  {
    FilterAppend(a + [e], b, f, p);
    FilterAppend(a, [e], f, p);
    assert [e][1..] == [];
    assert Filter([e], f, p) == (if Matches(e, f, p) then [e] else []) + [];
  }

  function Reversed(es: seq<LogEntry>): (r: seq<LogEntry>)
    ensures |r| == |es|
    ensures forall i :: 0 <= i < |es| ==> r[i] == es[|es| - 1 - i]
  {
    if es == [] then [] else Reversed(es[1..]) + [es[0]]
  }

  // ---------------------------------------------------------------------------
  // The buffer
  // ---------------------------------------------------------------------------

  predicate IsSuffix(r: seq<LogEntry>, h: seq<LogEntry>) {
    |r| <= |h| && h[|h| - |r|..] == r
  }

  lemma SuffixPush(r: seq<LogEntry>, h: seq<LogEntry>, e: LogEntry)
    requires IsSuffix(r, h)
    ensures IsSuffix(r + [e], h + [e])
  {
  }

  lemma SuffixDrop(r: seq<LogEntry>, h: seq<LogEntry>)
    requires IsSuffix(r, h) && r != []
    ensures IsSuffix(r[1..], h)
  {
  }

  /** Entries numbered without gaps up to `last`. */
  predicate NumberedTo(h: seq<LogEntry>, last: nat) {
    |h| <= last && forall i :: 0 <= i < |h| ==> h[i].sequence == last - |h| + 1 + i
  }

  /** The buffer is a suffix of the history, numbered without gaps up to the counter; it holds at least
      the last `max` entries and at most one more for each tombstone. */
  ghost predicate Window(r: seq<LogEntry>, h: seq<LogEntry>, last: nat, max: nat, tombstones: nat) {
    && IsSuffix(r, h) && NumberedTo(h, last)
    && |r| <= max + tombstones
    && (|r| < max ==> r == h)
  }

  /** Logging keeps the window: the entry goes in, and a full buffer drops its oldest. */
  lemma WindowLog(r: seq<LogEntry>, h: seq<LogEntry>, last: nat, max: nat, tombstones: nat, e: LogEntry)
    requires Window(r, h, last, max, tombstones) && e.sequence == last + 1
    ensures Window(if |r| < max then r + [e] else (r + [e])[1..], h + [e], last + 1, max, tombstones)
  {
    SuffixPush(r, h, e);
    hide IsSuffix;
    if |r| >= max {
      SuffixDrop(r + [e], h + [e]);
    }
  }

  /** A tombstone keeps the window, which grows by it. */
  lemma WindowTombstone(r: seq<LogEntry>, h: seq<LogEntry>, last: nat, max: nat, tombstones: nat, e: LogEntry)
    requires Window(r, h, last, max, tombstones) && e.sequence == last + 1
    ensures Window(r + [e], h + [e], last + 1, max, tombstones + 1)
  {
    SuffixPush(r, h, e);
    hide IsSuffix;
  }

  class LogcatBroker {
    const maxEntries: nat
    var seqCounter: nat
    var totalReceived: nat
    var totalCrashes: nat
    var ringBuffer: seq<LogEntry>
    ghost var history: seq<LogEntry>  // everything logged since the last clear
    ghost var tombstones: nat         // how many of them were tombstones

    constructor (maxEntries: nat)
      ensures Valid() && this.maxEntries == maxEntries && ringBuffer == [] && seqCounter == 0
    {
      this.maxEntries := maxEntries;
      seqCounter, totalReceived, totalCrashes := 0, 0, 0;
      ringBuffer, history, tombstones := [], [], 0;
    }

    ghost predicate Valid()
      reads this
    {
      Window(ringBuffer, history, seqCounter, maxEntries, tombstones)
    }

    method AppendLog(bufferId: nat, priority: nat, pid: int, tid: int, tag: string, message: string)
      requires Valid()
      modifies this
      ensures Valid()
      ensures seqCounter == old(seqCounter) + 1 && totalReceived == old(totalReceived) + 1
      ensures totalCrashes == old(totalCrashes) + if bufferId == 4 then 1 else 0
      ensures |ringBuffer| == SizeAfter(maxEntries, |old(ringBuffer)|, Log)
      ensures var e := LogEntry(seqCounter, bufferId, priority, pid, tid, tag, message);
              && history == old(history) + [e] && tombstones == old(tombstones)
              && ringBuffer == if |old(ringBuffer)| < maxEntries then old(ringBuffer) + [e]
                               else (old(ringBuffer) + [e])[1..]
    {
      hide Window;
      seqCounter := seqCounter + 1;
      var entry := LogEntry(seqCounter, bufferId, priority, pid, tid, tag, message);
      totalReceived := totalReceived + 1;
      if bufferId == CRASH {
        totalCrashes := totalCrashes + 1;
      }
      WindowLog(ringBuffer, history, seqCounter - 1, maxEntries, tombstones, entry);
      ringBuffer := ringBuffer + [entry];
      history := history + [entry];
      if |ringBuffer| > maxEntries {
        ringBuffer := ringBuffer[1..];
      }
    }

    /** The crash entry a tombstone leaves; nothing is evicted for it. */
    method InjectTombstone(pid: int, tid: int, message: string)
      requires Valid()
      modifies this
      ensures Valid()
      ensures seqCounter == old(seqCounter) + 1 && totalReceived == old(totalReceived)
      ensures totalCrashes == old(totalCrashes) + 1
      ensures |ringBuffer| == SizeAfter(maxEntries, |old(ringBuffer)|, Tombstone)
      ensures var e := LogEntry(seqCounter, 4, 7, pid, tid, "DEBUGGERD", message);
              && history == old(history) + [e] && tombstones == old(tombstones) + 1
              && ringBuffer == old(ringBuffer) + [e]
    {
      hide Window;
      seqCounter := seqCounter + 1;
      var crashEntry := LogEntry(seqCounter, CRASH, FATAL, pid, tid, "DEBUGGERD", message);
      WindowTombstone(ringBuffer, history, seqCounter - 1, maxEntries, tombstones, crashEntry);
      ringBuffer := ringBuffer + [crashEntry];
      history, tombstones := history + [crashEntry], tombstones + 1;
      totalCrashes := totalCrashes + 1;
    }

    method ClearLogs()
      requires Valid()
      modifies `ringBuffer, `history, `tombstones
      ensures Valid() && ringBuffer == [] == history && tombstones == 0
    {
      ringBuffer, history, tombstones := [], [], 0;
    }

    /** Scans from the newest entry back until enough match, then turns them round. */
    method GetRecentLogs(bufferIdFilter: int, minPriority: int, maxLines: int) returns (lines: seq<LogEntry>)
      requires -TWO_63 <= maxLines < TWO_63
      ensures lines == LastOf(Filter(ringBuffer, bufferIdFilter, minPriority), LineLimit(maxLines))
      ensures forall e :: e in lines ==>
                e in ringBuffer && e.priority >= minPriority && (bufferIdFilter >= 0 ==> e.bufferId == bufferIdFilter)
      ensures var all := Filter(ringBuffer, bufferIdFilter, minPriority);
              && (maxLines < 0 && |all| < TWO_63 ==> lines == all)
              && (maxLines >= 0 ==> |lines| == Min(maxLines, |all|) && lines == all[|all| - |lines|..])
    {
      var matched: seq<LogEntry> := [];
      var limit := LineLimit(maxLines);
      var i := |ringBuffer|;
      assert ringBuffer[i..] == [];
      while i > 0 && |matched| < limit
        invariant i <= |ringBuffer| && |matched| <= limit
        invariant Reversed(matched) == Filter(ringBuffer[i..], bufferIdFilter, minPriority)
      {
        i := i - 1;
        var e := ringBuffer[i];
        assert ringBuffer[i..] == [e] + ringBuffer[i + 1..];
        if Matches(e, bufferIdFilter, minPriority) {
          ReversedSnoc(matched, e);
          matched := matched + [e];
        }
      }
      assert ringBuffer == ringBuffer[..i] + ringBuffer[i..];
      FilterAppend(ringBuffer[..i], ringBuffer[i..], bufferIdFilter, minPriority);
      lines := Reversed(matched);
      LastOfAppend(Filter(ringBuffer[..i], bufferIdFilter, minPriority), lines, limit, i);
      if i == 0 {
        assert ringBuffer[..0] == [];
      }
      ghost var all := Filter(ringBuffer, bufferIdFilter, minPriority);
      FilterMembers(ringBuffer, bufferIdFilter, minPriority);
      assert forall e :: e in LastOf(all, limit) ==> e in all;
    }

    /** One datagram of the log socket; `self` is this process's id. */
    method HandleLogdwPacket(buffer: seq<byte>, clientPid: int, self: int)
      requires Valid()
      modifies this
      ensures Valid()
      ensures match Decode(buffer)
              case None =>
                && history == old(history) && ringBuffer == old(ringBuffer) && seqCounter == old(seqCounter)
                && totalReceived == old(totalReceived) && totalCrashes == old(totalCrashes)
              case Some(p) =>
                var e := LogEntry(old(seqCounter) + 1, p.bufferId, p.priority,
                                  if clientPid != 0 || p.raw then clientPid else self, p.tid, p.tag, p.message);
                && history == old(history) + [e] && seqCounter == old(seqCounter) + 1
                && ringBuffer == (if |old(ringBuffer)| < maxEntries then old(ringBuffer) + [e]
                                  else (old(ringBuffer) + [e])[1..])
                && totalReceived == old(totalReceived) + 1
                && totalCrashes == old(totalCrashes) + if p.bufferId == 4 then 1 else 0
    {
      hide Decode, Window;
      var packet := ParsePacket(buffer);
      if packet.Some? {
        var p := packet.value;
        AppendLog(p.bufferId, p.priority, if clientPid != 0 || p.raw then clientPid else self, p.tid, p.tag, p.message);
      }
    }

    static method ParsePacket(buffer: seq<byte>) returns (packet: Option<Packet>)
      ensures packet == Decode(buffer)
    {
      if |buffer| < HEADER_SIZE {
        return Some(Packet(MAIN, INFO, 0, "GsiGuest", ToText(buffer), true));
      }
      var bufferId := if buffer[0] <= 7 then buffer[0] else MAIN;
      var tid := LE16(buffer, 1);
      if HEADER_SIZE >= |buffer| {
        return None;
      }
      var rawPrio := buffer[HEADER_SIZE];
      var prio := if 2 <= rawPrio <= 7 then rawPrio else INFO;
      var tag, payloadOffset := ReadTag(buffer, HEADER_SIZE + 1);
      PayloadSlices(buffer, HEADER_SIZE + 1, payloadOffset);
      hide Find, ToText;
      if payloadOffset < |buffer| {
        payloadOffset := payloadOffset + 1;
      }
      if tag == "" {
        tag := "GsiGuest";
      }
      var msg := "";
      if payloadOffset < |buffer| {
        msg := StripNewlines(ToText(buffer[payloadOffset..]));
      }
      packet := Some(Packet(bufferId, prio, tid, tag, msg, false));
    }

    static method ReadTag(buffer: seq<byte>, from: nat) returns (tag: string, end: nat)
      requires from <= |buffer|
      ensures end == from + Find(buffer[from..], 0) && tag == ToText(buffer[from..end])
    {
      tag, end := "", from;
      while end < |buffer| && buffer[end] != 0
        invariant from <= end <= |buffer|
        invariant tag == ToText(buffer[from..end])
        invariant forall j :: 0 <= j < end - from ==> buffer[from..][j] != 0
      {
        assert buffer[from..end + 1] == buffer[from..end] + [buffer[end]];
        assert buffer[from..][end - from] == buffer[end];
        tag := tag + [buffer[end] as char];
        end := end + 1;
      }
      FindUnique(buffer[from..], 0, end - from);
    }

    static method StripNewlines(text: string) returns (msg: string)
      ensures msg == Stripped(text)
    {
      msg := text;
      while msg != "" && (msg[|msg| - 1] == '\n' || msg[|msg| - 1] == '\r')
        invariant Stripped(msg) == Stripped(text)
        decreases |msg|
      {
        msg := msg[..|msg| - 1];
      }
    }
  }

  lemma PayloadSlices(buffer: seq<byte>, from: nat, end: nat)
    requires from <= end <= |buffer|
    ensures buffer[from..][..end - from] == buffer[from..end]
    ensures end < |buffer| ==> buffer[from..][end - from + 1..] == buffer[end + 1..]
  {
  }

  lemma ReversedSnoc(es: seq<LogEntry>, e: LogEntry)
    ensures Reversed(es + [e]) == [e] + Reversed(es)
  {
    var r := Reversed(es + [e]);
    assert r[0] == e && r[1..] == Reversed(es);
  }

  lemma LastOfAppend(older: seq<LogEntry>, newer: seq<LogEntry>, limit: nat, i: nat)
    requires |newer| <= limit && (i > 0 ==> |newer| == limit)
    ensures i > 0 ==> LastOf(older + newer, limit) == newer
    ensures older == [] ==> LastOf(older + newer, limit) == newer
  {
    if older == [] {
      assert older + newer == newer;
    }
  }

  // ---------------------------------------------------------------------------
  // Runs
  // ---------------------------------------------------------------------------

  datatype Event = Log | Tombstone | Clear

  /** Buffer size and tombstones since the last clear. */
  function SizeAfter(maxEntries: nat, size: nat, e: Event): nat {
    match e
    case Log => if size < maxEntries then size + 1 else size
    case Tombstone => size + 1
    case Clear => 0
  }

  function SizeOfRun(maxEntries: nat, size: nat, es: seq<Event>): nat
    decreases |es|
  {
    if es == [] then size else SizeOfRun(maxEntries, SizeAfter(maxEntries, size, es[0]), es[1..])
  }

  function Tombstones(es: seq<Event>): nat {
    if es == [] then 0 else (if es[0] == Tombstone then 1 else 0) + Tombstones(es[1..])
  }

  /** Between clears the buffer never shrinks, and it outgrows its limit by at most the tombstones. */
  lemma {:induction false} SizeBounds(maxEntries: nat, size: nat, es: seq<Event>)
    requires forall i :: 0 <= i < |es| ==> es[i] != Clear
    ensures size <= SizeOfRun(maxEntries, size, es)
    ensures SizeOfRun(maxEntries, size, es)
         <= (if size < maxEntries then maxEntries else size) + Tombstones(es)
    decreases |es|
  {
    if es != [] {
      SizeBounds(maxEntries, SizeAfter(maxEntries, size, es[0]), es[1..]);
    }
  }

  /** Between clears a run stays within the limit exactly when every tombstone comes while the buffer,
      one entry an event, still has room. */
  lemma {:induction false} WithinLimitExactly(maxEntries: nat, size: nat, es: seq<Event>)
    requires size <= maxEntries && forall i :: 0 <= i < |es| ==> es[i] != Clear
    ensures SizeOfRun(maxEntries, size, es) <= maxEntries
       <==> forall i :: 0 <= i < |es| && es[i] == Tombstone ==> size + i < maxEntries
    decreases |es|
  {
    if es != [] {
      var next, rest := SizeAfter(maxEntries, size, es[0]), es[1..];
      if next <= maxEntries {
        WithinLimitExactly(maxEntries, next, rest);
        TailsAgree(maxEntries, size, next, es);
      } else {
        SizeBounds(maxEntries, next, rest);
      }
    }
  }

  lemma TailsAgree(maxEntries: nat, size: nat, next: nat, es: seq<Event>)
    requires es != [] && size <= maxEntries && next <= maxEntries
    requires next == SizeAfter(maxEntries, size, es[0]) && es[0] != Clear
    ensures (forall i :: 0 <= i < |es| && es[i] == Tombstone ==> size + i < maxEntries)
       <==> forall i :: 0 <= i < |es| - 1 && es[1..][i] == Tombstone ==> next + i < maxEntries
  {
    if forall i :: 0 <= i < |es| && es[i] == Tombstone ==> size + i < maxEntries {
      forall i | 0 <= i < |es| - 1 && es[1..][i] == Tombstone ensures next + i < maxEntries {
        assert es[i + 1] == Tombstone;
      }
    }
    if forall i :: 0 <= i < |es| - 1 && es[1..][i] == Tombstone ==> next + i < maxEntries {
      forall i | 0 <= i < |es| && es[i] == Tombstone ensures size + i < maxEntries {
        if i > 0 { assert es[1..][i - 1] == Tombstone; }
      }
    }
  }

  /** The bound is reached: a tombstone on a full buffer stays over the limit through any number of
      ordinary log entries. */
  lemma {:induction false} OvershootStays(maxEntries: nat, logs: nat)
    ensures SizeOfRun(maxEntries, maxEntries, [Tombstone] + seq(logs, _ => Log)) == maxEntries + 1
  {
    assert ([Tombstone] + seq(logs, _ => Log))[1..] == seq(logs, _ => Log);
    LogsKeepFull(maxEntries, maxEntries + 1, logs);
  }

  lemma {:induction false} LogsKeepFull(maxEntries: nat, size: nat, logs: nat)
    requires maxEntries <= size
    ensures SizeOfRun(maxEntries, size, seq(logs, _ => Log)) == size
  {
    if logs > 0 {
      assert seq(logs, _ => Log)[1..] == seq(logs - 1, _ => Log);
      LogsKeepFull(maxEntries, size, logs - 1);
    }
  }

  // ---------------------------------------------------------------------------
  // Packets
  // ---------------------------------------------------------------------------

  datatype Packet = Packet(bufferId: nat, priority: nat, tid: int, tag: string, message: string, raw: bool)

  function Stripped(text: string): string {
    if text != "" && (text[|text| - 1] == '\n' || text[|text| - 1] == '\r') then Stripped(text[..|text| - 1])
    else text
  }

  /** What a datagram says; None for a header without a payload. */
  function Decode(buffer: seq<byte>): Option<Packet> {
    if |buffer| < HEADER_SIZE then Some(Packet(MAIN, INFO, 0, "GsiGuest", ToText(buffer), true))
    else if |buffer| == HEADER_SIZE then None
    else
      var prio := buffer[HEADER_SIZE];
      var payload := buffer[HEADER_SIZE + 1..];
      var k := Find(payload, 0);
      var tag := ToText(payload[..k]);
      Some(Packet(
             if buffer[0] <= 7 then buffer[0] else MAIN, if 2 <= prio <= 7 then prio else INFO,
             LE16(buffer, 1), if tag == "" then "GsiGuest" else tag,
             if k + 1 < |payload| then Stripped(ToText(payload[k + 1..])) else "", false))
  }

  /** A log writer's packet: id, thread, time stamps, priority, tag, terminator, message. */
  function Encode(id: byte, tid: nat, stamp: seq<byte>, prio: byte, tag: seq<byte>, message: seq<byte>): seq<byte>
    requires tid < TWO_16 && |stamp| == 8
  {
    [id] + Put16(tid) + stamp + [prio] + tag + [0] + message
  }

  predicate LineEnds(s: seq<byte>) {
    forall i :: 0 <= i < |s| ==> s[i] == 10 || s[i] == 13
  }

  /** Whatever a log writer's packet holds, it is logged with the fields it encodes: an unknown buffer
      becomes main (0), an unknown priority info (4), an empty tag "GsiGuest", and the line ends behind the
      message go. */
  lemma PacketRoundTrip(id: byte, tid: nat, stamp: seq<byte>, prio: byte, tag: seq<byte>, message: seq<byte>,
                        ends: seq<byte>)
    requires tid < TWO_16 && |stamp| == 8 && (forall i :: 0 <= i < |tag| ==> tag[i] != 0) && LineEnds(ends)
    requires message != [] ==> message[|message| - 1] != 10 && message[|message| - 1] != 13
    ensures Decode(Encode(id, tid, stamp, prio, tag, message + ends))
         == Some(Packet(if id <= 7 then id else 0, if 2 <= prio <= 7 then prio else 4, tid,
                        if tag == [] then "GsiGuest" else ToText(tag), ToText(message), false))
  {
    hide Put16, LE16, Find, ToText, Stripped;
    var head, payload := [id] + Put16(tid) + stamp + [prio], tag + [0] + (message + ends);
    assert head + payload == Encode(id, tid, stamp, prio, tag, message + ends) by {
      Assoc(head + tag, [0], message + ends);
      Assoc(head, tag, [0] + (message + ends));
      Assoc(tag, [0], message + ends);
    }
    hide Encode;
    CutAppend(head, payload, HEADER_SIZE + 1);
    PacketHead(head + payload, id, tid, stamp, prio, payload);
    PayloadParts(tag, message + ends);
    StripsEnds(message, ends);
    DecodeParts(head + payload, payload);
    TextEmpty(tag);
    TextEmpty(message + ends);
  }

  /** Shorter datagrams: less than a header is a message of its own, a bare header is nothing, and a packet
      that ends inside its tag has an empty message. */
  lemma ShortPackets(b: seq<byte>, id: byte, tid: nat, stamp: seq<byte>, prio: byte, tag: seq<byte>)
    requires tid < TWO_16 && |stamp| == 8 && (forall i :: 0 <= i < |tag| ==> tag[i] != 0)
    ensures |b| < 11 ==> Decode(b) == Some(Packet(0, 4, 0, "GsiGuest", ToText(b), true))
    ensures |b| == 11 ==> Decode(b) == None
    ensures Decode([id] + Put16(tid) + stamp + [prio] + tag)
         == Some(Packet(if id <= 7 then id else 0, if 2 <= prio <= 7 then prio else 4, tid,
                        if tag == [] then "GsiGuest" else ToText(tag), "", false))
  {
    hide Put16, LE16, Find, ToText, Stripped;
    var head := [id] + Put16(tid) + stamp + [prio];
    CutAppend(head, tag, HEADER_SIZE + 1);
    PacketHead(head + tag, id, tid, stamp, prio, tag);
    FindUnique(tag, 0, |tag|);
    assert tag[..|tag|] == tag;
    DecodeParts(head + tag, tag);
    TextEmpty(tag);
  }

  /** What decoding takes from a packet, in terms of its payload. */
  lemma DecodeParts(b: seq<byte>, payload: seq<byte>)
    requires |b| == HEADER_SIZE + 1 + |payload| && b[HEADER_SIZE + 1..] == payload
    ensures var k := Find(payload, 0);
            var tag := ToText(payload[..k]);
            Decode(b) == Some(Packet(if b[0] <= 7 then b[0] else MAIN,
                                     if 2 <= b[HEADER_SIZE] <= 7 then b[HEADER_SIZE] else INFO, LE16(b, 1),
                                     if tag == "" then "GsiGuest" else tag,
                                     if k + 1 < |payload| then Stripped(ToText(payload[k + 1..])) else "", false))
  {
    hide LE16, Find, ToText, Stripped;
  }

  lemma TextEmpty(b: seq<byte>)
    ensures ToText(b) == "" <==> b == []
  {
    assert |ToText(b)| == |b|;
  }

  lemma PacketHead(b: seq<byte>, id: byte, tid: nat, stamp: seq<byte>, prio: byte, payload: seq<byte>)
    requires tid < TWO_16 && |stamp| == 8 && b == [id] + Put16(tid) + stamp + [prio] + payload
    ensures |b| == HEADER_SIZE + 1 + |payload| && b[0] == id && b[HEADER_SIZE] == prio && LE16(b, 1) == tid
  {
    assert b[1..3] == Put16(tid);
    Field16(b, 1, tid);
  }

  lemma PayloadParts(tag: seq<byte>, message: seq<byte>)
    requires forall i :: 0 <= i < |tag| ==> tag[i] != 0
    ensures var payload := tag + [0] + message;
            Find(payload, 0) == |tag| && payload[..|tag|] == tag && payload[|tag| + 1..] == message
  {
    FindUnique(tag + [0] + message, 0, |tag|);
  }

  lemma {:induction false} StripsEnds(message: seq<byte>, ends: seq<byte>)
    requires LineEnds(ends)
    requires message != [] ==> message[|message| - 1] != 10 && message[|message| - 1] != 13
    ensures Stripped(ToText(message + ends)) == ToText(message)
    decreases |ends|
  {
    var all := message + ends;
    if ends == [] {
      assert all == message;
      assert message != [] ==> ToText(message)[|message| - 1] as int == message[|message| - 1];
    } else {
      StripsEnds(message, ends[..|ends| - 1]);
      assert all[..|all| - 1] == message + ends[..|ends| - 1];
      assert ToText(all)[..|all| - 1] == ToText(all[..|all| - 1]);
      assert ToText(all)[|all| - 1] as int == all[|all| - 1] == ends[|ends| - 1];
    }
  }
}
