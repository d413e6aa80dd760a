/**
  The incremental parser of the DCS-BIOS export stream (client/dcs_copilot/dcs/bios_protocol.py).
  Time is an input of each chunk; a byte of the sync value is held back until the next byte decides
  whether it is data or part of a sync marker.
 */
module BiosProtocol {
  import opened Wrappers
  import opened BiosState

  const SYNC_BYTE: byte := 0x55
  const SYNC_LENGTH := 4
  const SYNC: seq<byte> := [0x55, 0x55, 0x55, 0x55]

  datatype Phase = WaitForSync | AddressLow | AddressHigh | CountLow | CountHigh | Data

  datatype Event = Wrote(w: Stamped) | Completed(number: nat, writes: seq<Stamped>)

  /** The parser's fields, and in `events` what its two callbacks have been told so far. */
  datatype Parser = Parser(
    phase: Phase,
    syncRun: nat,
    address: nat,
    count: nat,
    payload: seq<byte>,
    frameStarted: bool,
    frameWrites: seq<Stamped>,
    errorCount: nat,
    frameCount: nat,
    events: seq<Event>)

  function Initial(): Parser {
    Parser(WaitForSync, 0, 0, 0, [], false, [], 0, 0, [])
  }

  // ----- the state machine, byte by byte

  predicate GoodHeader(address: nat, count: nat) {
    count != 0 && count % 2 == 0 && address + count <= ADDRESS_SPACE_SIZE
  }

  function Malformed(p: Parser): Parser {
    p.(errorCount := p.errorCount + 1, payload := [], frameWrites := [], frameStarted := false, phase := WaitForSync)
  }

  function Consume(p: Parser, b: byte, at: real): Parser {
    match p.phase
    case WaitForSync => p
    case AddressLow => p.(address := b, phase := AddressHigh)
    case AddressHigh =>
      var q := p.(address := p.address + 256 * (b as int));
      if q.address == 0x5555 then Malformed(q) else q.(phase := CountLow)
    case CountLow => p.(count := b, phase := CountHigh)
    case CountHigh =>
      var q := p.(count := p.count + 256 * (b as int));
      if GoodHeader(q.address, q.count) then q.(payload := [], phase := Data) else Malformed(q)
    case Data =>
      var payload := p.payload + [b];
      if |payload| == p.count then
        var w := Stamped(Write(p.address, payload), at);
        p.(payload := [], frameWrites := p.frameWrites + [w], phase := AddressLow, events := p.events + [Wrote(w)])
      else
        p.(payload := payload)
  }

  function HandleSync(p: Parser): Parser {
    var restarted := p.(frameStarted := true, frameWrites := [], payload := [], phase := AddressLow, syncRun := 0);
    if !p.frameStarted then restarted
    else if p.phase != AddressLow then restarted.(errorCount := p.errorCount + 1)
    else restarted.(frameCount := p.frameCount + 1, events := p.events + [Completed(p.frameCount + 1, p.frameWrites)])
  }

  /** Releases the held-back sync bytes as data. */
  function Release(p: Parser, at: real): Parser
    decreases p.syncRun
  {
    if p.syncRun == 0 then p else Release(Consume(p, SYNC_BYTE, at).(syncRun := p.syncRun - 1), at)
  }

  function FeedByte(p: Parser, b: byte, at: real): Parser {
    if b != SYNC_BYTE then Consume(Release(p, at), b, at)
    else if p.syncRun + 1 == SYNC_LENGTH then HandleSync(p)
    else p.(syncRun := p.syncRun + 1)
  }

  function Feed(p: Parser, data: seq<byte>, at: real): Parser
    decreases |data|
  {
    if data == [] then p else Feed(FeedByte(p, data[0], at), data[1..], at)
  }

  // ----- what every state keeps

  predicate GoodWrite(w: Write) {
    GoodHeader(w.address, |w.data|) && |w.data| < 0x1_0000 && w.address != 0x5555
  }

  ghost predicate GoodEvents(events: seq<Event>) {
    forall e :: e in events ==>
      match e
      case Wrote(w) => GoodWrite(w.write)
      case Completed(_, ws) => forall w :: w in ws ==> GoodWrite(w.write)
  }

  ghost predicate ValidParser(p: Parser) {
    && p.syncRun < SYNC_LENGTH
    && (p.phase == AddressHigh ==> p.address < 256)
    && (p.phase in {CountLow, CountHigh, Data} ==> p.address < 0x1_0000 && p.address != 0x5555)
    && (p.phase == CountHigh ==> p.count < 256)
    && (p.phase == Data ==> GoodHeader(p.address, p.count) && p.count < 0x1_0000 && |p.payload| < p.count)
    && (p.phase != WaitForSync ==> p.frameStarted)
    && (forall w :: w in p.frameWrites ==> GoodWrite(w.write))
    && GoodEvents(p.events)
  }

  lemma ConsumeKeepsValid(p: Parser, b: byte, at: real)
    requires ValidParser(p)
    ensures ValidParser(Consume(p, b, at)) && Consume(p, b, at).syncRun == p.syncRun
  {
  }

  lemma ReleaseKeepsValid(p: Parser, at: real)
    requires ValidParser(p)
    ensures ValidParser(Release(p, at)) && Release(p, at).syncRun == 0
    decreases p.syncRun
  {
    if p.syncRun > 0 {
      ConsumeKeepsValid(p, SYNC_BYTE, at);
      ReleaseKeepsValid(Consume(p, SYNC_BYTE, at).(syncRun := p.syncRun - 1), at);
    }
  }

  lemma FeedByteKeepsValid(p: Parser, b: byte, at: real)
    requires ValidParser(p)
    ensures ValidParser(FeedByte(p, b, at))
  {
    if b != SYNC_BYTE {
      ReleaseKeepsValid(p, at);
      ConsumeKeepsValid(Release(p, at), b, at);
    }
  }

  /** No byte stream makes the parser emit a write outside the address space. */
  lemma FeedKeepsValid(p: Parser, data: seq<byte>, at: real)
    requires ValidParser(p)
    ensures ValidParser(Feed(p, data, at))
    decreases |data|
  {
    if data != [] {
      FeedByteKeepsValid(p, data[0], at);
      FeedKeepsValid(FeedByte(p, data[0], at), data[1..], at);
    }
  }

  /** Feeding a then b is feeding a + b. */
  lemma {:induction false} FeedConcat(p: Parser, a: seq<byte>, b: seq<byte>, at: real)
    ensures Feed(p, a + b, at) == Feed(Feed(p, a, at), b, at)
    decreases |a|
  {
    if a == [] {
      assert a + b == b;
    } else {
      assert (a + b)[0] == a[0] && (a + b)[1..] == a[1..] + b;
      FeedConcat(FeedByte(p, a[0], at), a[1..], b, at);
    }
  }

  // ----- the grammar of a frame body, one write at a time

  datatype Ending = AtBoundary | InWrite | Broken

  /** The complete good writes at the front of a body, and how the rest ends. */
  function Scan(body: seq<byte>): (r: (seq<Write>, Ending))
    decreases |body|
  {
    if body == [] then ([], AtBoundary)
    else if |body| < 2 then ([], InWrite)
    else
      var address := Word(body[0], body[1]);
      if address == 0x5555 then ([], Broken)
      else if |body| < 4 then ([], InWrite)
      else
        var count := Word(body[2], body[3]);
        if !GoodHeader(address, count) then ([], Broken)
        else if |body| < 4 + count then ([], InWrite)
        else
          var (ws, ending) := Scan(body[4 + count..]);
          ([Write(address, body[4..4 + count])] + ws, ending)
  }

  function Word(low: byte, high: byte): (word: nat) {
    low as int + 256 * (high as int)
  }

  function Encode(ws: seq<Write>): seq<byte>
    requires forall w :: w in ws ==> GoodWrite(w)
    decreases |ws|
  {
    if ws == [] then [] else EncodeOne(ws[0]) + Encode(ws[1..])
  }

  function EncodeOne(w: Write): seq<byte>
    requires GoodWrite(w)
  {
    [w.address % 256, w.address / 256, |w.data| % 256, |w.data| / 256] + w.data
  }

  lemma {:induction false} ScanInvertsEncode(ws: seq<Write>)
    requires forall w :: w in ws ==> GoodWrite(w)
    ensures Scan(Encode(ws)) == (ws, AtBoundary)
    decreases |ws|
  {
    if ws != [] {
      var w, rest := ws[0], Encode(ws[1..]);
      var body := EncodeOne(w) + rest;
      assert Word(body[0], body[1]) == w.address;
      assert Word(body[2], body[3]) == |w.data|;
      assert body[4..4 + |w.data|] == w.data;
      assert body[4 + |w.data|..] == rest;
      assert Write(w.address, w.data) == w && [w] + ws[1..] == ws;
      ScanInvertsEncode(ws[1..]);
    }
  }

  // ----- the byte-by-byte machine agrees with the grammar

  function Stamp(ws: seq<Write>, at: real): seq<Stamped> {
    seq(|ws|, i requires 0 <= i < |ws| => Stamped(ws[i], at))
  }

  function Bare(ws: seq<Stamped>): seq<Write> {
    seq(|ws|, i requires 0 <= i < |ws| => ws[i].write)
  }

  function WroteAll(ws: seq<Write>, at: real): seq<Event> {
    seq(|ws|, i requires 0 <= i < |ws| => Wrote(Stamped(ws[i], at)))
  }

  function ConsumeAll(p: Parser, data: seq<byte>, at: real): Parser
    decreases |data|
  {
    if data == [] then p else ConsumeAll(Consume(p, data[0], at), data[1..], at)
  }

  lemma {:induction false} ConsumeAllConcat(p: Parser, a: seq<byte>, b: seq<byte>, at: real)
    ensures ConsumeAll(p, a + b, at) == ConsumeAll(ConsumeAll(p, a, at), b, at)
    decreases |a|
  {
    if a == [] {
      assert a + b == b;
    } else {
      assert (a + b)[0] == a[0] && (a + b)[1..] == a[1..] + b;
      ConsumeAllConcat(Consume(p, a[0], at), a[1..], b, at);
    }
  }

  lemma ConsumeWhileLost(p: Parser, data: seq<byte>, at: real)
    requires p.phase == WaitForSync
    ensures ConsumeAll(p, data, at) == p
    decreases |data|
  {
  }

  lemma {:induction false} ConsumePayload(p: Parser, data: seq<byte>, at: real)
    requires p.phase == Data && |p.payload| < p.count
    requires |p.payload| + |data| <= p.count
    ensures
      var payload := p.payload + data;
      ConsumeAll(p, data, at) ==
        if |payload| < p.count then p.(payload := payload)
        else
          var w := Stamped(Write(p.address, payload), at);
          p.(payload := [], frameWrites := p.frameWrites + [w], phase := AddressLow, events := p.events + [Wrote(w)])
    decreases |data|
  {
    if data == [] {
      assert p.payload + data == p.payload;
    } else {
      assert p.payload + data == (p.payload + [data[0]]) + data[1..];
      if |p.payload| + 1 < p.count {
        ConsumePayload(p.(payload := p.payload + [data[0]]), data[1..], at);
      } else {
        assert data[1..] == [] && p.payload + [data[0]] == p.payload + data;
      }
    }
  }

  /** The address word: after it the parser is lost or waits for the count. */
  lemma ConsumeAddress(p: Parser, low: byte, high: byte, at: real)
    requires p.phase == AddressLow
    ensures
      var q := p.(address := Word(low, high));
      ConsumeAll(p, [low, high], at) == if q.address == 0x5555 then Malformed(q) else q.(phase := CountLow)
  {
    assert [low, high][1..] == [high] && [high][1..] == [];
    var q := Consume(p, low, at);
    assert ConsumeAll(p, [low, high], at) == ConsumeAll(q, [high], at) == Consume(q, high, at);
  }

  lemma ConsumeCount(p: Parser, low: byte, high: byte, at: real)
    requires p.phase == CountLow
    ensures
      var q := p.(count := Word(low, high));
      ConsumeAll(p, [low, high], at) ==
        if GoodHeader(q.address, q.count) then q.(payload := [], phase := Data) else Malformed(q)
  {
    assert [low, high][1..] == [high] && [high][1..] == [];
    var q := Consume(p, low, at);
    assert ConsumeAll(p, [low, high], at) == ConsumeAll(q, [high], at) == Consume(q, high, at);
  }

  /** The state reached from the start of a write by consuming a body, as the grammar reads that body. */
  ghost predicate Follows(p: Parser, q: Parser, ws: seq<Write>, ending: Ending, at: real) {
    && q.syncRun == p.syncRun && q.frameCount == p.frameCount
    && q.events == p.events + WroteAll(ws, at)
    && match ending
       case AtBoundary =>
         && q.phase == AddressLow && q.frameStarted == p.frameStarted
         && q.frameWrites == p.frameWrites + Stamp(ws, at)
         && q.errorCount == p.errorCount
       case InWrite =>
         && q.phase !in {AddressLow, WaitForSync} && q.frameStarted == p.frameStarted
         && q.errorCount == p.errorCount
       case Broken =>
         && q.phase == WaitForSync && !q.frameStarted && q.frameWrites == []
         && q.errorCount == p.errorCount + 1
  }

  lemma {:induction false} ConsumeFollowsScan(p: Parser, body: seq<byte>, at: real)
    requires p.phase == AddressLow
    ensures Follows(p, ConsumeAll(p, body, at), Scan(body).0, Scan(body).1, at)
    decreases |body|
  {
    assert p.frameWrites + Stamp([], at) == p.frameWrites && p.events + WroteAll([], at) == p.events;
    if |body| < 2 {
      assert |body| == 1 ==> body[1..] == [];
    } else {
      var address, rest := [body[0], body[1]], body[2..];
      assert body == address + rest;
      ConsumeAddress(p, body[0], body[1], at);
      ConsumeAllConcat(p, address, rest, at);
      var q := ConsumeAll(p, address, at);
      if q.phase == WaitForSync {
        ConsumeWhileLost(q, rest, at);
      } else if |body| < 4 {
        assert |rest| == 1 ==> rest[1..] == [];
      } else {
        ConsumeRestOfWrite(p, q, body, at);
      }
    }
  }

  lemma {:induction false} ConsumeRestOfWrite(p: Parser, q: Parser, body: seq<byte>, at: real)
    requires p.phase == AddressLow && |body| >= 4 && Word(body[0], body[1]) != 0x5555
    requires q == p.(address := Word(body[0], body[1]), phase := CountLow)
    ensures Follows(p, ConsumeAll(q, body[2..], at), Scan(body).0, Scan(body).1, at)
    decreases |body|, 0
  {
    hide Consume, ConsumeAll;
    assert p.events + WroteAll([], at) == p.events;
    var count, rest := [body[2], body[3]], body[4..];
    assert body[2..] == count + rest;
    ConsumeCount(q, body[2], body[3], at);
    ConsumeAllConcat(q, count, rest, at);
    var d := ConsumeAll(q, count, at);
    if d.phase == WaitForSync {
      ConsumeWhileLost(d, rest, at);
    } else if |rest| < d.count {
      ConsumePayload(d, rest, at);
    } else {
      var payload, more := rest[..d.count], rest[d.count..];
      assert rest == payload + more;
      assert body[4..4 + d.count] == payload && body[4 + d.count..] == more;
      ConsumePayload(d, payload, at);
      assert [] + payload == payload;
      ConsumeAllConcat(d, payload, more, at);
      var n := ConsumeAll(d, payload, at);
      ConsumeFollowsScan(n, more, at);
      FollowsAfterWrite(p, n, ConsumeAll(n, more, at), Write(d.address, payload), Scan(more).0, Scan(more).1, at);
    }
  }

  lemma FollowsAfterWrite(p: Parser, n: Parser, q: Parser, w: Write, ws: seq<Write>, ending: Ending, at: real)
    requires Follows(n, q, ws, ending, at)
    requires n.syncRun == p.syncRun && n.frameCount == p.frameCount && n.errorCount == p.errorCount
    requires n.frameStarted == p.frameStarted
    requires n.frameWrites == p.frameWrites + [Stamped(w, at)]
    requires n.events == p.events + [Wrote(Stamped(w, at))]
    ensures Follows(p, q, [w] + ws, ending, at)
  {
    assert Stamp([w] + ws, at) == [Stamped(w, at)] + Stamp(ws, at);
    assert WroteAll([w] + ws, at) == [Wrote(Stamped(w, at))] + WroteAll(ws, at);
  }

  // ----- sync markers inside the stream

  /** `data`, after `held` sync bytes, has no run of four sync bytes and does not end in one. */
  predicate CleanAfter(held: nat, data: seq<byte>)
    decreases |data|
  {
    if data == [] then held == 0
    else if data[0] == SYNC_BYTE then held + 1 < SYNC_LENGTH && CleanAfter(held + 1, data[1..])
    else CleanAfter(0, data[1..])
  }

  predicate SyncAt(s: seq<byte>, i: int) {
    0 <= i <= |s| - SYNC_LENGTH && s[i] == s[i + 1] == s[i + 2] == s[i + 3] == SYNC_BYTE
  }

  /** No run of four sync bytes, and no sync byte at the end. */
  predicate Clean(body: seq<byte>) {
    && (forall i :: 0 <= i < |body| ==> !SyncAt(body, i))
    && (body == [] || body[|body| - 1] != SYNC_BYTE)
  }

  function Held(n: nat): seq<byte> {
    seq<byte>(n, _ => SYNC_BYTE)
  }

  lemma {:induction false} CleanAfterIsClean(held: nat, data: seq<byte>)
    requires held < SYNC_LENGTH
    ensures CleanAfter(held, data) <==> Clean(Held(held) + data)
    decreases |data|
  {
    var whole := Held(held) + data;
    if data == [] {
    } else if data[0] == SYNC_BYTE {
      if held + 1 == SYNC_LENGTH {
        assert SyncAt(whole, 0);
      } else {
        assert whole == Held(held + 1) + data[1..];
        CleanAfterIsClean(held + 1, data[1..]);
      }
    } else {
      CleanAfterIsClean(0, data[1..]);
      assert Held(0) + data[1..] == data[1..];
      assert whole == Held(held) + ([data[0]] + data[1..]);
      CleanPastData(held, data[0], data[1..]);
    }
  }

  lemma SyncShifted(head: seq<byte>, rest: seq<byte>, j: nat)
    ensures SyncAt(head + rest, |head| + j) == SyncAt(rest, j)
  {
    assert forall k :: 0 <= k < |rest| ==> (head + rest)[|head| + k] == rest[k];
  }

  lemma {:induction false} CleanPastData(held: nat, b: byte, rest: seq<byte>)
    requires held < SYNC_LENGTH && b != SYNC_BYTE
    ensures Clean(Held(held) + ([b] + rest)) <==> Clean(rest)
  {
    var head := Held(held) + [b];
    var whole := head + rest;
    assert Held(held) + ([b] + rest) == whole;
    forall i | 0 <= i <= held ensures !SyncAt(whole, i) {
      assert whole[held] == b && held < i + SYNC_LENGTH;
    }
    hide SyncAt, Held;
    forall j | 0 <= j < |rest| ensures SyncAt(rest, j) == SyncAt(whole, held + 1 + j) {
      SyncShifted(head, rest, j);
    }
    forall i | held < i < |whole| ensures SyncAt(whole, i) == SyncAt(rest, i - held - 1) {
      SyncShifted(head, rest, i - held - 1);
    }
    assert rest != [] ==> whole[|whole| - 1] == rest[|rest| - 1];
  }

  lemma ConsumeKeepsSyncRun(p: Parser, b: byte, at: real)
    ensures Consume(p, b, at).syncRun == p.syncRun
  {
  }

  /** A clean body reaches the state machine byte for byte. */
  lemma {:induction false} FeedCleanBody(p: Parser, data: seq<byte>, at: real)
    requires p.syncRun < SYNC_LENGTH && CleanAfter(p.syncRun, data)
    ensures Feed(p, data, at) == ConsumeAll(p.(syncRun := 0), Held(p.syncRun) + data, at)
    decreases |data|
  {
    hide Consume, HandleSync;
    if data == [] {
      assert Held(0) + data == [];
    } else if data[0] == SYNC_BYTE {
      assert Held(p.syncRun) + data == Held(p.syncRun + 1) + data[1..];
      FeedCleanBody(p.(syncRun := p.syncRun + 1), data[1..], at);
    } else {
      var q := Release(p, at);
      ReleaseIsConsume(p, at);
      var r := Consume(q, data[0], at);
      ConsumeKeepsSyncRun(q, data[0], at);
      FeedCleanBody(r, data[1..], at);
      assert Held(0) + data[1..] == data[1..];
      assert Held(p.syncRun) + data == Held(p.syncRun) + ([data[0]] + data[1..]);
      ConsumeAllConcat(p.(syncRun := 0), Held(p.syncRun), data, at);
    }
  }

  lemma {:induction false} ConsumeIgnoresSyncRun(p: Parser, b: byte, at: real, run: nat)
    ensures Consume(p.(syncRun := run), b, at) == Consume(p, b, at).(syncRun := run)
  {
    match p.phase
    case Data =>
    case AddressHigh =>
    case CountHigh =>
    case _ =>
  }

  lemma {:induction false} ReleaseIsConsume(p: Parser, at: real)
    ensures Release(p, at) == ConsumeAll(p.(syncRun := 0), Held(p.syncRun), at)
    ensures Release(p, at).syncRun == 0
    decreases p.syncRun
  {
    if p.syncRun > 0 {
      var q := Consume(p, SYNC_BYTE, at);
      ConsumeIgnoresSyncRun(p, SYNC_BYTE, at, 0);
      assert Held(p.syncRun)[1..] == Held(p.syncRun - 1);
      ReleaseIsConsume(q.(syncRun := p.syncRun - 1), at);
    }
  }

  // ----- the parser inverts the encoder

  /** The state right after a sync marker. */
  ghost predicate Synced(p: Parser) {
    p.phase == AddressLow && p.syncRun == 0 && p.frameStarted && p.frameWrites == []
  }

  /** From any state without held-back bytes, a marker resynchronises. */
  lemma FeedSync(p: Parser, at: real)
    requires p.syncRun == 0
    ensures Feed(p, SYNC, at) == HandleSync(p.(syncRun := SYNC_LENGTH - 1))
    ensures Synced(Feed(p, SYNC, at))
  {
    var p1, p2, p3 := p.(syncRun := 1), p.(syncRun := 2), p.(syncRun := 3);
    assert SYNC[1..] == [SYNC_BYTE, SYNC_BYTE, SYNC_BYTE];
    assert SYNC[1..][1..] == [SYNC_BYTE, SYNC_BYTE] && [SYNC_BYTE, SYNC_BYTE][1..] == [SYNC_BYTE];
    assert [SYNC_BYTE][1..] == [];
    assert Feed(p, SYNC, at) == Feed(p1, SYNC[1..], at) == Feed(p2, [SYNC_BYTE, SYNC_BYTE], at)
        == Feed(p3, [SYNC_BYTE], at) == FeedByte(p3, SYNC_BYTE, at);
  }

  /**
    The writes of a clean body are exactly its complete good writes, and the next marker completes a
    frame with them exactly when the body ends at a write boundary; otherwise it counts one error.
   */
  lemma CleanFrame(p: Parser, body: seq<byte>, at: real)
    requires Synced(p) && Clean(body)
    ensures
      var (ws, ending) := Scan(body);
      var q := Feed(p, body + SYNC, at);
      && Synced(q)
      && q.events == p.events + WroteAll(ws, at)
                     + (if ending == AtBoundary then [Completed(p.frameCount + 1, Stamp(ws, at))] else [])
      && q.errorCount == p.errorCount + (if ending == AtBoundary then 0 else 1)
  {
    assert Held(0) + body == body;
    CleanAfterIsClean(0, body);
    FeedCleanBody(p, body, at);
    ConsumeFollowsScan(p, body, at);
    FeedConcat(p, body, SYNC, at);
    FeedSync(Feed(p, body, at), at);
    assert [] + Stamp(Scan(body).0, at) == Stamp(Scan(body).0, at);
  }

  /** The encoded length of a frame's writes. */
  function Length(ws: seq<Stamped>): nat
    decreases |ws|
  {
    if ws == [] then 0 else Length(ws[..|ws| - 1]) + 4 + |ws[|ws| - 1].write.data|
  }

  /** How many bytes of the current frame the parser has kept. */
  function Size(p: Parser): nat {
    Length(p.frameWrites) +
    match p.phase
    case WaitForSync => 0
    case AddressLow => 0
    case AddressHigh => 1
    case CountLow => 2
    case CountHigh => 3
    case Data => 4 + |p.payload|
  }

  /** The frames completed since `from` are, with their marker, at most `limit` bytes long. */
  ghost predicate FramesWithin(events: seq<Event>, from: nat, limit: int) {
    forall i :: from <= i < |events| && events[i].Completed? ==> Length(events[i].writes) + SYNC_LENGTH <= limit
  }

  lemma ConsumeSize(p: Parser, b: byte, at: real)
    ensures Size(Consume(p, b, at)) <= Size(p) + 1
    ensures p.events <= Consume(p, b, at).events
    ensures FramesWithin(Consume(p, b, at).events, |p.events|, 0)
    ensures Consume(p, b, at).syncRun == p.syncRun
  {
    if p.phase == Data {
      var w := Stamped(Write(p.address, p.payload + [b]), at);
      assert (p.frameWrites + [w])[..|p.frameWrites|] == p.frameWrites;
    }
  }

  lemma {:induction false} ReleaseSize(p: Parser, at: real)
    ensures Size(Release(p, at)) <= Size(p) + p.syncRun
    ensures p.events <= Release(p, at).events
    ensures FramesWithin(Release(p, at).events, |p.events|, 0)
    decreases p.syncRun
  {
    if p.syncRun > 0 {
      ConsumeSize(p, SYNC_BYTE, at);
      ReleaseSize(Consume(p, SYNC_BYTE, at).(syncRun := p.syncRun - 1), at);
    }
  }

  lemma FeedByteSize(p: Parser, b: byte, at: real)
    requires p.syncRun < SYNC_LENGTH
    ensures
      var q := FeedByte(p, b, at);
      && p.events <= q.events && q.syncRun < SYNC_LENGTH
      && FramesWithin(q.events, |p.events|, Size(p) + p.syncRun + 1)
      && Size(q) + q.syncRun <= if b == SYNC_BYTE && p.syncRun + 1 == SYNC_LENGTH then 0 else Size(p) + p.syncRun + 1
  {
    if b != SYNC_BYTE {
      ReleaseSize(p, at);
      ReleaseIsConsume(p, at);
      ConsumeSize(Release(p, at), b, at);
    }
  }

  /** A frame is never longer than the bytes it was read from. */
  lemma {:induction false} FramesFitStream(p: Parser, data: seq<byte>, at: real)
    requires p.syncRun < SYNC_LENGTH
    ensures p.events <= Feed(p, data, at).events
    ensures FramesWithin(Feed(p, data, at).events, |p.events|, Size(p) + p.syncRun + |data|)
    decreases |data|
  {
    if data != [] {
      FeedByteSize(p, data[0], at);
      FramesFitStream(FeedByte(p, data[0], at), data[1..], at);
    }
  }

  /** A marker that falls inside the body costs at least one byte of every frame completed. */
  lemma {:induction false} UncleanFramesAreShorter(p: Parser, data: seq<byte>, at: real)
    requires p.syncRun < SYNC_LENGTH && !CleanAfter(p.syncRun, data)
    ensures FramesWithin(Feed(p, data + SYNC, at).events, |p.events|, Size(p) + p.syncRun + |data| + 3)
    decreases |data|
  {
    var stream := data + SYNC;
    var q, rest := FeedByte(p, stream[0], at), stream[1..];
    FeedByteSize(p, stream[0], at);
    if data == [] {
      assert stream == SYNC;
      HeldPlusMarker(p, at);
    } else {
      assert rest == data[1..] + SYNC;
      FramesFitStream(q, rest, at);
      if !(data[0] == SYNC_BYTE && p.syncRun + 1 == SYNC_LENGTH) {
        if data[0] != SYNC_BYTE {
          ReleaseIsConsume(p, at);
          ConsumeSize(Release(p, at), data[0], at);
        }
        UncleanFramesAreShorter(q, data[1..], at);
      }
      var all := Feed(q, rest, at).events;
      forall i | |p.events| <= i < |all| && all[i].Completed?
        ensures Length(all[i].writes) + SYNC_LENGTH <= Size(p) + p.syncRun + |data| + 3
      {
        assert i < |q.events| ==> all[i] == q.events[i];
      }
    }
  }

  /** Held-back bytes followed by a marker: the parser syncs early and holds as many bytes again. */
  lemma {:induction false} HeldPlusMarker(p: Parser, at: real)
    requires 0 < p.syncRun < SYNC_LENGTH
    ensures FramesWithin(Feed(p, SYNC, at).events, |p.events|, Size(p) + SYNC_LENGTH)
  {
    var n := SYNC_LENGTH - p.syncRun;
    assert SYNC == Held(n) + Held(p.syncRun);
    FeedConcat(p, Held(n), Held(p.syncRun), at);
    FramesFitStream(p, Held(n), at);
    FeedHeld(p, n, at);
    FeedHeld(HandleSync(p.(syncRun := SYNC_LENGTH - 1)), p.syncRun, at);
  }

  lemma {:induction false} FeedHeld(p: Parser, n: nat, at: real)
    requires p.syncRun + n <= SYNC_LENGTH && p.syncRun < SYNC_LENGTH
    ensures Feed(p, Held(n), at) ==
      if p.syncRun + n == SYNC_LENGTH then HandleSync(p.(syncRun := SYNC_LENGTH - 1)) else p.(syncRun := p.syncRun + n)
    decreases n
  {
    if n > 0 {
      assert Held(n)[0] == SYNC_BYTE && Held(n)[1..] == Held(n - 1);
      if p.syncRun + 1 < SYNC_LENGTH {
        FeedHeld(p.(syncRun := p.syncRun + 1), n - 1, at);
      }
    }
  }

  /** Some event after `from` completes a frame that carries exactly `ws`. */
  ghost predicate CompletesFrame(events: seq<Event>, from: nat, ws: seq<Write>) {
    exists i :: from <= i < |events| && events[i].Completed? && Bare(events[i].writes) == ws
  }

  /**
    The parser inverts the encoder exactly on clean bodies: after a marker, the encoded writes and a
    marker complete a frame carrying those writes if and only if the body has no run of four sync
    bytes and does not end in one. The frame is then the last event and no error is counted.
   */
  lemma {:induction false} ParserInvertsEncoder(p: Parser, ws: seq<Write>, at: real)
    requires p.syncRun == 0
    requires forall w :: w in ws ==> GoodWrite(w)
    ensures
      var synced := Feed(p, SYNC, at);
      var q := Feed(p, SYNC + (Encode(ws) + SYNC), at);
      && (CompletesFrame(q.events, |synced.events|, ws) <==> Clean(Encode(ws)))
      && (Clean(Encode(ws)) ==>
            && q.events == synced.events + WroteAll(ws, at) + [Completed(synced.frameCount + 1, Stamp(ws, at))]
            && q.errorCount == synced.errorCount)
  {
    var body := Encode(ws);
    FeedSync(p, at);
    FeedConcat(p, SYNC, body + SYNC, at);
    var synced := Feed(p, SYNC, at);
    var q := Feed(synced, body + SYNC, at);
    if Clean(body) {
      CleanFrame(synced, body, at);
      ScanInvertsEncode(ws);
      var last := q.events[|q.events| - 1];
      assert last == Completed(synced.frameCount + 1, Stamp(ws, at)) && Bare(Stamp(ws, at)) == ws;
    } else {
      assert Held(0) + body == body;
      CleanAfterIsClean(0, body);
      UncleanFramesAreShorter(synced, body, at);
      if i :| |synced.events| <= i < |q.events| && q.events[i].Completed? && Bare(q.events[i].writes) == ws {
        LengthOfEncoding(q.events[i].writes);
      }
    }
  }

  /**
    Both ways of being unclean happen to legal writes: a word of sync bytes after another, and a write whose
    last byte is one. Their frames are never completed as sent.
   */
  lemma {:induction false} SyncBytesBreakFrames(p: Parser, data: seq<byte>, at: real)
    requires p.syncRun == 0
    requires data == [0x55, 0x55, 0x55, 0x55] || data == [0, 0x55]
    ensures
      var w := Write(0, data);
      && GoodWrite(w) && !Clean(Encode([w]))
      && !CompletesFrame(Feed(p, SYNC + (Encode([w]) + SYNC), at).events, |Feed(p, SYNC, at).events|, [w])
  {
    hide Feed, CompletesFrame;
    var w := Write(0, data);
    assert Encode([w]) == EncodeOne(w) + Encode([]);
    assert EncodeOne(w)[4..] == data;
    if |data| == 4 {
      assert SyncAt(Encode([w]), 4);
    }
    ParserInvertsEncoder(p, [w], at);
  }

  lemma {:induction false} LengthOfEncoding(ws: seq<Stamped>)
    requires forall w :: w in Bare(ws) ==> GoodWrite(w)
    ensures |Encode(Bare(ws))| == Length(ws)
    decreases |ws|
  {
    if ws != [] {
      var front, last := ws[..|ws| - 1], ws[|ws| - 1];
      assert Bare(ws) == Bare(front) + [last.write];
      LengthOfEncoding(front);
      EncodeConcat(Bare(front), [last.write]);
      assert Encode([last.write]) == EncodeOne(last.write) + Encode([]);
    }
  }

  lemma {:induction false} EncodeConcat(a: seq<Write>, b: seq<Write>)
    requires forall w :: w in a + b ==> GoodWrite(w)
    ensures forall w :: w in a || w in b ==> GoodWrite(w)
    ensures Encode(a + b) == Encode(a) + Encode(b)
    decreases |a|
  {
    assert forall w :: w in a || w in b ==> w in a + b;
    if a == [] {
      assert a + b == b;
    } else {
      assert (a + b)[0] == a[0] && (a + b)[1..] == a[1..] + b;
      EncodeConcat(a[1..], b);
    }
  }

  // ----- any byte stream at all

  /** The first marker of a stream, or its length when there is none. */
  function FirstSync(s: seq<byte>, from: nat): (i: nat)
    requires from <= |s|
    ensures from <= i <= |s|
    ensures i < |s| ==> SyncAt(s, i)
    ensures forall j :: from <= j < i ==> !SyncAt(s, j)
    decreases |s| - from
  {
    if from == |s| || SyncAt(s, from) then from else FirstSync(s, from + 1)
  }

  /** Drops the sync bytes that are still held back at the end of a stream. */
  function Settled(s: seq<byte>): (r: seq<byte>)
    ensures |r| <= |s| && s == r + Held(|s| - |r|)
    ensures r == [] || r[|r| - 1] != SYNC_BYTE
    decreases |s|
  {
    if s != [] && s[|s| - 1] == SYNC_BYTE then
      var r := Settled(s[..|s| - 1]);
      assert s == s[..|s| - 1] + [SYNC_BYTE] && Held(|s| - |r|) == Held(|s| - 1 - |r|) + [SYNC_BYTE];
      r
    else
      assert s + Held(0) == s;
      s
  }

  /** The complete good writes of a stream that follows a marker, frame by frame. */
  function BodyWrites(s: seq<byte>): seq<Write>
    decreases |s|
  {
    var i := FirstSync(s, 0);
    if i == |s| then Scan(Settled(s)).0 else Scan(s[..i]).0 + BodyWrites(s[i + SYNC_LENGTH..])
  }

  /** The writes the callbacks were told about. */
  function Writes(events: seq<Event>): seq<Stamped>
    decreases |events|
  {
    if events == [] then []
    else
      var front, last := events[..|events| - 1], events[|events| - 1];
      if last.Wrote? then Writes(front) + [last.w] else Writes(front)
  }

  lemma {:induction false} WritesConcat(a: seq<Event>, b: seq<Event>)
    ensures Writes(a + b) == Writes(a) + Writes(b)
    decreases |b|
  {
    if b == [] {
      assert a + b == a;
    } else {
      var front := b[..|b| - 1];
      assert (a + b)[..|a + b| - 1] == a + front;
      WritesConcat(a, front);
    }
  }

  lemma {:induction false} WritesOfWroteAll(ws: seq<Write>, at: real)
    ensures Writes(WroteAll(ws, at)) == Stamp(ws, at)
    decreases |ws|
  {
    if ws != [] {
      var front := ws[..|ws| - 1];
      assert WroteAll(ws, at)[..|ws| - 1] == WroteAll(front, at);
      assert Stamp(ws, at) == Stamp(front, at) + [Stamped(ws[|ws| - 1], at)];
      WritesOfWroteAll(front, at);
    }
  }

  lemma BeforeFirstSyncIsClean(s: seq<byte>)
    ensures FirstSync(s, 0) < |s| ==> Clean(s[..FirstSync(s, 0)])
    ensures FirstSync(s, 0) == |s| ==> Clean(Settled(s)) && |s| - |Settled(s)| < SYNC_LENGTH
  {
    var i := FirstSync(s, 0);
    var body := if i < |s| then s[..i] else Settled(s);
    assert forall j :: 0 <= j < |body| ==> body[j] == s[j];
    forall j | 0 <= j < |body| ensures !SyncAt(body, j) {
      assert SyncAt(body, j) ==> SyncAt(s, j);
    }
    if i < |s| && i > 0 {
      assert !SyncAt(s, i - 1);
    }
    if i == |s| && |s| - |body| >= SYNC_LENGTH {
      assert forall j :: |body| <= j < |s| ==> s[j] == SYNC_BYTE;
      assert SyncAt(s, |body|);
    }
  }

  lemma {:induction false} FeedTail(p: Parser, s: seq<byte>, at: real)
    requires p.syncRun == 0 && FirstSync(s, 0) == |s|
    ensures
      var q := ConsumeAll(p, Settled(s), at);
      Feed(p, s, at) == q.(syncRun := |s| - |Settled(s)|)
  {
    hide Feed, ConsumeAll, Clean, CleanAfter, SyncAt, FirstSync;
    BeforeFirstSyncIsClean(s);
    var body, k := Settled(s), |s| - |Settled(s)|;
    assert Held(0) + body == body;
    CleanAfterIsClean(0, body);
    FeedCleanBody(p, body, at);
    assert p.(syncRun := 0) == p;
    FeedConcat(p, body, Held(k), at);
    ReleasedRun(p, body, at);
    FeedHeld(Feed(p, body, at), k, at);
  }

  lemma ReleasedRun(p: Parser, data: seq<byte>, at: real)
    ensures ConsumeAll(p, data, at).syncRun == p.syncRun
    decreases |data|
  {
  }

  lemma TailWrites(p: Parser, s: seq<byte>, at: real)
    requires Synced(p) && FirstSync(s, 0) == |s|
    ensures Writes(Feed(p, s, at).events) == Writes(p.events) + Stamp(Scan(Settled(s)).0, at)
  {
    FeedTail(p, s, at);
    ConsumeFollowsScan(p, Settled(s), at);
    WritesConcat(p.events, WroteAll(Scan(Settled(s)).0, at));
    WritesOfWroteAll(Scan(Settled(s)).0, at);
  }

  lemma FrameWrites(p: Parser, body: seq<byte>, at: real)
    requires Synced(p) && Clean(body)
    ensures Synced(Feed(p, body + SYNC, at))
    ensures Writes(Feed(p, body + SYNC, at).events) == Writes(p.events) + Stamp(Scan(body).0, at)
  {
    CleanFrame(p, body, at);
    var ws := Scan(body).0;
    WritesConcat(p.events, WroteAll(ws, at));
    WritesOfWroteAll(ws, at);
    var wrote, completed := p.events + WroteAll(ws, at), [Completed(p.frameCount + 1, Stamp(ws, at))];
    assert wrote + [] == wrote;
    WritesConcat(wrote, completed);
    assert Writes(completed) == [] by {
      assert completed[..0] == [];
    }
  }

  /**
    Whatever bytes arrive after a marker, the writes applied are exactly the complete good writes of
    each frame body: a truncated or malformed write leaves no byte.
   */
  lemma {:induction false} StreamWrites(p: Parser, s: seq<byte>, at: real)
    requires Synced(p)
    ensures Writes(Feed(p, s, at).events) == Writes(p.events) + Stamp(BodyWrites(s), at)
    decreases |s|
  {
    var i := FirstSync(s, 0);
    if i == |s| {
      TailWrites(p, s, at);
    } else {
      var body, rest := s[..i], s[i + SYNC_LENGTH..];
      StreamStep(p, s, at);
      var q := Feed(p, body + SYNC, at);
      StreamWrites(q, rest, at);
      StampConcat(Writes(p.events), Scan(body).0, BodyWrites(rest), at);
    }
  }

  lemma StampConcat(before: seq<Stamped>, a: seq<Write>, b: seq<Write>, at: real)
    ensures (before + Stamp(a, at)) + Stamp(b, at) == before + Stamp(a + b, at)
  {
  }

  lemma StreamStep(p: Parser, s: seq<byte>, at: real)
    requires Synced(p) && FirstSync(s, 0) < |s|
    ensures
      var i := FirstSync(s, 0);
      var q := Feed(p, s[..i] + SYNC, at);
      && Feed(p, s, at) == Feed(q, s[i + SYNC_LENGTH..], at)
      && Synced(q)
      && Writes(q.events) == Writes(p.events) + Stamp(Scan(s[..i]).0, at)
  {
    var i := FirstSync(s, 0);
    BeforeFirstSyncIsClean(s);
    assert s == (s[..i] + SYNC) + s[i + SYNC_LENGTH..];
    FeedConcat(p, s[..i] + SYNC, s[i + SYNC_LENGTH..], at);
    FrameWrites(p, s[..i], at);
  }

  /** From power-on, everything before the first marker is noise. */
  lemma PowerOnWrites(s: seq<byte>, at: real)
    ensures
      var i := FirstSync(s, 0);
      Writes(Feed(Initial(), s, at).events) == if i == |s| then [] else Stamp(BodyWrites(s[i + SYNC_LENGTH..]), at)
  {
    var p, i := Initial(), FirstSync(s, 0);
    BeforeFirstSyncIsClean(s);
    if i == |s| {
      FeedTail(p, s, at);
      ConsumeWhileLost(p, Settled(s), at);
    } else {
      var noise, rest := s[..i], s[i + SYNC_LENGTH..];
      assert s == (noise + SYNC) + rest;
      FeedConcat(p, noise + SYNC, rest, at);
      FeedConcat(p, noise, SYNC, at);
      assert Held(0) + noise == noise;
      CleanAfterIsClean(0, noise);
      FeedCleanBody(p, noise, at);
      ConsumeWhileLost(p, noise, at);
      FeedSync(p, at);
      StreamWrites(Feed(p, SYNC, at), rest, at);
    }
  }

  // ----- arrival times never decide what is parsed

  function Erase(p: Parser): Parser {
    p.(frameWrites := EraseAll(p.frameWrites), events := EraseEvents(p.events))
  }

  function EraseAll(ws: seq<Stamped>): seq<Stamped> {
    seq(|ws|, i requires 0 <= i < |ws| => ws[i].(receivedAt := 0.0))
  }

  function EraseEvents(events: seq<Event>): seq<Event> {
    seq(|events|, i requires 0 <= i < |events| =>
      match events[i]
      case Wrote(w) => Wrote(w.(receivedAt := 0.0))
      case Completed(n, ws) => Completed(n, EraseAll(ws)))
  }

  /** A chunk of the stream and the time it arrived. */
  datatype Chunk = Chunk(data: seq<byte>, at: real)

  function FeedChunks(p: Parser, chunks: seq<Chunk>): Parser
    decreases |chunks|
  {
    if chunks == [] then p else FeedChunks(Feed(p, chunks[0].data, chunks[0].at), chunks[1..])
  }

  function Flatten(chunks: seq<Chunk>): seq<byte>
    decreases |chunks|
  {
    if chunks == [] then [] else chunks[0].data + Flatten(chunks[1..])
  }

  lemma ConsumeErased(p: Parser, q: Parser, b: byte, at: real, when: real)
    requires Erase(p) == Erase(q)
    ensures Erase(Consume(p, b, at)) == Erase(Consume(q, b, when))
  {
    assert |p.frameWrites| == |EraseAll(p.frameWrites)| == |q.frameWrites|;
    assert |p.events| == |EraseEvents(p.events)| == |q.events|;
    if p.phase == Data {
      var w := Write(p.address, p.payload + [b]);
      AppendErased(p.frameWrites, Stamped(w, at));
      AppendErased(q.frameWrites, Stamped(w, when));
      AppendErasedEvent(p.events, Wrote(Stamped(w, at)));
      AppendErasedEvent(q.events, Wrote(Stamped(w, when)));
    }
  }

  lemma AppendErased(ws: seq<Stamped>, w: Stamped)
    ensures EraseAll(ws + [w]) == EraseAll(ws) + [w.(receivedAt := 0.0)]
  {
  }

  lemma AppendErasedEvent(events: seq<Event>, e: Event)
    ensures EraseEvents(events + [e]) == EraseEvents(events) + EraseEvents([e])
  {
  }

  lemma {:induction false} ReleaseErased(p: Parser, q: Parser, at: real, when: real)
    requires Erase(p) == Erase(q)
    ensures Erase(Release(p, at)) == Erase(Release(q, when))
    decreases p.syncRun
  {
    if p.syncRun > 0 {
      ConsumeErased(p, q, SYNC_BYTE, at, when);
      ReleaseErased(Consume(p, SYNC_BYTE, at).(syncRun := p.syncRun - 1),
                    Consume(q, SYNC_BYTE, when).(syncRun := q.syncRun - 1), at, when);
    }
  }

  lemma FeedByteErased(p: Parser, q: Parser, b: byte, at: real, when: real)
    requires Erase(p) == Erase(q)
    ensures Erase(FeedByte(p, b, at)) == Erase(FeedByte(q, b, when))
  {
    ReleaseErased(p, q, at, when);
    ConsumeErased(Release(p, at), Release(q, when), b, at, when);
    AppendErasedEvent(p.events, Completed(p.frameCount + 1, p.frameWrites));
    AppendErasedEvent(q.events, Completed(q.frameCount + 1, q.frameWrites));
  }

  lemma {:induction false} FeedErased(p: Parser, q: Parser, data: seq<byte>, at: real, when: real)
    requires Erase(p) == Erase(q)
    ensures Erase(Feed(p, data, at)) == Erase(Feed(q, data, when))
    decreases |data|
  {
    if data != [] {
      FeedByteErased(p, q, data[0], at, when);
      FeedErased(FeedByte(p, data[0], at), FeedByte(q, data[0], when), data[1..], at, when);
    }
  }

  /**
    However a stream is cut into chunks and whenever they arrive, the state and the events agree but for their
    times.
   */
  lemma {:induction false} ChunksDoNotMatter(p: Parser, q: Parser, chunks: seq<Chunk>, at: real)
    requires Erase(p) == Erase(q)
    ensures Erase(FeedChunks(p, chunks)) == Erase(Feed(q, Flatten(chunks), at))
    decreases |chunks|
  {
    if chunks != [] {
      FeedErased(p, q, chunks[0].data, chunks[0].at, at);
      FeedConcat(q, chunks[0].data, Flatten(chunks[1..]), at);
      ChunksDoNotMatter(Feed(p, chunks[0].data, chunks[0].at), Feed(q, chunks[0].data, at), chunks[1..], at);
    }
  }

  // ----- the mutable object

  datatype FrameComplete = FrameComplete(number: nat, writes: seq<StateWrite>)

  function Strip(ws: seq<StateWrite>): seq<Stamped> {
    seq(|ws|, i requires 0 <= i < |ws| => Stamped(ws[i].write, ws[i].receivedAt))
  }

  /** The address space after the writes among `events`. */
  ghost function Replayed(s: Space, events: seq<Event>): Space
    decreases |events|
  {
    if events == [] then s
    else
      var before, last := Replayed(s, events[..|events| - 1]), events[|events| - 1];
      if last.Wrote? && InBounds(last.w.write) then Applied(before, last.w) else before
  }

  lemma {:induction false} ReplayedConcat(s: Space, a: seq<Event>, b: seq<Event>)
    ensures Replayed(s, a + b) == Replayed(Replayed(s, a), b)
    decreases |b|
  {
    if b == [] {
      assert a + b == a;
    } else {
      assert (a + b)[..|a + b| - 1] == a + b[..|b| - 1];
      ReplayedConcat(s, a, b[..|b| - 1]);
    }
  }

  /** Replaying events is folding their writes. */
  lemma {:induction false} ReplayedIsFold(s: Space, events: seq<Event>)
    requires GoodEvents(events)
    ensures AllInBounds(Writes(events)) && Replayed(s, events) == AppliedAll(s, Writes(events))
    decreases |events|
  {
    if events != [] {
      var front, last := events[..|events| - 1], events[|events| - 1];
      assert last in events && forall e :: e in front ==> e in events;
      ReplayedIsFold(s, front);
      if last.Wrote? {
        AppliedAllConcat(s, Writes(front), [last.w]);
        assert AppliedAll(AppliedAll(s, Writes(front)), [last.w]) == Applied(AppliedAll(s, Writes(front)), last.w);
      }
    }
  }

  // ----- headers

  /**
    A write's header, address and count low byte first, is followed by its data if and only if the address is
    not that of a marker and the count is positive, even and within the address space; else the frame is lost.
   */
  lemma HeaderDecides(p: Parser, a: byte, b: byte, c: byte, d: byte, at: real)
    requires p.phase == AddressLow
    ensures
      var address, count := a as int + 256 * (b as int), c as int + 256 * (d as int);
      var q := Consume(Consume(Consume(Consume(p, a, at), b, at), c, at), d, at);
      if address != 0x5555 && count > 0 && count % 2 == 0 && address + count <= 0x1_0000 then
        q == p.(phase := Data, address := address, count := count, payload := [])
      else
        && q.phase == WaitForSync && !q.frameStarted && q.frameWrites == [] && q.events == p.events
        && q.errorCount == p.errorCount + 1
  {
  }

  // ----- the counters

  /** The byte loses a frame: a header in it is malformed, or it ends a marker inside a write. */
  ghost predicate LosesFrame(p: Parser, b: byte, at: real) {
    && p.frameStarted
    && (!FeedByte(p, b, at).frameStarted || (b == SYNC_BYTE && p.syncRun == 3 && p.phase != AddressLow))
  }

  /** How many frames a stream loses. */
  ghost function LostFrames(p: Parser, data: seq<byte>, at: real): nat
    decreases |data|
  {
    if data == [] then 0
    else (if LosesFrame(p, data[0], at) then 1 else 0) + LostFrames(FeedByte(p, data[0], at), data[1..], at)
  }

  function CompletedIn(events: seq<Event>): seq<nat>
    decreases |events|
  {
    if events == [] then []
    else
      var front, last := CompletedIn(events[..|events| - 1]), events[|events| - 1];
      if last.Completed? then front + [last.number] else front
  }

  /** The frames reported so far are numbered 1, 2, 3 and so on, up to the frame count. */
  ghost predicate Numbered(p: Parser) {
    CompletedIn(p.events) == seq(p.frameCount, i requires 0 <= i < p.frameCount => i + 1)
  }

  lemma {:induction false} ConsumeCounts(p: Parser, b: byte, at: real)
    requires ValidParser(p) && Numbered(p)
    ensures
      var q := Consume(p, b, at);
      && Numbered(q) && q.syncRun == p.syncRun
      && q.errorCount == p.errorCount + (if p.frameStarted && !q.frameStarted then 1 else 0)
      && (!p.frameStarted ==> !q.frameStarted)
  {
    hide GoodHeader, GoodWrite;
  }

  lemma {:induction false} ReleaseCounts(p: Parser, at: real)
    requires ValidParser(p) && Numbered(p)
    ensures
      var q := Release(p, at);
      && Numbered(q)
      && q.errorCount == p.errorCount + (if p.frameStarted && !q.frameStarted then 1 else 0)
      && (!p.frameStarted ==> !q.frameStarted)
    decreases p.syncRun
  {
    hide Numbered;
    if p.syncRun > 0 {
      var next := Consume(p, SYNC_BYTE, at).(syncRun := p.syncRun - 1);
      ConsumeCounts(p, SYNC_BYTE, at);
      ConsumeKeepsValid(p, SYNC_BYTE, at);
      NumberedAlike(Consume(p, SYNC_BYTE, at), next);
      ReleaseCounts(next, at);
      hide Consume, ValidParser;
    }
  }

  lemma NumberedAlike(p: Parser, q: Parser)
    requires Numbered(p) && q.events == p.events && q.frameCount == p.frameCount
    ensures Numbered(q)
  {
  }

  lemma {:induction false} FeedByteCounts(p: Parser, b: byte, at: real)
    requires ValidParser(p) && Numbered(p)
    ensures
      var q := FeedByte(p, b, at);
      Numbered(q) && q.errorCount == p.errorCount + (if LosesFrame(p, b, at) then 1 else 0)
  {
    if b != SYNC_BYTE {
      ReleaseCounts(p, at);
      ReleaseKeepsValid(p, at);
      ConsumeCounts(Release(p, at), b, at);
      hide ValidParser, Release, Consume, Numbered;
    } else {
      hide ValidParser;
    }
  }

  /** Over any stream, the error counter counts the frames lost, and the completed frames are numbered in order. */
  lemma {:induction false} CountersAreExact(p: Parser, data: seq<byte>, at: real)
    requires ValidParser(p) && Numbered(p)
    ensures
      var q := Feed(p, data, at);
      Numbered(q) && q.errorCount == p.errorCount + LostFrames(p, data, at)
    decreases |data|
  {
    hide ValidParser, FeedByte, Numbered, LosesFrame;
    if data != [] {
      FeedByteCounts(p, data[0], at);
      FeedByteKeepsValid(p, data[0], at);
      CountersAreExact(FeedByte(p, data[0], at), data[1..], at);
    }
  }

  class DcsBiosProtocolParser {
    const biosState: DcsBiosState
    var errorCount: nat
    var frameCount: nat
    var phase: Phase
    var syncRun: nat
    var address: nat
    var count: nat
    var payload: seq<byte>
    var frameStarted: bool
    var frameWrites: seq<StateWrite>
    ghost var events: seq<Event>

    ghost function View(): Parser
      reads this
    {
      Parser(phase, syncRun, address, count, payload, frameStarted, Strip(frameWrites), errorCount, frameCount, events)
    }

    ghost predicate Valid()
      reads this
    {
      biosState.Valid() && ValidParser(View())
    }

    ghost function Space(): BiosState.Space
      requires biosState.Valid()
      reads biosState.buffer, biosState.available, biosState.updatedAt
    {
      biosState.View()
    }

    constructor (state: DcsBiosState)
      requires state.Valid()
      ensures Valid() && View() == Initial() && biosState == state
    {
      biosState := state;
      errorCount, frameCount, phase, syncRun, address, count := 0, 0, WaitForSync, 0, 0, 0;
      payload, frameStarted, frameWrites, events := [], false, [], [];
    }

    method MarkMalformed()
      modifies this
      ensures View() == Malformed(old(View()))
    {
      errorCount := errorCount + 1;
      payload, frameWrites, frameStarted, phase := [], [], false, WaitForSync;
    }

    method ConsumeByte(b: byte, at: real)
      requires Valid()
      modifies this, biosState, biosState.buffer, biosState.available, biosState.updatedAt
      ensures Valid() && View() == Consume(old(View()), b, at)
      ensures old(events) <= events && Space() == Replayed(old(Space()), events[|old(events)|..])
    {
      ConsumeKeepsValid(View(), b, at);
      match phase
      case WaitForSync =>
      case AddressLow =>
        address, phase := b, AddressHigh;
      case AddressHigh =>
        address := address + 256 * (b as int);
        if address == 0x5555 {
          MarkMalformed();
        } else {
          phase := CountLow;
        }
      case CountLow =>
        count, phase := b, CountHigh;
      case CountHigh =>
        count := count + 256 * (b as int);
        if GoodHeader(address, count) {
          payload, phase := [], Data;
        } else {
          MarkMalformed();
        }
      case Data =>
        AppendToPayload(b, at);
    }

    method AppendToPayload(b: byte, at: real)
      requires Valid() && phase == Data
      modifies this, biosState, biosState.buffer, biosState.available, biosState.updatedAt
      ensures View() == Consume(old(View()), b, at)
      ensures old(events) <= events && Space() == Replayed(old(Space()), events[|old(events)|..])
    {
      payload := payload + [b];
      if |payload| == count {
        var write := biosState.ApplyWrite(address, payload, at);
        ghost var stamped := Stamped(Write(address, payload), at);
        assert Strip(frameWrites + [write.value]) == Strip(frameWrites) + [stamped];
        frameWrites := frameWrites + [write.value];
        events := events + [Wrote(stamped)];
        assert events[|old(events)|..] == [Wrote(stamped)] && [Wrote(stamped)][..0] == [];
        payload, phase := [], AddressLow;
      }
    }

    method HandleSyncMarker() returns (frame: Option<FrameComplete>)
      requires biosState.Valid() && ValidParser(View().(syncRun := 0))
      modifies this
      ensures Valid() && View() == HandleSync(old(View()))
      ensures events == old(events) + if frame.Some? then [AsEvent(frame.value)] else []
    {
      frame := None;
      if frameStarted && phase != AddressLow {
        errorCount := errorCount + 1;
      } else if frameStarted {
        frameCount := frameCount + 1;
        frame := Some(FrameComplete(frameCount, frameWrites));
        events := events + [Completed(frameCount, Strip(frameWrites))];
      }
      frameStarted, frameWrites, payload, phase, syncRun := true, [], [], AddressLow, 0;
    }

    method FeedOne(b: byte, at: real) returns (frame: Option<FrameComplete>)
      requires Valid()
      modifies this, biosState, biosState.buffer, biosState.available, biosState.updatedAt
      ensures Valid() && View() == FeedByte(old(View()), b, at)
      ensures old(events) <= events && Space() == Replayed(old(Space()), events[|old(events)|..])
      ensures CompletedFrames(events[|old(events)|..]) == if frame.Some? then [AsEvent(frame.value)] else []
    {
      frame := None;
      ghost var before, space := events, Space();
      assert events[|before|..] == [];
      if b == SYNC_BYTE {
        syncRun := syncRun + 1;
        if syncRun == SYNC_LENGTH {
          frame := HandleSyncMarker();
          assert events[|before|..] == if frame.Some? then [AsEvent(frame.value)] else [];
          assert frame.Some? ==> [AsEvent(frame.value)][..0] == [];
        }
      } else {
        ReleaseHeld(at, before, space);
        ConsumeQuietly(b, at, before, space);
      }
    }

    method ReleaseHeld(at: real, ghost before: seq<Event>, ghost space: BiosState.Space)
      requires Valid() && before <= events
      requires CompletedFrames(events[|before|..]) == [] && Space() == Replayed(space, events[|before|..])
      modifies this, biosState, biosState.buffer, biosState.available, biosState.updatedAt
      ensures Valid() && View() == Release(old(View()), at) && before <= events
      ensures CompletedFrames(events[|before|..]) == [] && Space() == Replayed(space, events[|before|..])
    {
      ghost var start := View();
      while syncRun > 0
        invariant Valid() && Release(View(), at) == Release(start, at)
        invariant before <= events && Space() == Replayed(space, events[|before|..])
        invariant CompletedFrames(events[|before|..]) == []
      {
        ReleaseOne(at, before, space);
      }
    }

    method ReleaseOne(at: real, ghost before: seq<Event>, ghost space: BiosState.Space)
      requires Valid() && before <= events && syncRun > 0
      requires CompletedFrames(events[|before|..]) == [] && Space() == Replayed(space, events[|before|..])
      modifies this, biosState, biosState.buffer, biosState.available, biosState.updatedAt
      ensures Valid() && View() == Consume(old(View()), SYNC_BYTE, at).(syncRun := old(syncRun) - 1)
      ensures before <= events
      ensures CompletedFrames(events[|before|..]) == [] && Space() == Replayed(space, events[|before|..])
    {
      ConsumeKeepsValid(View(), SYNC_BYTE, at);
      ConsumeQuietly(SYNC_BYTE, at, before, space);
      syncRun := syncRun - 1;
    }

    /** Consuming a data byte completes no frame; the events since `before` keep describing the address space. */
    method ConsumeQuietly(b: byte, at: real, ghost before: seq<Event>, ghost space: BiosState.Space)
      requires Valid() && before <= events
      requires CompletedFrames(events[|before|..]) == [] && Space() == Replayed(space, events[|before|..])
      modifies this, biosState, biosState.buffer, biosState.available, biosState.updatedAt
      ensures Valid() && View() == Consume(old(View()), b, at) && before <= events
      ensures CompletedFrames(events[|before|..]) == [] && Space() == Replayed(space, events[|before|..])
    {
      ghost var middle := events;
      ConsumeSize(View(), b, at);
      ConsumeByte(b, at);
      assert events[|before|..] == middle[|before|..] + events[|middle|..];
      CompletedConcat(middle[|before|..], events[|middle|..]);
      NoneCompleted(events[|middle|..]);
      ReplayedConcat(space, middle[|before|..], events[|middle|..]);
    }

    /** The address space gains exactly the writes among the new events; the frames returned are those completed. */
    method FeedBytes(data: seq<byte>, at: real) returns (completed: seq<FrameComplete>)
      requires Valid()
      modifies this, biosState, biosState.buffer, biosState.available, biosState.updatedAt
      ensures Valid() && View() == Feed(old(View()), data, at)
      ensures old(events) <= events && Space() == Replayed(old(Space()), events[|old(events)|..])
      ensures CompletedFrames(events[|old(events)|..]) == AsEvents(completed)
    {
      hide ValidParser, FeedByte, Replayed, CompletedFrames;
      completed := [];
      ghost var before, space := events, Space();
      NothingYet(space);
      assert events[|before|..] == [];
      for i := 0 to |data|
        invariant Valid() && Feed(View(), data[i..], at) == Feed(old(View()), data, at)
        invariant before <= events && Space() == Replayed(space, events[|before|..])
        invariant CompletedFrames(events[|before|..]) == AsEvents(completed)
      {
        assert data[i..][1..] == data[i + 1..];
        completed := FeedNext(data[i], at, before, space, completed);
      }
    }

    /** One more byte of a chunk, with the frames completed so far. */
    method FeedNext(b: byte, at: real, ghost before: seq<Event>, ghost space: BiosState.Space,
                    completed: seq<FrameComplete>)
      returns (after: seq<FrameComplete>)
      requires Valid() && before <= events && Space() == Replayed(space, events[|before|..])
      requires CompletedFrames(events[|before|..]) == AsEvents(completed)
      modifies this, biosState, biosState.buffer, biosState.available, biosState.updatedAt
      ensures Valid() && View() == FeedByte(old(View()), b, at)
      ensures before <= events && Space() == Replayed(space, events[|before|..])
      ensures CompletedFrames(events[|before|..]) == AsEvents(after)
    {
      hide ValidParser, FeedByte, Replayed, CompletedFrames;
      ghost var middle := events;
      var frame := FeedOne(b, at);
      assert events[|before|..] == middle[|before|..] + events[|middle|..];
      CompletedConcat(middle[|before|..], events[|middle|..]);
      ReplayedConcat(space, middle[|before|..], events[|middle|..]);
      after := if frame.Some? then completed + [frame.value] else completed;
    }
  }

  // ----- frames among the events

  function AsEvent(f: FrameComplete): Event {
    Completed(f.number, Strip(f.writes))
  }

  function AsEvents(fs: seq<FrameComplete>): seq<Event> {
    seq(|fs|, i requires 0 <= i < |fs| => AsEvent(fs[i]))
  }

  function CompletedFrames(events: seq<Event>): seq<Event> {
    if events == [] then []
    else (if events[0].Completed? then [events[0]] else []) + CompletedFrames(events[1..])
  }

  lemma NothingYet(space: BiosState.Space)
    ensures Replayed(space, []) == space && CompletedFrames([]) == []
  {
  }

  lemma {:induction false} CompletedConcat(a: seq<Event>, b: seq<Event>)
    ensures CompletedFrames(a + b) == CompletedFrames(a) + CompletedFrames(b)
    decreases |a|
  {
    if a == [] {
      assert a + b == b;
    } else {
      assert (a + b)[0] == a[0] && (a + b)[1..] == a[1..] + b;
      CompletedConcat(a[1..], b);
    }
  }

  lemma NoneCompleted(events: seq<Event>)
    requires forall e :: e in events ==> !e.Completed?
    ensures CompletedFrames(events) == []
    decreases |events|
  {
  }
}
