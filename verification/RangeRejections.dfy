/**
  A declared maximum below a control's mask gets its value rejected: from power-on, a frame that names an
  aircraft and sets every bit of the control, then a connection, a flush and two arrivals are enough.

  The environment has two controls, the aircraft's name and the doubtful one. Its frame is clean, so the parser
  gives both writes back; the epoch opened on connecting snapshots the exceeding value, and since no backend
  takes that opening as a whole, one of its messages is rejected on arrival.
 */
module RangeRejections {
  import opened Wrappers
  import opened InsertionDict
  import opened Wire
  import opened Ingress
  import opened RawStore
  import opened BiosState
  import opened BiosProtocol
  import opened BiosRegistry
  import opened BiosClient
  import opened Connection
  import opened Publisher
  import opened Delivery
  import opened Mirror
  import opened Pipeline
  import opened PipelineSafety
  import opened PipelineRuns
  import opened ByteRuns

  // ----- one message after another arrives

  ghost predicate RejectsNext(sys: System)
    requires Good(BackendOf(sys))
  {
    sys.wire != [] && Accept(sys.ingress, sys.wire[0]).1.Rejected?
  }

  function Arrivals(n: nat, now: real): seq<Step> {
    seq(n, _ => Arrive(now))
  }

  lemma {:induction false} DeliveryIgnoresReadings(b: Backend, c: Backend, messages: seq<Message>)
    requires Good(b) && Good(c) && b == c.(readings := b.readings)
    ensures DeliverAll(b, messages).Some? <==> DeliverAll(c, messages).Some?
    decreases |messages|
  {
    hide Accept, Stream;
    if messages != [] && Deliver(b, messages[0]).Some? {
      DeliveryIgnoresReadings(Deliver(b, messages[0]).value, Deliver(c, messages[0]).value, messages[1..]);
    }
  }

  /** A wire that cannot be delivered as a whole has a message that is rejected when it arrives. */
  lemma {:induction false} SomeArrivalIsRejected(env: Env, sys: System, now: real) returns (n: nat)
    requires Sane(env, sys) && DeliverAll(BackendOf(sys), sys.wire).None?
    ensures RejectsNext(PipelineSafety.Run(env, sys, Arrivals(n, now)))
    decreases |sys.wire|
  {
    hide Sane, BackendReceives, RejectsNext, Deliver, Good, ByteIn, FlushNow, LinkReady;
    SaneParts(env, sys);
    if RejectsNext(sys) {
      n := 0;
    } else {
      StepKeepsSane(env, sys, Arrive(now));
      ArrivalDelivers(env, sys, now);
      var rest := SomeArrivalIsRejected(env, BackendReceives(env, sys, now), now);
      n := rest + 1;
      assert Arrivals(n, now)[0] == Arrive(now) && Arrivals(n, now)[1..] == Arrivals(rest, now);
    }
  }

  lemma {:induction false} ArrivalDelivers(env: Env, sys: System, now: real)
    requires Sane(env, sys) && !RejectsNext(sys) && DeliverAll(BackendOf(sys), sys.wire).None?
    ensures sys.wire != []
    ensures
      var next := BackendReceives(env, sys, now);
      && next.wire == sys.wire[1..] && Good(BackendOf(next)) && DeliverAll(BackendOf(next), next.wire).None?
  {
    hide WellFormed, ValidParser, Accept, ApplyBatch, Stream;
    ReceiveKeepsSane(env, sys, now);
    var next := BackendReceives(env, sys, now);
    DeliveryIgnoresReadings(BackendOf(next), Deliver(BackendOf(sys), sys.wire[0]).value, sys.wire[1..]);
  }

  // ----- an environment with one doubtful control

  /** An integer control whose declared maximum a catalog can carry but its values can exceed. */
  ghost predicate Doubtful(d: Definition) {
    Located(d) && d.kind.IntegerKind? && d.kind.maxValue >= 0 && !DeclaresItsRange(d.kind)
  }

  function NameAt(d: Definition): nat {
    if d.address >= 2 then 0 else 4
  }

  function NameControl(d: Definition): Definition {
    Definition("_ACFT_NAME", "MetadataStart", 0, NameAt(d), StringKind(2))
  }

  function TestEnv(d: Definition): Env {
    Env(Registry([NameControl(d), d], map["AB" := [d.moduleName]]), Config(MAX_SESSION_CONTROLS, 1, 1.0), 1.0,
        MAX_SESSION_CONTROLS, 2)
  }

  lemma {:induction false} TestEnvIsBounded(d: Definition)
    requires Doubtful(d)
    ensures BoundedMetadata(TestEnv(d).registry) && RoomyConfig(TestEnv(d)) && Usable(TestEnv(d))
    ensures AircraftName(TestEnv(d).registry.definitions) == Some(NameControl(d))
  {
    hide DeclaresItsRange;
    var r := TestEnv(d).registry;
    forall a: string ensures |Active(r, Some(a))| <= MAX_SESSION_CONTROLS {
      SelectKeepsDistinct(r.definitions, ModulesFor(r, a));
    }
  }

  lemma {:induction false} DoubtfulIsActive(d: Definition)
    requires Doubtful(d)
    ensures d in Active(TestEnv(d).registry, Some("AB")) && |Active(TestEnv(d).registry, Some("AB"))| <= 2
  {
    hide DeclaresItsRange;
    TestEnvIsBounded(d);
    var r := TestEnv(d).registry;
    assert r.definitions[1] == d && d.moduleName in r.aliases["AB"];
    SelectKeepsDistinct(r.definitions, ModulesFor(r, "AB"));
  }

  // ----- the frame

  function NameWrite(d: Definition): Write {
    Write(NameAt(d), [0x41, 0x42])
  }

  /** All ones in the control's word, from the byte before it where no write may begin at the word itself. */
  function ValueWrite(d: Definition): Write {
    if d.address == 0x5555 then Write(0x5554, [0, 255, 255, 0]) else Write(d.address, [255, 255])
  }

  lemma {:induction false} FrameIsClean(d: Definition)
    requires Doubtful(d)
    ensures
      var ws := [NameWrite(d), ValueWrite(d)];
      (forall w :: w in ws ==> GoodWrite(w)) && Clean(Encode(ws))
  {
    hide DeclaresItsRange;
    var ws := [NameWrite(d), ValueWrite(d)];
    var v := ValueWrite(d);
    assert ws[1..] == [v] && [v][1..] == [];
    assert Encode([v]) == EncodeOne(v) + Encode([]);
    assert Encode(ws) == EncodeOne(ws[0]) + EncodeOne(v);
    var body := Encode(ws);
    assert EncodeOne(ws[0]) == [NameAt(d), 0, 2, 0, 0x41, 0x42];
    forall i | 0 <= i < |body| ensures !SyncAt(body, i) {
      assert body[5] == 0x42 && body[8] < 5 && body[9] == 0;
    }
  }

  function Frame(d: Definition): seq<Stamped> {
    Stamp([NameWrite(d), ValueWrite(d)], 0.0)
  }

  lemma {:induction false} FrameEvents(d: Definition)
    requires Doubtful(d)
    ensures forall w :: w in [NameWrite(d), ValueWrite(d)] ==> GoodWrite(w)
    ensures
      var fed := Feed(Initial(), SYNC + (Encode([NameWrite(d), ValueWrite(d)]) + SYNC), 0.0);
      fed.events == [Wrote(Frame(d)[0]), Wrote(Frame(d)[1]), Completed(1, Frame(d))]
  {
    hide Feed, Clean, Doubtful, CompletesFrame;
    var ws := [NameWrite(d), ValueWrite(d)];
    FrameIsClean(d);
    FeedSync(Initial(), 0.0);
    ParserInvertsEncoder(Initial(), ws, 0.0);
    assert WroteAll(ws, 0.0) == [Wrote(Frame(d)[0]), Wrote(Frame(d)[1])];
  }

  lemma {:induction false} FrameInBounds(d: Definition)
    requires Doubtful(d)
    ensures AllInBounds(Frame(d))
  {
    hide DeclaresItsRange;
  }

  lemma {:induction false} LastOfTwo(d: Definition, a: nat)
    ensures
      var (name, value) := (NameWrite(d), ValueWrite(d));
      Last(Frame(d), a) ==
      if Covers(value, a) then Some(value.data[a - value.address])
      else if Covers(name, a) then Some(name.data[a - name.address]) else None
  {
    var ws := Frame(d);
    assert |ws| == 2 && ws[1].write == ValueWrite(d);
    var front := ws[..1];
    assert |front| == 1 && front[0].write == NameWrite(d) && front[..0] == [];
    assert Last(front, a) == if Covers(NameWrite(d), a) then Some(NameWrite(d).data[a - NameWrite(d).address])
                             else None;
  }

  /** Wherever the frame's writes are applied, the control's word is all ones and the name reads AB. */
  lemma {:induction false} FrameShows(d: Definition, base: Space)
    requires Doubtful(d)
    ensures AllInBounds(Frame(d))
    ensures
      var s := BiosState.AppliedAll(base, Frame(d));
      && Readable(s, d.address, 2) && Contents(s, d.address, 2) == [255, 255]
      && Readable(s, NameAt(d), 2) && Contents(s, NameAt(d), 2) == [0x41, 0x42]
  {
    hide DeclaresItsRange, BiosState.AppliedAll, Last;
    FrameInBounds(d);
    var s := BiosState.AppliedAll(base, Frame(d));
    forall a | a in [d.address, d.address + 1] ensures s[a].available && s[a].content == 255 {
      AppliedAllAt(base, Frame(d), a);
      LastOfTwo(d, a);
    }
    forall a | a in [NameAt(d), NameAt(d) + 1]
        ensures s[a].available && s[a].content == if a == NameAt(d) then 0x41 else 0x42 {
      AppliedAllAt(base, Frame(d), a);
      LastOfTwo(d, a);
    }
    assert d.address in [d.address, d.address + 1] && d.address + 1 in [d.address, d.address + 1];
    assert NameAt(d) in [NameAt(d), NameAt(d) + 1] && NameAt(d) + 1 in [NameAt(d), NameAt(d) + 1];
  }

  lemma {:induction false} FrameDecodes(d: Definition, base: Space)
    requires Doubtful(d)
    ensures AllInBounds(Frame(d))
    ensures
      var s := BiosState.AppliedAll(base, Frame(d));
      && Decode(d, s) == Some(Number(Top(d.kind.mask, d.kind.shift)))
      && NamedAircraft(NameControl(d), s) == Some("AB")
  {
    hide DeclaresItsRange, BiosState.AppliedAll, Frame, And, ShiftRight;
    FrameShows(d, base);
    DecodesName();
  }

  lemma {:induction false} DecodesName()
    ensures DecodeBytes(StringKind(2), [0x41, 0x42]) == Text("AB")
  {
    var raw: seq<byte> := [0x41, 0x42];
    assert raw[1..] == [0x42] && [0x42][1..] == [];
    assert BeforeNul(raw) == [0x41] + BeforeNul([0x42]) && BeforeNul([0x42]) == [0x42] + BeforeNul([]);
    assert BeforeNul(raw) == raw && RStrip(raw) == raw;
    assert Latin1(raw) == "AB";
  }

  // ----- the run

  lemma {:induction false} IdleIgnoresReports(cfg: Config, p: Publisher.State, changes: seq<Change>)
    requires !p.sessionActive
    ensures ControlsChanged(cfg, p, changes) == p
    decreases |changes|
  {
    if changes != [] {
      IdleIgnoresReports(cfg, p, changes[1..]);
    }
  }

  /**
    Handling the frame's events makes the client follow the aircraft and show the word of ones; nothing else is
    told.
   */
  ghost predicate Boarded(d: Definition, sys: System)
    requires Located(d) && d.kind.IntegerKind?
  {
    && sys == Start(TestEnv(d)).(client := sys.client, since := sys.since, parser := sys.parser)
    && sys.client.aircraft == Some("AB")
    && Decode(d, sys.client.space) == Some(Number(Top(d.kind.mask, d.kind.shift)))
  }

  lemma {:induction false} FrameDoneBoards(d: Definition, sys: System)
    requires Doubtful(d) && AllInBounds(Frame(d)) && WellFormed(TestEnv(d).registry)
    requires sys == Start(TestEnv(d)).(client := sys.client, since := sys.since, parser := sys.parser)
    requires sys.client.aircraft == None && sys.client.space == BiosState.AppliedAll(Blank(), Frame(d))
    ensures Boarded(d, FrameDone(TestEnv(d), sys, Frame(d), 0.0))
  {
    hide DeclaresItsRange, WellFormed, BiosState.AppliedAll, Decode, NamedAircraft, Frame, Report, ControlsChanged,
      Due, AircraftName;
    TestEnvIsBounded(d);
    FrameDecodes(d, Blank());
    FrameDecodes(d, Unavailable(sys.client.space));
    var env := TestEnv(d);
    var seen := sys.(client := sys.client.(latestFrameAt := Some(0.0), connected := true));
    var followed := FollowAircraft(env, seen, Frame(d), 0.0);
    IdleIgnoresReports(env.cfg, followed.publisher, EmitControlChanges(env.registry, followed.client).1);
  }

  lemma {:induction false} AppliedTwo(s: Space, ws: seq<Stamped>)
    requires |ws| == 2 && AllInBounds(ws)
    ensures BiosState.AppliedAll(s, ws) == BiosState.Applied(BiosState.Applied(s, ws[0]), ws[1])
  {
    hide BiosState.Applied;
    assert ws[1..] == [ws[1]] && ws[1..][1..] == [];
    var first := BiosState.Applied(s, ws[0]);
    assert BiosState.AppliedAll(first, ws[1..]) == BiosState.AppliedAll(BiosState.Applied(first, ws[1]), []);
  }

  lemma {:induction false} FrameBoards(d: Definition)
    requires Doubtful(d)
    ensures
      var events := [Wrote(Frame(d)[0]), Wrote(Frame(d)[1]), Completed(1, Frame(d))];
      && WellFormed(TestEnv(d).registry) && GoodEvents(events)
      && Boarded(d, HandleEvents(TestEnv(d), Start(TestEnv(d)), events, 0.0))
  {
    hide DeclaresItsRange, Boarded, FrameDone, InRange, Changes;
    TestEnvIsBounded(d);
    FrameInBounds(d);
    FrameIsClean(d);
    var env, ws := TestEnv(d), Frame(d);
    var events := [Wrote(ws[0]), Wrote(ws[1]), Completed(1, ws)];
    assert events[1..] == [Wrote(ws[1]), Completed(1, ws)] && events[1..][1..] == [Completed(1, ws)];
    assert [Completed(1, ws)][1..] == [];
    var first := Written(env, Start(env), ws[0]);
    var second := Written(env, first, ws[1]);
    AppliedTwo(Blank(), ws);
    FrameDoneBoards(d, second);
    assert HandleEvents(env, second, [Completed(1, ws)], 0.0) == FrameDone(env, second, ws, 0.0);
    assert HandleEvents(env, first, events[1..], 0.0) == HandleEvents(env, second, [Completed(1, ws)], 0.0);
  }

  function FrameBytes(d: Definition): seq<byte>
    requires forall w :: w in [NameWrite(d), ValueWrite(d)] ==> GoodWrite(w)
  {
    SYNC + (Encode([NameWrite(d), ValueWrite(d)]) + SYNC)
  }

  lemma {:induction false} BytesBoard(d: Definition)
    requires Doubtful(d)
    ensures forall w :: w in [NameWrite(d), ValueWrite(d)] ==> GoodWrite(w)
    ensures Usable(TestEnv(d)) && Boarded(d, After(TestEnv(d), Bytes(FrameBytes(d), 0.0)))
  {
    hide Doubtful, WellFormed, HandleEvents, Feed, Sane;
    TestEnvIsBounded(d);
    var env := TestEnv(d);
    StartSane(env);
    FrameEvents(d);
    FrameBoards(d);
    BytesAreOneChunk(env, Start(env), FrameBytes(d), 0.0);
  }

  /** The connection opens an epoch of two messages that no backend will take as a whole. */
  ghost predicate Offered(env: Env, sys: System)
    requires Good(BackendOf(sys))
  {
    && sys.publisher.sessionActive && sys.publisher.epoch.Some? && !RefreshDue(sys.publisher, 0.0)
    && |sys.publisher.initial| == 2 && sys.publisher.pending == Empty()
    && sys.link == Link(true, 2, [], 0) && sys.wire == []
    && DeliverAll(BackendOf(sys), sys.publisher.initial).None?
  }

  /** Integers are legal whatever their size, and texts are no longer than their control. */
  lemma {:induction false} ReadsAreLegal(r: Registry, controls: seq<Definition>, values: seq<DecodedValue>, s: Space)
    requires BoundedMetadata(r) && forall d :: d in controls ==> d in r.definitions && Located(d)
    requires forall v :: v in values ==> IsReadOf(v, controls, s)
    ensures forall v :: v in values ==> ValueIsLegal(v)
  {
    forall v | v in values ensures ValueIsLegal(v) {
      assert IsReadOf(v, controls, s);
      var d :| d in controls && Read(d, s).Some? && v == ValueOf(Read(d, s).value);
      if d.kind.StringKind? {
        DecodedInRange(d.kind, BiosState.Contents(s, d.address, ByteLength(d)));
      }
    }
  }

  lemma ValueExceeds(d: Definition, s: Space)
    requires Doubtful(d) && Decode(d, s) == Some(Number(Top(d.kind.mask, d.kind.shift)))
    ensures
      && Read(d, s).Some? && ValueOf(Read(d, s).value).identity == IdentityOf(d)
      && !Fits(ValueOf(Read(d, s).value), EntryOf(d))
  {
  }

  /** No backend takes an opening whose snapshot holds the exceeding value. */
  lemma {:induction false} SnapshotIsRejected(d: Definition, c: Client, b: Backend, epoch: nat)
    requires Doubtful(d) && c.aircraft == Some("AB")
             && Decode(d, c.space) == Some(Number(Top(d.kind.mask, d.kind.shift)))
    requires Good(b) && b.ingress.epoch != Some(epoch)
    ensures WellFormed(TestEnv(d).registry)
    ensures
      var entries := EntriesOf(Active(TestEnv(d).registry, c.aircraft));
      var values := ValuesOf(DecodedSnapshot(TestEnv(d).registry, c).1);
      && 0 < |entries| <= 2 && 0 < |values| <= 2
      && DeliverAll(b, Opening(epoch, "AB", entries, values)).None?
  {
    hide DeclaresItsRange, Doubtful, Good, DeliverAll, Opening, Fits, Decode, TestEnv, ReadAll, CatalogOf,
      DistinctEntries,
      DistinctValues, ValueIsLegal, EntryIsLegal, Active, Read;
    TestEnvIsBounded(d);
    DoubtfulIsActive(d);
    var r := TestEnv(d).registry;
    var controls := Active(r, c.aircraft);
    var entries, values := EntriesOf(controls), ValuesOf(DecodedSnapshot(r, c).1);
    ActiveIsDistinct(r, c.aircraft);
    EntriesAreLegal(r, c.aircraft);
    ActiveIsLocated(r, c.aircraft);
    SnapshotValues(c.space, c.decoded, controls);
    ReadsAreLegal(r, controls, values, c.space);
    ValueExceeds(d, c.space);
    CatalogHolds(controls, d);
    OpeningAcceptedExactly(b, epoch, "AB", entries, values);
    var v := ValueOf(Read(d, c.space).value);
    assert v in values && !Checked(CatalogOf(entries), v);
  }

  lemma {:induction false} OpeningIsShort(epoch: nat, aircraft: string, entries: seq<CatalogEntry>,
                                          values: seq<DecodedValue>)
    requires |entries| <= MAX_ENTRIES && |values| <= MAX_VALUES
    ensures |Opening(epoch, aircraft, entries, values)| == 2
  {
    var catalogs, snapshots := ChunksToSend(entries, MAX_ENTRIES), ChunksToSend(values, MAX_VALUES);
    assert |catalogs| == 1 && |snapshots| == 1 && catalogs[1..] == [] && snapshots[1..] == [];
    assert CatalogMessages(epoch, aircraft, 1, [], 1, 1) == [] && SnapshotMessages(epoch, aircraft, 2, [], 1, 1) == [];
  }

  lemma {:induction false} ConnectOffers(d: Definition, sys: System)
    requires Doubtful(d) && Boarded(d, sys) && Sane(TestEnv(d), sys)
    ensures
      var after := Advance(TestEnv(d), sys, Step.Connect(0.0));
      Sane(TestEnv(d), after) && Offered(TestEnv(d), after)
  {
    hide Doubtful, WellFormed, ValidParser, Stream, ReadAll, Opening, Decode, DeliverAll, Active, CatalogOf;
    var env := TestEnv(d);
    var b := Backend(Cleared(), [], Readings(EmptyRaw().entries.at));
    StepKeepsSane(env, sys, Step.Connect(0.0));
    NewBackendIsGood();
    SnapshotIsRejected(d, sys.client, b, 0);
    OpeningIsShort(0, "AB", EntriesOf(Active(env.registry, sys.client.aircraft)),
                   ValuesOf(DecodedSnapshot(env.registry, sys.client).1));
  }

  /** A flush and two turns of the writer put both messages on the wire. */
  lemma {:induction false} OfferIsSent(env: Env, sys: System)
    requires Sane(env, sys) && Offered(env, sys)
    ensures
      var end := PipelineSafety.Run(env, sys, [FlushStep(0.0), Writer, Writer]);
      DeliverAll(BackendOf(end), end.wire).None?
  {
    hide WellFormed, ValidParser, Stream, DeliverAll, Sane;
    SaneParts(env, sys);
    var steps := [FlushStep(0.0), Writer, Writer];
    assert steps[1..] == [Writer, Writer] && steps[1..][1..] == [Writer] && steps[1..][1..][1..] == [];
    var flushed := FlushNow(env, sys, 0.0);
    StepKeepsSane(env, sys, FlushStep(0.0));
    FlushOffers(env, sys);
    StepKeepsSane(env, flushed, Writer);
    StepKeepsSane(env, WriterTurn(flushed), Writer);
    WriterSends(flushed, sys.publisher.initial);
    hide FlushNow, WriterTurn;
  }

  lemma {:induction false} WriterSends(sys: System, m: seq<Message>)
    requires |m| == 2 && sys.link.outbound == [TelemetryFrame(m[0]), TelemetryFrame(m[1])] && sys.wire == []
    ensures
      var end := WriterTurn(WriterTurn(sys));
      end.wire == m && BackendOf(end) == BackendOf(sys)
  {
    assert sys.link.outbound[1..] == [TelemetryFrame(m[1])];
    assert ([] + [m[0]]) + [m[1]] == m;
  }

  lemma {:induction false} FlushOffers(env: Env, sys: System)
    requires WellFormed(env.registry) && sys.publisher.pending.Valid() && Good(BackendOf(sys)) && Offered(env, sys)
    ensures
      var m := sys.publisher.initial;
      var after := FlushNow(env, sys, 0.0);
      && after.link == Link(true, 2, [TelemetryFrame(m[0]), TelemetryFrame(m[1])], 0)
      && after == sys.(client := after.client, publisher := after.publisher, link := after.link)
  {
    hide WellFormed, DeliverAll, Good, Lost, DecodedSnapshot;
    var m := sys.publisher.initial;
    assert m == [m[0], m[1]] && m[1..] == [m[1]] && m[1..][1..] == [];
    var l1 := Link(true, 2, [TelemetryFrame(m[0])], 0);
    var l2 := Link(true, 2, [TelemetryFrame(m[0]), TelemetryFrame(m[1])], 0);
    assert [] + [TelemetryFrame(m[0])] == l1.outbound && l1.outbound + [TelemetryFrame(m[1])] == l2.outbound;
    assert Send(sys.link, TelemetryFrame(m[0])) == (l1, true) && Send(l1, TelemetryFrame(m[1])) == (l2, true);
    assert SendInitial([], l2) == ([], l2) && SendInitial([m[1]], l1) == ([], l2);
    assert SendInitial(m, sys.link) == ([], l2);
  }

  /** Everything `SoundEnv` asks, except that controls of this kind need not declare their range. */
  ghost predicate SoundBut(env: Env, kind: Kind) {
    && BoundedMetadata(env.registry) && RoomyConfig(env)
    && forall d :: d in env.registry.definitions ==> d.kind == kind || DeclaresItsRange(d.kind)
  }

  /** From power-on a run reaches the rejection of a message the publisher delivered. */
  lemma {:induction false} RejectionIsReachable(d: Definition) returns (steps: seq<Step>)
    requires Doubtful(d)
    ensures SoundBut(TestEnv(d), d.kind) && d in TestEnv(d).registry.definitions
    ensures Usable(TestEnv(d)) && RejectsNext(After(TestEnv(d), steps))
  {
    hide Doubtful, Advance, Sane, Offered, Boarded, RejectsNext;
    var env := TestEnv(d);
    TestEnvIsBounded(d);
    StartSane(env);
    BytesBoard(d);
    var bytes := Bytes(FrameBytes(d), 0.0);
    var boarded := After(env, bytes);
    ConnectOffers(d, boarded);
    var offered := Advance(env, boarded, Step.Connect(0.0));
    OfferIsSent(env, offered);
    var sent := PipelineSafety.Run(env, offered, [FlushStep(0.0), Writer, Writer]);
    SaneParts(env, sent);
    var n := SomeArrivalIsRejected(env, sent, 0.0);
    RunConcat(env, offered, [FlushStep(0.0), Writer, Writer], Arrivals(n, 0.0));
    var later := [Step.Connect(0.0)] + ([FlushStep(0.0), Writer, Writer] + Arrivals(n, 0.0));
    assert later[1..] == [FlushStep(0.0), Writer, Writer] + Arrivals(n, 0.0);
    RunConcat(env, Start(env), bytes, later);
    steps := bytes + later;
  }

  /** At the end of this run the ingress accepts the next message to arrive, if there is one. */
  ghost predicate AcceptsNext(env: Env, steps: seq<Step>) {
    Usable(env) && !RejectsNext(After(env, steps))
  }

  lemma RejectedRun(env: Env, steps: seq<Step>)
    requires Usable(env) && RejectsNext(After(env, steps))
    ensures !AcceptsNext(env, steps)
  {
  }

  lemma {:induction false} SoundRunAccepts(env: Env, kind: Kind, steps: seq<Step>)
    requires SoundBut(env, kind) && DeclaresItsRange(kind)
    ensures AcceptsNext(env, steps)
  {
    hide Inv, Accept, PipelineSafety.Run, Sane;
    assert SoundEnv(env);
    AfterKeepsInv(env, steps);
    var sys := After(env, steps);
    if sys.wire != [] {
      ReceiveDelivers(env, sys, 0.0);
    }
  }
}
