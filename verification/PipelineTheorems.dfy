/** The pipeline's promises, for every run from power-on, whatever its steps, their order and their times. */
module PipelineTheorems {
  import opened Wrappers
  import opened Wire
  import opened Ingress
  import opened RawStore
  import opened BiosState
  import opened BiosProtocol
  import opened BiosRegistry
  import opened BiosClient
  import opened Connection
  import opened Publisher
  import opened Delivery
  import opened Mirror
  import opened Pipeline
  import opened PipelineSafety
  import opened PipelineRuns
  import opened Draining
  import opened PipelineClocks
  import opened RangeRejections

  /** The ingress rejects nothing the publisher delivers, in any interleaving of the steps. */
  lemma {:induction false} NothingIsRejected(env: Env, steps: seq<Step>, now: real)
    requires SoundEnv(env)
    ensures
      var sys := After(env, steps);
      sys.wire != [] ==>
        && !Accept(sys.ingress, sys.wire[0]).1.Rejected?
        && BackendReceives(env, sys, now).wire == sys.wire[1..]
  {
    hide Inv, Accept, ApplyBatch, SoundEnv;
    AfterKeepsInv(env, steps);
    var sys := After(env, steps);
    if sys.wire != [] {
      ReceiveDelivers(env, sys, now);
    }
  }

  /** At most `queueSize` stream frames wait, and a control frame is refused only while sixteen control frames wait. */
  lemma {:induction false} QueueStaysBounded(env: Env, steps: seq<Step>)
    requires SoundEnv(env)
    ensures
      var link := After(env, steps).link;
      && StreamFrames(link.outbound) <= link.limit
      && (link.ready && !Send(link, ControlFrame).1 ==>
          |link.outbound| - StreamFrames(link.outbound) >= CONTROL_RESERVE)
  {
    hide Inv;
    AfterKeepsInv(env, steps);
    var link := After(env, steps).link;
    if link.ready {
      ControlRefusal(link);
    }
  }

  /**
    Mirror agreement: in a live epoch, delivering everything undelivered and overlaying the queued
    values gives, for every published control, exactly what the client last reported.
   */
  lemma {:induction false} MirrorAgreement(env: Env, steps: seq<Step>)
    requires SoundEnv(env)
    ensures
      var sys := After(env, steps);
      sys.publisher.epoch.Some? ==>
        var target := DeliverAll(BackendOf(sys), Undelivered(sys) + sys.publisher.initial);
        && target.Some?
        && forall d :: d in Active(env.registry, sys.client.aircraft) ==>
             Expected(target.value.readings, sys.publisher.pending.at, IdentityOf(d)) == Lookup(sys.client.decoded, d)
  {
    hide Deliver, Good, ReadyFor, QueuesAreSound, SoundMetadata, Inv, Sane;
    AfterKeepsInv(env, steps);
    if After(env, steps).publisher.epoch.Some? {
      InvAgrees(env, After(env, steps));
    }
  }

  /** When a frame completes, the backend is sent a fresh decode of the client's address space. */
  lemma {:induction false} FrameReachesBackend(env: Env, steps: seq<Step>, b: byte, now: real)
    requires SoundEnv(env)
    requires CompletesNow(After(env, steps), b, now)
    ensures
      var sys := ByteIn(env, After(env, steps), b, now);
      sys.publisher.epoch.Some? ==>
        && Good(BackendOf(sys))
        && var target := DeliverAll(BackendOf(sys), Undelivered(sys) + sys.publisher.initial);
           && target.Some?
           && forall d :: d in Active(env.registry, sys.client.aircraft) ==>
                Expected(target.value.readings, sys.publisher.pending.at, IdentityOf(d)) == Decode(d, sys.client.space)
  {
    AfterKeepsInv(env, steps);
    var sys := ByteIn(env, After(env, steps), b, now);
    ByteInKeepsInv(env, After(env, steps), b, now);
    if sys.publisher.epoch.Some? {
      InvAgrees(env, sys);
      forall d | d in Active(env.registry, sys.client.aircraft)
        ensures Expected(Target(sys).value.readings, sys.publisher.pending.at, IdentityOf(d)) ==
                Decode(d, sys.client.space)
      {
        assert Lookup(sys.client.decoded, d) == Decode(d, sys.client.space);
      }
    }
  }

  /** Once nothing is queued or under way, the backend's store and the client's reported values are equal. */
  lemma {:induction false} DrainedMeansEqual(env: Env, steps: seq<Step>)
    requires SoundEnv(env)
    ensures
      var sys := After(env, steps);
      sys.publisher.epoch.Some? && NothingQueued(sys) ==> sys.ingress.ready && SidesEqual(env, sys)
  {
    hide Inv;
    AfterKeepsInv(env, steps);
    var sys := After(env, steps);
    if sys.publisher.epoch.Some? && NothingQueued(sys) {
      QuietMeansEqual(env, sys);
    }
  }

  /**
    Draining terminates with the two sides equal: from any state a run can reach, with no new values and no
    refresh due, at most one round more than there were messages and values pending leaves nothing, and the
    backend's store holds for every published control exactly what the client last reported.
   */
  lemma {:induction false} DrainingTerminates(env: Env, steps: seq<Step>, now: real)
    requires SoundEnv(env) && Drainable(After(env, steps), now)
    ensures
      var sys := After(env, steps);
      var after := Rounds(env, sys, now, PendingCount(sys.publisher) + 1);
      Drained(env, after) && after.client == sys.client && after.publisher.epoch == sys.publisher.epoch
  {
    hide Inv, Sane, Round, PendingCount, Drained, Drainable;
    AfterKeepsInv(env, steps);
    var sys := After(env, steps);
    RoundLowersBacklog(env, sys, now);
    RoundKeepsInv(env, sys, now);
    EmptyQueueDrains(env, Round(env, sys, now), now, PendingCount(sys.publisher));
  }

  /** An epoch is live exactly while there is a ready connection and the client names an aircraft. */
  lemma {:induction false} EpochIsLiveExactly(env: Env, steps: seq<Step>)
    requires Usable(env)
    ensures
      var sys := After(env, steps);
      sys.publisher.epoch.Some? <==> sys.link.ready && sys.client.aircraft.Some?
  {
    hide Sane, PipelineSafety.Run;
    StartSane(env);
    RunAttended(env, Start(env), steps);
  }

  /**
    A flush that has sent the opening, while the client hears the simulator, refreshes exactly when the epoch's
    last snapshot is an interval old: then every decodable control ends with what it shows now, sent in the
    delta or left queued; before that, a control's sent and queued values are those queued before the flush.
   */
  lemma {:induction false} RefreshesExactlyWhenDue(env: Env, steps: seq<Step>, now: real)
    requires SoundEnv(env)
    ensures
      var sys, clock := After(env, steps), ClockAfter(env, steps);
      var after := Advance(env, sys, FlushStep(now));
      sys.publisher.epoch.Some? && after.publisher.initial == [] && clock.heard && !Silent(env, clock, now) ==>
        forall d :: d in Active(env.registry, sys.client.aircraft) && Decode(d, sys.client.space).Some? ==>
          var carried, queued := Carried(sys, after, IdentityOf(d)), QueueOf(sys.publisher, IdentityOf(d));
          && (Elapsed(env, clock, now) ==> carried != [] && carried[|carried| - 1] == Current(d, sys.client.space))
          && (!Elapsed(env, clock, now) ==> carried == queued)
          && (queued == [] ==> (Elapsed(env, clock, now) <==> carried != []))
  {
    hide Inv, Tells, Elapsed, Silent, Carried, Current, Decode, FlushNow, Sane, Active;
    AfterKeepsInv(env, steps);
    AfterTells(env, steps);
    var sys, clock := After(env, steps), ClockAfter(env, steps);
    InvIsWellFormed(env, sys);
    if sys.publisher.epoch.Some? && FlushNow(env, sys, now).publisher.initial == [] && clock.heard
        && !Silent(env, clock, now) {
      forall d | d in Active(env.registry, sys.client.aircraft)
        ensures
          var carried, queued := Carried(sys, FlushNow(env, sys, now), IdentityOf(d)),
              QueueOf(sys.publisher, IdentityOf(d));
          && Located(d)
          && if Elapsed(env, clock, now) && Decode(d, sys.client.space).Some? then
               carried != [] && carried[|carried| - 1] == Current(d, sys.client.space)
             else carried == queued
      {
        FlushCarries(env, sys, clock, now, d);
      }
    }
  }

  /** A timeout gives the simulator up exactly when no frame was completed for longer than the timeout. */
  lemma {:induction false} TimesOutExactly(env: Env, steps: seq<Step>, now: real)
    requires Usable(env)
    ensures
      var sys := After(env, steps);
      var after := Advance(env, sys, Timeout(now));
      if Silent(env, ClockAfter(env, steps), now) then
        && !after.client.connected && after.client.aircraft.None?
        && after.client.decoded == map[] && after.client.pending == {}
        && (forall a :: 0 <= a < ADDRESS_SPACE_SIZE ==> Visible(after.client.space, a).None?)
        && after.publisher.epoch.None? && PendingCount(after.publisher) == 0
      else after == sys
  {
    hide Sane, PipelineSafety.Run, Ticked;
    AfterTells(env, steps);
  }

  /**
    What an arriving batch says is stored as received on its arrival: in every run each control's entry is decided
    by the batch's newest value about it, and stays as it was if there is none.
   */
  lemma {:induction false} ArrivalsAreStamped(env: Env, steps: seq<Step>, now: real, k: Identity)
    requires SoundEnv(env)
    ensures
      var sys := After(env, steps);
      sys.wire != [] && Accept(sys.ingress, sys.wire[0]).1.Emitted?
      && !Accept(sys.ingress, sys.wire[0]).1.batch.ResetBatch? ==>
        var before, after := sys.raw.entries.at, BackendReceives(env, sys, now).raw.entries.at;
        match LastAbout(Accept(sys.ingress, sys.wire[0]).1.batch.values, k)
        case None => (k in after <==> k in before) && (k in before ==> after[k] == before[k])
        case Some(v) =>
          if v.available && v.value.Some? then k in after && after[k] == RawEntry(v.value.value, now) else k !in after
  {
    hide Inv, Accept, SoundEnv, RegisteredAll, LastAbout, RawStore.AppliedAll;
    AfterKeepsInv(env, steps);
    var sys := After(env, steps);
    if sys.wire != [] && Accept(sys.ingress, sys.wire[0]).1.Emitted?
        && !Accept(sys.ingress, sys.wire[0]).1.batch.ResetBatch? {
      BatchFits(env, sys, now);
      BatchEntries(sys.raw.entries, Accept(sys.ingress, sys.wire[0]).1.batch.values, now, env.capacity,
                   sys.ingress.catalog.at.Keys, k);
    }
  }

  /** Change detection misses nothing: when a frame completes, every cached decoded value is a fresh decode. */
  lemma {:induction false} CachedValuesAreFresh(env: Env, steps: seq<Step>, b: byte, now: real)
    requires SoundEnv(env) && CompletesNow(After(env, steps), b, now)
    ensures
      var client := ByteIn(env, After(env, steps), b, now).client;
      && client.pending == {}
      && forall d :: d in client.decoded ==> Located(d) && Decode(d, client.space) == Some(client.decoded[d])
  {
    hide Inv, Sane;
    AfterKeepsInv(env, steps);
    ByteInKeepsInv(env, After(env, steps), b, now);
  }

  /**
    No data from the previous aircraft: every control decodes as it would on a blank address space to
    which only the writes since the frame of the aircraft change were applied.
   */
  lemma {:induction false} NoEarlierData(env: Env, steps: seq<Step>, d: Definition)
    requires SoundEnv(env) && Located(d)
    ensures
      var sys := After(env, steps);
      && AllInBounds(sys.since)
      && Decode(d, sys.client.space) == Decode(d, BiosState.AppliedAll(Blank(), sys.since))
  {
    AfterKeepsInv(env, steps);
    var sys := After(env, steps);
    assert ClientSide(env, sys);
    DecodeDependsOnVisible(d, sys.client.space, BiosState.AppliedAll(Blank(), sys.since));
  }

  /**
    On an aircraft change, in any run, the buffer keeps its contents and exactly the bytes written in the
    frame just completed become visible.
   */
  lemma {:induction false} AircraftChangeShowsOnlyItsFrame(env: Env, steps: seq<Step>, b: byte, now: real)
    requires SoundEnv(env)
    ensures
      var before := After(env, steps);
      var after := ByteIn(env, before, b, now);
      after.client.aircraft != before.client.aircraft ==>
        && SameContents(after.client.space, before.client.space)
        && forall a :: 0 <= a < ADDRESS_SPACE_SIZE ==>
           Visible(after.client.space, a) == Last(before.parser.frameWrites, a)
  {
    StartInv(env);
    AfterKeepsInv(env, steps);
    var before := After(env, steps);
    RunReflects(env, Start(env), steps);
    InvIsWellFormed(env, before);
    hide Inv, WellFormed, ValidParser, ByteIn, UpdateAircraft, Reflects;
    if b == SYNC_BYTE {
      SyncByte(env, before, now);
      AircraftChangeKeepsContents(env.registry, before.client, before.parser.frameWrites);
    } else {
      ByteInReflects(env, before, b, now);
    }
  }

  /**
    Whenever a frame is completed, in any run, the client's aircraft is the one that the control naming it shows in
    the address space, and none if that shows nothing, an empty text or NONE.
   */
  lemma {:induction false} AircraftIsNamed(env: Env, steps: seq<Step>, b: byte, now: real, d: Definition, name: string)
    requires SoundEnv(env) && CompletesNow(After(env, steps), b, now)
             && AircraftName(env.registry.definitions) == Some(d)
    ensures
      var before := After(env, steps);
      ByteIn(env, before, b, now).client.aircraft == Some(name) <==>
      |name| > 0 && name != "NONE" && Decode(d, before.client.space) == Some(Text(name))
  {
    AfterKeepsInv(env, steps);
    var before := After(env, steps);
    InvIsWellFormed(env, before);
    OnlySyncCompletes(before, b, now);
    hide Inv, WellFormed, ValidParser, ByteIn, FeedByte, BiosState.AppliedAll, Decode;
    SyncByte(env, before, now);
  }

  /**
    What the backend is told is always what the controls' metadata allows, exactly when each maximum reaches its
    mask.
   */
  lemma {:induction false} MetadataConditionIsExact(d: Definition)
    requires Located(d)
    ensures DeclaresItsRange(d.kind) <==> forall s: Space :: Decode(d, s).Some? ==>
            Fits(ValueOf(Read(d, s).value), EntryOf(d))
  {
    if DeclaresItsRange(d.kind) {
      forall s: Space | Decode(d, s).Some? ensures Fits(ValueOf(Read(d, s).value), EntryOf(d)) {
        DecodedInRange(d.kind, BiosState.Contents(s, d.address, ByteLength(d)));
      }
    } else {
      var full: Space := seq(ADDRESS_SPACE_SIZE, _ => Cell(255, true, 0.0));
      var raw := BiosState.Contents(full, d.address, 2);
      assert raw[0] == 255 && raw[1] == 255;
      assert Decode(d, full) == Some(Number(Top(d.kind.mask, d.kind.shift)));
      assert Read(d, full).value.value == Number(Top(d.kind.mask, d.kind.shift));
      assert !Fits(ValueOf(Read(d, full).value), EntryOf(d));
    }
  }

  /**
    A declared range decides rejection: the publisher's messages are accepted in every run of every
    otherwise sound environment with controls of this kind if and only if the maximum covers the mask.
   */
  lemma {:induction false} RangesDecideRejection(kind: Kind)
    requires kind.IntegerKind? && kind.maxValue >= 0
    ensures
      DeclaresItsRange(kind) <==>
      forall env, steps :: SoundBut(env, kind) ==> AcceptsNext(env, steps)
  {
    hide AcceptsNext, DeclaresItsRange, SoundBut;
    if DeclaresItsRange(kind) {
      forall env, steps | SoundBut(env, kind) ensures AcceptsNext(env, steps) {
        SoundRunAccepts(env, kind, steps);
      }
    } else {
      var d := Definition("", "", 0, 0, kind);
      var steps := RejectionIsReachable(d);
      RejectedRun(TestEnv(d), steps);
    }
  }
}
