/**
  The DCS-BIOS client between parser and publisher (client/dcs_copilot/dcs/bios_client.py): it finds
  the controls a write may have changed, follows the active aircraft and keeps the last value it
  reported for each control. Sockets and the event loop are not part of this model; time is an input.
 */
module BiosClient {
  import opened Wrappers
  import opened InsertionDict
  import opened Wire
  import opened BiosState
  import opened BiosRegistry

  datatype Client = Client(
    space: Space,
    connected: bool,
    latestFrameAt: Option<real>,
    aircraft: Option<string>,
    pending: set<Definition>,
    decoded: map<Definition, Reading>)

  datatype Change = Change(definition: Definition, value: Reading, observedAt: real)

  function Fresh(): Client {
    Client(Blank(), false, None, None, {}, map[])
  }

  // ----- the callbacks and queries as functions

  function OnWrite(r: Registry, c: Client, w: Stamped): Client
    requires InBounds(w.write)
  {
    var touched := if Changes(c.space, w.write) then InRange(r, w.write.address, |w.write.data|) else {};
    c.(space := BiosState.Applied(c.space, w), pending := c.pending + touched)
  }

  /** The aircraft the address space names, if any. */
  function NamedAircraft(d: Definition, s: Space): Option<string>
    requires Located(d)
  {
    match Decode(d, s)
    case Some(Text(name)) => if name == "" || name == "NONE" then None else Some(name)
    case _ => None
  }

  /** On an aircraft change: hide everything, show the frame's writes again, forget what was reported. */
  function UpdateAircraft(r: Registry, c: Client, frame: seq<Stamped>): Client
    requires WellFormed(r) && AllInBounds(frame)
  {
    var name := AircraftName(r.definitions);
    if name.None? then c
    else
      var aircraft := NamedAircraft(name.value, c.space);
      if aircraft == c.aircraft then c
      else c.(space := AppliedAll(Unavailable(c.space), frame), decoded := map[], aircraft := aircraft)
  }

  function Read(d: Definition, s: Space): Option<Change>
    requires Located(d)
  {
    match Decode(d, s)
    case None => None
    case Some(value) => Some(Change(d, value, Oldest(s, d.address, ByteLength(d))))
  }

  /** Reports every decodable control of `definitions`, remembering the values. */
  function ReadAll(s: Space, decoded: map<Definition, Reading>, definitions: seq<Definition>)
    : (r: (map<Definition, Reading>, seq<Change>))
    requires forall d :: d in definitions ==> Located(d)
    decreases |definitions|
  {
    if definitions == [] then (decoded, [])
    else
      match Read(definitions[0], s)
      case None => ReadAll(s, decoded, definitions[1..])
      case Some(change) =>
        var (after, changes) := ReadAll(s, decoded[definitions[0] := change.value], definitions[1..]);
        (after, [change] + changes)
  }

  function DecodedSnapshot(r: Registry, c: Client): (Client, seq<Change>)
    requires WellFormed(r)
  {
    var (decoded, changes) := ReadAll(c.space, c.decoded, Active(r, c.aircraft));
    (c.(decoded := decoded), changes)
  }

  function Watched(r: Registry, aircraft: Option<string>): set<string> {
    {"MetadataStart", "MetadataEnd"} + if aircraft.None? then {} else ModulesFor(r, aircraft.value)
  }

  /** Reports the definitions whose decoded value differs from the one last reported. */
  function Report(s: Space, decoded: map<Definition, Reading>, definitions: seq<Definition>)
    : (r: (map<Definition, Reading>, seq<Change>))
    requires forall d :: d in definitions ==> Located(d)
    decreases |definitions|
  {
    if definitions == [] then (decoded, [])
    else
      var d, rest := definitions[0], definitions[1..];
      match Read(d, s)
      case None => Report(s, decoded, rest)
      case Some(change) =>
        if d in decoded && decoded[d] == change.value then Report(s, decoded, rest)
        else
          var (after, changes) := Report(s, decoded[d := change.value], rest);
          (after, [change] + changes)
  }

  function Pick(definitions: seq<Definition>, chosen: set<Definition>): (r: seq<Definition>)
    ensures forall d :: d in r <==> d in definitions && d in chosen
    decreases |definitions|
  {
    if definitions == [] then []
    else
      var rest := Pick(definitions[1..], chosen);
      if definitions[0] in chosen then [definitions[0]] + rest else rest
  }

  /** The pending definitions in sorted order, without those of modules that are not watched. */
  function Due(r: Registry, c: Client): seq<Definition> {
    Select(Pick(r.definitions, c.pending), Watched(r, c.aircraft))
  }

  function EmitControlChanges(r: Registry, c: Client): (Client, seq<Change>)
    requires WellFormed(r)
  {
    var (decoded, changes) := Report(c.space, c.decoded, Due(r, c));
    (c.(decoded := decoded, pending := {}), changes)
  }

  predicate Stale(c: Client, now: real, timeout: real) {
    c.connected && c.latestFrameAt.Some? && now - c.latestFrameAt.value > timeout
  }

  /** What a timeout and `close` leave: nothing visible, no aircraft, nothing reported. */
  function Lost(c: Client): Client {
    c.(space := Unavailable(c.space), connected := false, aircraft := None, pending := {}, decoded := map[])
  }

  // ----- change detection misses nothing

  function Lookup(decoded: map<Definition, Reading>, d: Definition): Option<Reading> {
    if d in decoded then Some(decoded[d]) else None
  }

  /**
    A reported value is current unless its definition is pending; an active decodable control is reported or
    pending.
   */
  ghost predicate Tracks(r: Registry, c: Client) {
    && WellFormed(r)
    && (forall d :: d in c.decoded ==>
          && d in r.definitions && d.moduleName in Watched(r, c.aircraft)
          && Decode(d, c.space).Some?
          && (d in c.pending || Decode(d, c.space) == Some(c.decoded[d])))
  }

  ghost predicate Complete(r: Registry, c: Client) {
    && WellFormed(r)
    && forall d :: d in Active(r, c.aircraft) && Decode(d, c.space).Some? ==> d in c.decoded || d in c.pending
  }

  /** Every active control's reported value is a fresh decode of the address space. */
  ghost predicate UpToDate(r: Registry, c: Client) {
    && WellFormed(r)
    && forall d :: d in Active(r, c.aircraft) ==> Lookup(c.decoded, d) == Decode(d, c.space)
  }

  lemma WriteElsewhereKeepsDecode(r: Registry, c: Client, w: Stamped, d: Definition)
    requires WellFormed(r) && InBounds(w.write) && d in r.definitions
    ensures d in OnWrite(r, c, w).pending || Decode(d, OnWrite(r, c, w).space) == Decode(d, c.space)
    ensures Decode(d, c.space).Some? ==> Decode(d, OnWrite(r, c, w).space).Some?
  {
    var after := BiosState.Applied(c.space, w);
    if !Changes(c.space, w.write) {
      UnchangingWriteIsInvisible(c.space, w);
      DecodeDependsOnVisible(d, after, c.space);
    } else if !Overlaps(d, w.write.address, |w.write.data|) {
      DecodeDependsOnVisible(d, after, c.space);
    }
  }

  lemma OnWriteKeepsTracks(r: Registry, c: Client, w: Stamped)
    requires Tracks(r, c) && InBounds(w.write)
    ensures Tracks(r, OnWrite(r, c, w))
    ensures Complete(r, c) ==> Complete(r, OnWrite(r, c, w))
  {
    var c' := OnWrite(r, c, w);
    forall d | d in r.definitions
      ensures d in c'.pending || Decode(d, c'.space) == Decode(d, c.space)
      ensures Decode(d, c.space).Some? ==> Decode(d, c'.space).Some?
    {
      WriteElsewhereKeepsDecode(r, c, w, d);
    }
  }

  /** A snapshot reports exactly the decodable definitions, with fresh values, and nothing else changes. */
  lemma {:induction false} ReadAllIsFresh(s: Space, decoded: map<Definition, Reading>, definitions: seq<Definition>)
    requires forall d :: d in definitions ==> Located(d)
    ensures
      var (after, changes) := ReadAll(s, decoded, definitions);
      && (forall d :: d in definitions && Decode(d, s).Some? ==> Lookup(after, d) == Decode(d, s))
      && (forall d :: !(d in definitions && Decode(d, s).Some?) ==> Lookup(after, d) == Lookup(decoded, d))
    decreases |definitions|
  {
    if definitions != [] {
      var d, rest := definitions[0], definitions[1..];
      assert forall e :: e in definitions <==> e == d || e in rest;
      match Read(d, s)
      case None => ReadAllIsFresh(s, decoded, rest);
      case Some(change) => ReadAllIsFresh(s, decoded[d := change.value], rest);
    }
  }

  /** A report settles every definition it visits. */
  lemma {:induction false} ReportIsFresh(s: Space, decoded: map<Definition, Reading>, definitions: seq<Definition>)
    requires forall d :: d in definitions ==> Located(d)
    ensures
      var after := Report(s, decoded, definitions).0;
      && (forall d :: d in definitions && Decode(d, s).Some? ==> Lookup(after, d) == Decode(d, s))
      && (forall d :: !(d in definitions && Decode(d, s).Some?) ==> Lookup(after, d) == Lookup(decoded, d))
    decreases |definitions|
  {
    if definitions != [] {
      var d, rest := definitions[0], definitions[1..];
      assert forall e :: e in definitions <==> e == d || e in rest;
      match Read(d, s)
      case None => ReportIsFresh(s, decoded, rest);
      case Some(change) =>
        if d in decoded && decoded[d] == change.value {
          ReportIsFresh(s, decoded, rest);
        } else {
          ReportIsFresh(s, decoded[d := change.value], rest);
        }
    }
  }

  lemma DecodedSnapshotTracks(r: Registry, c: Client)
    requires Tracks(r, c)
    ensures
      var c' := DecodedSnapshot(r, c).0;
      && Tracks(r, c') && Complete(r, c') && UpToDateAfterSnapshot(r, c, c')
  {
    ReadAllIsFresh(c.space, c.decoded, Active(r, c.aircraft));
    var c' := DecodedSnapshot(r, c).0;
    forall d | d in c'.decoded
      ensures d in r.definitions && d.moduleName in Watched(r, c.aircraft)
      ensures Decode(d, c.space).Some? && (d in c'.pending || Decode(d, c.space) == Some(c'.decoded[d]))
    {
      if !(d in Active(r, c.aircraft) && Decode(d, c.space).Some?) {
        assert Lookup(c'.decoded, d) == Lookup(c.decoded, d);
      } else {
        assert Lookup(c'.decoded, d) == Decode(d, c.space);
      }
    }
    forall d | d in Active(r, c.aircraft) && Decode(d, c.space).Some? ensures d in c'.decoded {
      assert Lookup(c'.decoded, d) == Decode(d, c.space);
    }
  }

  ghost predicate UpToDateAfterSnapshot(r: Registry, c: Client, c': Client) {
    && c' == c.(decoded := c'.decoded)
    && UpToDate(r, c')
  }

  /** Nothing is pending and every cached decoded value is a fresh decode of the address space. */
  ghost predicate Tidy(c: Client) {
    && c.pending == {}
    && forall d :: d in c.decoded ==> Located(d) && Decode(d, c.space) == Some(c.decoded[d])
  }

  /** After a frame's changes are reported nothing is pending and every reported value is a fresh decode. */
  lemma EmitSettles(r: Registry, c: Client)
    requires Tracks(r, c)
    ensures
      var c' := EmitControlChanges(r, c).0;
      && Tracks(r, c') && Tidy(c')
      && (Complete(r, c) ==> Complete(r, c') && UpToDate(r, c'))
  {
    var due := Due(r, c);
    ReportIsFresh(c.space, c.decoded, due);
    var c' := EmitControlChanges(r, c).0;
    forall d | d in c'.decoded
      ensures d in r.definitions && d.moduleName in Watched(r, c.aircraft)
      ensures Decode(d, c.space) == Some(c'.decoded[d])
    {
      if d in due && Decode(d, c.space).Some? {
        assert Lookup(c'.decoded, d) == Decode(d, c.space);
      } else {
        assert Lookup(c'.decoded, d) == Lookup(c.decoded, d);
      }
    }
    if Complete(r, c) {
      forall d | d in Active(r, c.aircraft) ensures Lookup(c'.decoded, d) == Decode(d, c.space) {
        if d in due && Decode(d, c.space).Some? {
        } else {
          assert Lookup(c'.decoded, d) == Lookup(c.decoded, d);
        }
      }
    }
  }

  lemma UpdateAircraftTracks(r: Registry, c: Client, frame: seq<Stamped>)
    requires Tracks(r, c) && AllInBounds(frame)
    ensures Tracks(r, UpdateAircraft(r, c, frame))
    ensures UpdateAircraft(r, c, frame).aircraft == c.aircraft ==> UpdateAircraft(r, c, frame) == c
  {
  }

  // ----- exactly what is marked

  /** A write that shows a reader something new marks exactly the controls that read a byte of it. */
  lemma {:induction false} MarkedExactly(r: Registry, c: Client, w: Stamped)
    requires WellFormed(r) && InBounds(w.write)
    ensures
      var news := exists a :: 0 <= a < ADDRESS_SPACE_SIZE && Covers(w.write, a)
                              && Visible(c.space, a) != Some(w.write.data[a - w.write.address]);
      forall d :: d in OnWrite(r, c, w).pending <==>
        || d in c.pending
        || (news && d in r.definitions && exists a :: Covers(w.write, a) && d.address <= a < d.address + ByteLength(d))
  {
    forall d | d in r.definitions
      ensures Overlaps(d, w.write.address, |w.write.data|) <==>
              exists a :: Covers(w.write, a) && d.address <= a < d.address + ByteLength(d)
    {
      if Overlaps(d, w.write.address, |w.write.data|) {
        var a := if d.address >= w.write.address then d.address else w.write.address;
        assert Covers(w.write, a) && d.address <= a < d.address + ByteLength(d);
      }
    }
    if Changes(c.space, w.write) {
      var a :| w.write.address <= a < w.write.address + |w.write.data|
               && (c.space[a].content != w.write.data[a - w.write.address] || !c.space[a].available);
      assert Covers(w.write, a) && Visible(c.space, a) != Some(w.write.data[a - w.write.address]);
    }
  }

  // ----- exactly what is reported

  function DefinitionsOf(changes: seq<Change>): seq<Definition> {
    seq(|changes|, i requires 0 <= i < |changes| => changes[i].definition)
  }

  ghost predicate NoneTwice(definitions: seq<Definition>) {
    forall i, j :: 0 <= i < j < |definitions| ==> definitions[i] != definitions[j]
  }

  /** The change says what the control decodes to, which is not what was reported before, and how old that is. */
  ghost predicate IsNews(c: Change, s: Space, decoded: map<Definition, Reading>) {
    && Located(c.definition) && Decode(c.definition, s) == Some(c.value)
    && Lookup(decoded, c.definition) != Some(c.value)
    && c.observedAt == Oldest(s, c.definition.address, ByteLength(c.definition))
  }

  ghost predicate Differs(d: Definition, s: Space, decoded: map<Definition, Reading>) {
    Located(d) && Decode(d, s).Some? && Lookup(decoded, d) != Decode(d, s)
  }

  lemma {:induction false} ReportExactly(s: Space, decoded: map<Definition, Reading>, definitions: seq<Definition>)
    requires NoneTwice(definitions) && forall d :: d in definitions ==> Located(d)
    ensures
      var changes := Report(s, decoded, definitions).1;
      && Subsequence(DefinitionsOf(changes), definitions)
      && (forall c :: c in changes ==> c.definition in definitions && IsNews(c, s, decoded))
      && (forall d :: d in definitions && Differs(d, s, decoded) ==> exists c :: c in changes && c.definition == d)
    decreases |definitions|
  {
    hide Decode, Oldest;
    if definitions != [] {
      var d, rest := definitions[0], definitions[1..];
      assert NoneTwice(rest) && d !in rest && forall e :: e in definitions <==> e == d || e in rest;
      if !Differs(d, s, decoded) {
        ReportExactly(s, decoded, rest);
        assert Report(s, decoded, definitions) == Report(s, decoded, rest);
      } else {
        var change := Read(d, s).value;
        ReportExactly(s, decoded[d := change.value], rest);
        var more := Report(s, decoded[d := change.value], rest).1;
        assert Report(s, decoded, definitions).1 == [change] + more;
        NewsAfter(change, more, s, decoded);
        assert DefinitionsOf([change] + more) == [d] + DefinitionsOf(more);
        assert ([d] + DefinitionsOf(more))[1..] == DefinitionsOf(more);
      }
    }
  }

  /** Noting one value makes no other control's value older or newer. */
  lemma NewsAfter(change: Change, more: seq<Change>, s: Space, decoded: map<Definition, Reading>)
    requires forall c :: c in more ==> c.definition != change.definition
                                       && IsNews(c, s, decoded[change.definition := change.value])
    requires IsNews(change, s, decoded)
    ensures forall c :: c in [change] + more ==> IsNews(c, s, decoded)
  {
  }

  lemma {:induction false} PickKeepsOrder(definitions: seq<Definition>, chosen: set<Definition>)
    ensures Subsequence(Pick(definitions, chosen), definitions)
    decreases |definitions|
  {
    if definitions != [] {
      PickKeepsOrder(definitions[1..], chosen);
      var rest := Pick(definitions[1..], chosen);
      if definitions[0] in chosen {
        assert ([definitions[0]] + rest)[1..] == rest;
      }
    }
  }

  lemma {:induction false} SubsequenceNoneTwice(some: seq<Definition>, all: seq<Definition>)
    requires Subsequence(some, all) && NoneTwice(all)
    ensures NoneTwice(some) && forall d :: d in some ==> d in all
    decreases |all|
  {
    if some != [] {
      assert NoneTwice(all[1..]) && all[0] !in all[1..];
      if some[0] == all[0] && Subsequence(some[1..], all[1..]) {
        SubsequenceNoneTwice(some[1..], all[1..]);
        assert some == [some[0]] + some[1..];
      } else {
        SubsequenceNoneTwice(some, all[1..]);
      }
    }
  }

  /**
    A completed frame reports, in the order of the listing, exactly the controls that a write may have changed, of
    the modules watched, that decode to something else than was last reported; each as it decodes now.
   */
  lemma {:induction false} ChangesAreReported(r: Registry, c: Client)
    requires Tracks(r, c)
    ensures
      var changes := EmitControlChanges(r, c).1;
      && Subsequence(DefinitionsOf(changes), r.definitions)
      && (forall x :: x in changes ==> IsNews(x, c.space, c.decoded))
      && (forall d :: (exists x :: x in changes && x.definition == d) <==>
           && d in r.definitions && d in c.pending && Differs(d, c.space, c.decoded)
           && (|| d.moduleName in {"MetadataStart", "MetadataEnd"}
               || (c.aircraft.Some? && d.moduleName in ModulesFor(r, c.aircraft.value))))
  {
    hide Decode, Oldest, ModulesFor, IsNews;
    var due := Due(r, c);
    PickKeepsOrder(r.definitions, c.pending);
    SelectKeepsOrder(Pick(r.definitions, c.pending), Watched(r, c.aircraft));
    SubsequenceOf(due, Pick(r.definitions, c.pending), r.definitions);
    DistinctListing(r);
    SubsequenceNoneTwice(due, r.definitions);
    ReportExactly(c.space, c.decoded, due);
    SubsequenceOf(DefinitionsOf(EmitControlChanges(r, c).1), due, r.definitions);
    NewsDiffers(c.space, c.decoded);
  }

  lemma DistinctListing(r: Registry)
    requires WellFormed(r)
    ensures NoneTwice(r.definitions)
  {
  }

  lemma NewsDiffers(s: Space, decoded: map<Definition, Reading>)
    ensures forall c :: IsNews(c, s, decoded) ==> Differs(c.definition, s, decoded)
  {
  }

  // ----- the mutable object

  /** What a snapshot will have produced once the remaining definitions are read, too. */
  ghost function AllRead(s: Space, decoded: map<Definition, Reading>, definitions: seq<Definition>, found: seq<Change>)
    : (map<Definition, Reading>, seq<Change>)
    requires forall d :: d in definitions ==> Located(d)
  {
    var (after, changes) := ReadAll(s, decoded, definitions);
    (after, found + changes)
  }

  ghost function AllReported(s: Space, decoded: map<Definition, Reading>, definitions: seq<Definition>,
                             found: seq<Change>)
    : (map<Definition, Reading>, seq<Change>)
    requires forall d :: d in definitions ==> Located(d)
  {
    var (after, changes) := Report(s, decoded, definitions);
    (after, found + changes)
  }

  lemma ReadAllStep(s: Space, decoded: map<Definition, Reading>, definitions: seq<Definition>, found: seq<Change>)
    requires forall d :: d in definitions ==> Located(d)
    ensures AllRead(s, decoded, definitions, []) == ReadAll(s, decoded, definitions)
    ensures
      AllRead(s, decoded, definitions, found) ==
      if definitions == [] then (decoded, found)
      else
        match Read(definitions[0], s)
        case None => AllRead(s, decoded, definitions[1..], found)
        case Some(change) => AllRead(s, decoded[definitions[0] := change.value], definitions[1..], found + [change])
  {
    var changes := ReadAll(s, decoded, definitions).1;
    assert [] + changes == changes;
    if definitions == [] {
      assert found + [] == found;
    } else if Read(definitions[0], s).Some? {
      var change := Read(definitions[0], s).value;
      var rest := ReadAll(s, decoded[definitions[0] := change.value], definitions[1..]).1;
      assert found + ([change] + rest) == (found + [change]) + rest;
    }
  }

  lemma ReportStep(s: Space, decoded: map<Definition, Reading>, definitions: seq<Definition>, found: seq<Change>)
    requires forall d :: d in definitions ==> Located(d)
    ensures AllReported(s, decoded, definitions, []) == Report(s, decoded, definitions)
    ensures
      AllReported(s, decoded, definitions, found) ==
      if definitions == [] then (decoded, found)
      else
        match Read(definitions[0], s)
        case None => AllReported(s, decoded, definitions[1..], found)
        case Some(change) =>
          if definitions[0] in decoded && decoded[definitions[0]] == change.value then
            AllReported(s, decoded, definitions[1..], found)
          else AllReported(s, decoded[definitions[0] := change.value], definitions[1..], found + [change])
  {
    var changes := Report(s, decoded, definitions).1;
    assert [] + changes == changes;
    if definitions == [] {
      assert found + [] == found;
    } else if Read(definitions[0], s).Some? {
      var change := Read(definitions[0], s).value;
      var rest := Report(s, decoded[definitions[0] := change.value], definitions[1..]).1;
      assert found + ([change] + rest) == (found + [change]) + rest;
    }
  }

  lemma PickLocated(r: Registry, chosen: set<Definition>)
    requires WellFormed(r)
    ensures forall d :: d in Pick(r.definitions, chosen) ==> Located(d)
  {
  }

  /** What a report will have produced once the candidates from `i` on are visited, too. */
  ghost function AllDue(s: Space, decoded: map<Definition, Reading>, candidates: seq<Definition>, i: nat,
                        watched: set<string>,
                        found: seq<Change>)
    : (map<Definition, Reading>, seq<Change>)
    requires i <= |candidates| && forall d :: d in candidates ==> Located(d)
  {
    AllReported(s, decoded, Select(candidates[i..], watched), found)
  }

  lemma {:induction false} DueStep(s: Space, decoded: map<Definition, Reading>, candidates: seq<Definition>, i: nat,
                                   watched: set<string>,
                found: seq<Change>)
    requires i <= |candidates| && forall d :: d in candidates ==> Located(d)
    ensures i == 0 ==> AllDue(s, decoded, candidates, i, watched, []) == Report(s, decoded, Select(candidates, watched))
    ensures
      AllDue(s, decoded, candidates, i, watched, found) ==
      if i == |candidates| then (decoded, found)
      else
        var d := candidates[i];
        var change := Read(d, s);
        if d.moduleName !in watched || change.None? || (d in decoded && decoded[d] == change.value.value) then
          AllDue(s, decoded, candidates, i + 1, watched, found)
        else AllDue(s, decoded[d := change.value.value], candidates, i + 1, watched, found + [change.value])
  {
    assert candidates[0..] == candidates;
    ReportStep(s, decoded, Select(candidates[i..], watched), found);
    if i < |candidates| {
      assert candidates[i..][0] == candidates[i] && candidates[i..][1..] == candidates[i + 1..];
      if candidates[i].moduleName in watched {
        assert Select(candidates[i..], watched)[1..] == Select(candidates[i + 1..], watched);
      }
    }
  }

  class DcsBiosClient {
    const staleTimeout: real
    const registry: DcsBiosControlRegistry
    const state: DcsBiosState
    var latestFrameAt: Option<real>
    var currentAircraft: Option<string>
    var connected: bool
    var pendingDefinitions: set<Definition>
    var decodedValues: map<Definition, Reading>

    ghost function View(): Client
      requires state.Valid()
      reads this, state.buffer, state.available, state.updatedAt
    {
      Client(state.View(), connected, latestFrameAt, currentAircraft, pendingDefinitions, decodedValues)
    }

    ghost predicate Valid()
      reads registry
    {
      state.Valid() && registry.Valid() && WellFormed(registry.View())
    }

    constructor (staleTimeout: real, registry: DcsBiosControlRegistry, state: DcsBiosState)
      requires state.Valid() && registry.Valid() && WellFormed(registry.View()) && state.View() == Blank()
      ensures Valid() && View() == Fresh()
      ensures this.staleTimeout == staleTimeout && this.registry == registry && this.state == state
    {
      this.staleTimeout, this.registry, this.state := staleTimeout, registry, state;
      latestFrameAt, currentAircraft, connected, pendingDefinitions, decodedValues := None, None, false, {}, map[];
    }

    /** A write reaches the address space, and its controls are remembered if it changed anything. */
    method TakeWrite(w: Stamped)
      requires Valid() && InBounds(w.write)
      modifies this, state, state.buffer, state.available, state.updatedAt
      ensures Valid() && View() == OnWrite(registry.View(), old(View()), w)
    {
      var written := state.ApplyWrite(w.write.address, w.write.data, w.receivedAt);
      if written.value.changed {
        var touched := registry.DefinitionsForRange(w.write.address, |w.write.data|);
        pendingDefinitions := pendingDefinitions + touched;
      }
    }

    /** Whether the stream had just gone quiet for too long; if so everything is hidden and forgotten. */
    method ExpireIfStale(now: real) returns (lost: bool)
      requires Valid()
      modifies this, state.available
      ensures Valid() && lost == Stale(old(View()), now, staleTimeout)
      ensures View() == if lost then Lost(old(View())) else old(View())
    {
      lost := connected && latestFrameAt.Some? && now - latestFrameAt.value > staleTimeout;
      if lost {
        connected := false;
        state.ClearAvailability();
        currentAircraft, pendingDefinitions, decodedValues := None, {}, map[];
      }
    }

    /** Replays a frame's writes. */
    method Replay(frame: seq<Stamped>)
      requires Valid() && AllInBounds(frame)
      modifies state, state.buffer, state.available, state.updatedAt
      ensures Valid() && state.View() == BiosState.AppliedAll(old(state.View()), frame)
    {
      var i := 0;
      while i < |frame|
        invariant 0 <= i <= |frame| && Valid()
        invariant BiosState.AppliedAll(state.View(), frame[i..]) == BiosState.AppliedAll(old(state.View()), frame)
      {
        assert frame[i..][1..] == frame[i + 1..];
        var w := frame[i];
        var _ := state.ApplyWrite(w.write.address, w.write.data, w.receivedAt);
        i := i + 1;
      }
    }

    /** Returns whether the aircraft changed. */
    method FollowAircraft(frame: seq<Stamped>) returns (changed: bool)
      requires Valid() && AllInBounds(frame)
      modifies this, state, state.buffer, state.available, state.updatedAt
      ensures Valid() && View() == UpdateAircraft(registry.View(), old(View()), frame)
      ensures changed <==> currentAircraft != old(currentAircraft)
    {
      var name := AircraftName(registry.definitions);
      if name.None? {
        return false;
      }
      var decoded := DecodeFrom(name.value, state);
      var aircraft :=
        if decoded.Some? && decoded.value.Text? && decoded.value.s != "" && decoded.value.s != "NONE" then
          Some(decoded.value.s) else None;
      if aircraft == currentAircraft {
        return false;
      }
      state.ClearAvailability();
      Replay(frame);
      decodedValues := map[];
      currentAircraft := aircraft;
      return true;
    }

    method ReadControl(d: Definition) returns (r: Option<Change>)
      requires Valid() && Located(d)
      ensures r == Read(d, state.View())
    {
      var value := DecodeFrom(d, state);
      var observedAt := state.UpdatedAtRange(d.address, ByteLength(d));
      if value.None? || observedAt.value.None? {
        return None;
      }
      return Some(Change(d, value.value, observedAt.value.value));
    }

    method TakeSnapshot() returns (snapshot: seq<Change>)
      requires Valid()
      modifies this`decodedValues
      ensures Valid() && (View(), snapshot) == DecodedSnapshot(registry.View(), old(View()))
    {
      hide Read, ReadAll, AllRead, Active, WellFormed, Located, DcsBiosState.View, DcsBiosControlRegistry.Valid;
      ActiveIsLocated(registry.View(), currentAircraft);
      snapshot := [];
      var controls := Active(registry.View(), currentAircraft);
      ghost var space := state.View();
      ghost var all := ReadAll(space, decodedValues, controls);
      ReadAllStep(space, decodedValues, controls, []);
      assert controls[0..] == controls;
      var i := 0;
      while i < |controls|
        invariant 0 <= i <= |controls| && state.View() == space
        invariant AllRead(space, decodedValues, controls[i..], snapshot) == all
      {
        assert controls[i..][0] == controls[i] && controls[i..][1..] == controls[i + 1..];
        ReadAllStep(space, decodedValues, controls[i..], snapshot);
        var change := ReadControl(controls[i]);
        if change.Some? {
          decodedValues := decodedValues[controls[i] := change.value.value];
          snapshot := snapshot + [change.value];
        }
        i := i + 1;
      }
      ReadAllStep(space, decodedValues, controls[i..], snapshot);
    }

    /** Reports, in sorted order, the pending controls whose decoded value is not the one last reported. */
    method EmitChanges() returns (reported: seq<Change>)
      requires Valid()
      modifies this`decodedValues, this`pendingDefinitions
      ensures Valid() && (View(), reported) == EmitControlChanges(registry.View(), old(View()))
    {
      hide Read, Report, AllDue, Pick, Watched, WellFormed, DcsBiosState.View, DcsBiosControlRegistry.Valid, Located,
        Select;
      var candidates := Pick(registry.definitions, pendingDefinitions);
      PickLocated(registry.View(), pendingDefinitions);
      reported := [];
      var watched := Watched(registry.View(), currentAircraft);
      ghost var space := state.View();
      ghost var all := Report(space, decodedValues, Select(candidates, watched));
      DueStep(space, decodedValues, candidates, 0, watched, []);
      var i := 0;
      while i < |candidates|
        invariant 0 <= i <= |candidates| && state.View() == space
        invariant AllDue(space, decodedValues, candidates, i, watched, reported) == all
      {
        var d := candidates[i];
        DueStep(space, decodedValues, candidates, i, watched, reported);
        if d.moduleName in watched {
          var change := ReadControl(d);
          if change.Some? && !(d in decodedValues && decodedValues[d] == change.value.value) {
            decodedValues := decodedValues[d := change.value.value];
            reported := reported + [change.value];
          }
        }
        i := i + 1;
      }
      DueStep(space, decodedValues, candidates, i, watched, reported);
      pendingDefinitions := {};
    }
  }
}
