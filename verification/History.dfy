/**
  The bounded history of meaningful state transitions (cloud/dcs_copilot_cloud/state/history.py). A state is
  the list of its fields with their usable values; absent stands for Python's None.
 */
module History {
  import opened Wrappers
  import opened InsertionDict

  /** Enumeration members and strings are words; Python compares flags and numbers by value. */
  datatype Value = Number(n: real) | Flag(b: bool) | Word(s: string)

  datatype Transition = Transition(field: string, old_: Option<Value>, new_: Option<Value>, timestamp: real)

  datatype Settings = Settings(retention: real, thresholds: map<string, real>)

  datatype State = State(transitions: seq<Transition>, last: map<string, Option<Value>>)

  datatype Field = Field(name: string, value: Option<Value>)

  function Cleared(): State {
    State([], map[])
  }

  // ----- comparing values

  predicate IsNumeric(v: Value) {
    v.Number? || v.Flag?
  }

  function AsReal(v: Value): real
    requires IsNumeric(v)
  {
    match v
    case Number(n) => n
    case Flag(b) => if b then 1.0 else 0.0
  }

  predicate SameValue(a: Value, b: Value) {
    if IsNumeric(a) && IsNumeric(b) then AsReal(a) == AsReal(b) else a == b
  }

  function Distance(a: Value, b: Value): real
    requires IsNumeric(a) && IsNumeric(b)
  {
    if AsReal(a) < AsReal(b) then AsReal(b) - AsReal(a) else AsReal(a) - AsReal(b)
  }

  predicate MeaningfullyChanged(cfg: Settings, field: string, before: Option<Value>, after: Option<Value>) {
    if before.None? || after.None? then before.Some? || after.Some?
    else if field in cfg.thresholds && IsNumeric(before.value) && IsNumeric(after.value) then
      Distance(before.value, after.value) >= cfg.thresholds[field]
    else !SameValue(before.value, after.value)
  }

  // ----- recording

  /** One field: its first sighting is kept aside in `firsts`, a meaningful change is appended at once. */
  function NoteField(cfg: Settings, h: State, firsts: seq<Transition>, f: Field, at: real): (State, seq<Transition>) {
    if f.name !in h.last then
      (h.(last := h.last[f.name := f.value]),
       if f.value.Some? then firsts + [Transition(f.name, None, f.value, at)] else firsts)
    else if !MeaningfullyChanged(cfg, f.name, h.last[f.name], f.value) then (h, firsts)
    else
      (State(h.transitions + [Transition(f.name, h.last[f.name], f.value, at)], h.last[f.name := f.value]), firsts)
  }

  function NoteFields(cfg: Settings, h: State, firsts: seq<Transition>, fields: seq<Field>, at: real)
      : (State, seq<Transition>)
    decreases |fields|
  {
    if fields == [] then (h, firsts)
    else
      var (h', firsts') := NoteFields(cfg, h, firsts, fields[..|fields| - 1], at);
      NoteField(cfg, h', firsts', fields[|fields| - 1], at)
  }

  /** Appends the transitions that are not there yet. */
  function Appended(ts: seq<Transition>, more: seq<Transition>): seq<Transition>
    decreases |more|
  {
    if more == [] then ts
    else
      var all, last := Appended(ts, more[..|more| - 1]), more[|more| - 1];
      if last in all then all else all + [last]
  }

  function Pruned(ts: seq<Transition>, cutoff: real): seq<Transition>
    decreases |ts|
  {
    if ts != [] && ts[0].timestamp < cutoff then Pruned(ts[1..], cutoff) else ts
  }

  function Recorded(cfg: Settings, h: State, fields: seq<Field>, at: real): State {
    var (noted, firsts) := NoteFields(cfg, h, [], fields, at);
    noted.(transitions := Pruned(Appended(noted.transitions, firsts), at - cfg.retention))
  }

  /** What one field adds: its first usable value or a meaningful change. */
  function ReportsFor(cfg: Settings, h: State, f: Field, at: real): seq<Transition> {
    if f.name !in h.last then if f.value.Some? then [Transition(f.name, None, f.value, at)] else []
    else if MeaningfullyChanged(cfg, f.name, h.last[f.name], f.value) then
      [Transition(f.name, h.last[f.name], f.value, at)]
    else []
  }

  /** What a record reports: first sightings and changes in the order of the fields. */
  function Reports(cfg: Settings, h: State, fields: seq<Field>, at: real): seq<Transition>
    decreases |fields|
  {
    if fields == [] then []
    else
      var front := fields[..|fields| - 1];
      Reports(cfg, h, front, at) + ReportsFor(cfg, NoteFields(cfg, h, [], front, at).0, fields[|fields| - 1], at)
  }

  /** Everything reported is kept, as a change or set aside as a first sighting, and nothing else is. */
  lemma {:induction false} ReportsAreNoted(cfg: Settings, h: State, fields: seq<Field>, at: real)
    ensures
      var (noted, firsts) := NoteFields(cfg, h, [], fields, at);
      multiset(noted.transitions) + multiset(firsts) == multiset(h.transitions) + multiset(Reports(cfg, h, fields, at))
    decreases |fields|
  {
    hide NoteField, ReportsFor;
    if fields != [] {
      var front := fields[..|fields| - 1];
      ReportsAreNoted(cfg, h, front, at);
      var (h', firsts) := NoteFields(cfg, h, [], front, at);
      ReportIsNoted(cfg, h', firsts, fields[|fields| - 1], at);
    }
  }

  lemma ReportIsNoted(cfg: Settings, h: State, firsts: seq<Transition>, f: Field, at: real)
    ensures
      var (noted, firsts') := NoteField(cfg, h, firsts, f, at);
      multiset(noted.transitions) + multiset(firsts') == multiset(h.transitions) + multiset(firsts)
          + multiset(ReportsFor(cfg, h, f, at))
  {
    hide MeaningfullyChanged;
  }

  // ----- chains

  /** The newest transition of a field. */
  function LastOf(ts: seq<Transition>, field: string): Option<Transition>
    decreases |ts|
  {
    if ts == [] then None
    else if ts[|ts| - 1].field == field then Some(ts[|ts| - 1])
    else LastOf(ts[..|ts| - 1], field)
  }

  /** Each transition starts from the value the previous one of its field ended in. */
  ghost predicate Chained(ts: seq<Transition>)
    decreases |ts|
  {
    ts == [] ||
    (var front, last := ts[..|ts| - 1], ts[|ts| - 1];
     && Chained(front)
     && (LastOf(front, last.field).Some? ==> LastOf(front, last.field).value.new_ == last.old_))
  }

  /** Every field's newest transition ends in the value recorded for it. */
  ghost predicate EndsIn(ts: seq<Transition>, last: map<string, Option<Value>>) {
    forall f :: LastOf(ts, f).Some? ==> f in last && LastOf(ts, f).value.new_ == last[f]
  }

  ghost predicate Inv(h: State) {
    Chained(h.transitions) && EndsIn(h.transitions, h.last)
  }

  lemma {:induction false} LastOfAppend(ts: seq<Transition>, t: Transition)
    ensures forall f :: LastOf(ts + [t], f) == if t.field == f then Some(t) else LastOf(ts, f)
    ensures Chained(ts + [t]) <==>
            Chained(ts) && (LastOf(ts, t.field).Some? ==> LastOf(ts, t.field).value.new_ == t.old_)
  {
    assert (ts + [t])[..|ts|] == ts;
  }

  lemma {:induction false} LastOfMember(ts: seq<Transition>, field: string)
    ensures LastOf(ts, field).Some? <==> exists t :: t in ts && t.field == field
    ensures LastOf(ts, field).Some? ==> LastOf(ts, field).value in ts && LastOf(ts, field).value.field == field
    decreases |ts|
  {
    if ts != [] {
      var front, last := ts[..|ts| - 1], ts[|ts| - 1];
      assert ts == front + [last];
      LastOfMember(front, field);
    }
  }

  /** First sightings are for fields without any transition yet, and end in the recorded value. */
  ghost predicate FirstsFit(h: State, firsts: seq<Transition>) {
    && (forall i, j :: 0 <= i < j < |firsts| ==> firsts[i].field != firsts[j].field)
    && (forall t :: t in firsts ==>
          LastOf(h.transitions, t.field).None? && t.field in h.last && h.last[t.field] == t.new_)
  }

  function Names(fields: seq<Field>): seq<string> {
    seq(|fields|, i requires 0 <= i < |fields| => fields[i].name)
  }

  lemma {:induction false} FirstSightingKeeps(h: State, firsts: seq<Transition>, f: Field, at: real)
    requires Inv(h) && FirstsFit(h, firsts) && f.name !in h.last
    ensures
      var h' := h.(last := h.last[f.name := f.value]);
      Inv(h') && FirstsFit(h', firsts) && FirstsFit(h', firsts + [Transition(f.name, None, f.value, at)])
  {
    assert LastOf(h.transitions, f.name).None?;
    hide LastOf, Chained;
    var t := Transition(f.name, None, f.value, at);
    forall i | 0 <= i < |firsts| ensures firsts[i].field != f.name {
      assert firsts[i] in firsts;
    }
  }

  lemma {:induction false} ChangeKeeps(h: State, firsts: seq<Transition>, f: Field, at: real)
    requires Inv(h) && FirstsFit(h, firsts) && f.name in h.last && forall t :: t in firsts ==> t.field != f.name
    ensures
      var h' := State(h.transitions + [Transition(f.name, h.last[f.name], f.value, at)], h.last[f.name := f.value]);
      Inv(h') && FirstsFit(h', firsts)
  {
    LastOfAppend(h.transitions, Transition(f.name, h.last[f.name], f.value, at));
    hide LastOf, Chained;
  }

  lemma {:induction false} NoteFieldKeeps(cfg: Settings, h: State, firsts: seq<Transition>, f: Field, at: real)
    requires Inv(h) && FirstsFit(h, firsts) && forall t :: t in firsts ==> t.field != f.name
    ensures
      var (h', firsts') := NoteField(cfg, h, firsts, f, at);
      Inv(h') && FirstsFit(h', firsts') && forall t :: t in firsts' ==> t in firsts || t.field == f.name
  {
    hide Inv, FirstsFit, MeaningfullyChanged;
    if f.name !in h.last {
      FirstSightingKeeps(h, firsts, f, at);
    } else {
      ChangeKeeps(h, firsts, f, at);
    }
  }

  lemma {:induction false} NoteFieldsKeeps(cfg: Settings, h: State, fields: seq<Field>, at: real)
    requires Inv(h) && NoDuplicates(Names(fields))
    ensures
      var (h', firsts) := NoteFields(cfg, h, [], fields, at);
      Inv(h') && FirstsFit(h', firsts) && forall t :: t in firsts ==> t.field in Names(fields)
    decreases |fields|
  {
    if fields != [] {
      var front, last := fields[..|fields| - 1], fields[|fields| - 1];
      assert Names(fields) == Names(front) + [last.name] && Names(fields)[..|front|] == Names(front);
      NoteFieldsKeeps(cfg, h, front, at);
      var (h', firsts) := NoteFields(cfg, h, [], front, at);
      assert forall t :: t in firsts ==> t.field != last.name;
      NoteFieldKeeps(cfg, h', firsts, last, at);
      hide NoteField, Inv, FirstsFit, NoDuplicates;
    }
  }

  lemma {:induction false} AppendFirst(ts: seq<Transition>, last: map<string, Option<Value>>, t: Transition)
    requires Chained(ts) && EndsIn(ts, last) && LastOf(ts, t.field).None? && t.field in last && last[t.field] == t.new_
    ensures Chained(ts + [t]) && EndsIn(ts + [t], last) && t !in ts
  {
    LastOfAppend(ts, t);
    LastOfMember(ts, t.field);
    hide LastOf, Chained;
  }

  lemma {:induction false} StillUnseen(ts: seq<Transition>, more: seq<Transition>, field: string)
    requires LastOf(ts, field).None? && forall t :: t in more ==> t.field != field
    ensures LastOf(ts + more, field).None?
  {
    LastOfMember(ts, field);
    LastOfMember(ts + more, field);
    hide LastOf;
  }

  lemma FirstsPrefix(h: State, firsts: seq<Transition>)
    requires FirstsFit(h, firsts) && firsts != []
    ensures
      var front, last := firsts[..|firsts| - 1], firsts[|firsts| - 1];
      && FirstsFit(h, front) && (forall t :: t in front ==> t.field != last.field)
      && LastOf(h.transitions, last.field).None? && last.field in h.last && h.last[last.field] == last.new_
  {
    var front, last := firsts[..|firsts| - 1], firsts[|firsts| - 1];
    assert last in firsts;
    forall t | t in front ensures t.field != last.field {
      var i :| 0 <= i < |front| && front[i] == t;
      assert firsts[i].field != firsts[|firsts| - 1].field;
    }
    hide LastOf;
  }

  lemma {:induction false} AppendedKeeps(h: State, firsts: seq<Transition>)
    requires Inv(h) && FirstsFit(h, firsts)
    ensures Inv(h.(transitions := Appended(h.transitions, firsts)))
    ensures Appended(h.transitions, firsts) == h.transitions + firsts
    decreases |firsts|
  {
    hide FirstsFit, Chained, EndsIn, LastOf;
    if firsts == [] {
      assert h.transitions + [] == h.transitions;
    } else {
      var front, last := firsts[..|firsts| - 1], firsts[|firsts| - 1];
      FirstsPrefix(h, firsts);
      AppendedKeeps(h, front);
      StillUnseen(h.transitions, front, last.field);
      AppendFirst(h.transitions + front, h.last, last);
      assert h.transitions + firsts == (h.transitions + front) + [last];
    }
  }

  ghost predicate SameNewest(few: seq<Transition>, many: seq<Transition>) {
    forall f :: LastOf(few, f).Some? ==> LastOf(few, f) == LastOf(many, f)
  }

  lemma {:induction false} TailStep(tail: seq<Transition>, front: seq<Transition>, t: Transition)
    requires Chained(tail) && SameNewest(tail, front) && Chained(front + [t])
    ensures Chained(tail + [t]) && SameNewest(tail + [t], front + [t])
  {
    LastOfAppend(front, t);
    LastOfAppend(tail, t);
    hide LastOf, Chained;
  }

  lemma {:induction false} TailKeeps(ts: seq<Transition>)
    requires ts != [] && Chained(ts)
    ensures Chained(ts[1..]) && SameNewest(ts[1..], ts)
    decreases |ts|
  {
    if |ts| > 1 {
      var front, last := ts[..|ts| - 1], ts[|ts| - 1];
      assert ts == front + [last] && ts[1..] == front[1..] + [last];
      assert Chained(front);
      hide Chained, SameNewest;
      TailKeeps(front);
      TailStep(front[1..], front, last);
    }
  }

  lemma {:induction false} PrunedKeeps(ts: seq<Transition>, cutoff: real, last: map<string, Option<Value>>)
    requires Chained(ts) && EndsIn(ts, last)
    ensures Chained(Pruned(ts, cutoff)) && EndsIn(Pruned(ts, cutoff), last)
    decreases |ts|
  {
    if ts != [] && ts[0].timestamp < cutoff {
      TailKeeps(ts);
      PrunedKeeps(ts[1..], cutoff, last);
    }
  }

  /** Recording keeps every field's retained transitions a chain that ends in the recorded value. */
  lemma {:induction false} RecordingKeepsChains(cfg: Settings, h: State, fields: seq<Field>, at: real)
    requires Inv(h) && NoDuplicates(Names(fields))
    ensures Inv(Recorded(cfg, h, fields, at))
  {
    NoteFieldsKeeps(cfg, h, fields, at);
    var (noted, firsts) := NoteFields(cfg, h, [], fields, at);
    AppendedKeeps(noted, firsts);
    PrunedKeeps(Appended(noted.transitions, firsts), at - cfg.retention, noted.last);
    hide Chained, EndsIn, NoteFields, Appended, Pruned;
  }

  // ----- pruning

  ghost predicate Sorted(ts: seq<Transition>) {
    forall i, j :: 0 <= i < j < |ts| ==> ts[i].timestamp <= ts[j].timestamp
  }

  ghost predicate UpTo(ts: seq<Transition>, at: real) {
    forall t :: t in ts ==> t.timestamp <= at
  }

  function Since(ts: seq<Transition>, cutoff: real): seq<Transition>
    decreases |ts|
  {
    if ts == [] then []
    else if ts[0].timestamp >= cutoff then [ts[0]] + Since(ts[1..], cutoff)
    else Since(ts[1..], cutoff)
  }

  lemma {:induction false} SinceAll(ts: seq<Transition>, cutoff: real)
    requires forall t :: t in ts ==> t.timestamp >= cutoff
    ensures Since(ts, cutoff) == ts
    decreases |ts|
  {
    if ts != [] {
      SinceAll(ts[1..], cutoff);
    }
  }

  /** With timestamps in order, dropping old transitions from the front keeps exactly those since the cutoff. */
  lemma {:induction false} PruningIsFiltering(ts: seq<Transition>, cutoff: real)
    requires Sorted(ts)
    ensures Pruned(ts, cutoff) == Since(ts, cutoff)
    decreases |ts|
  {
    if ts != [] {
      if ts[0].timestamp < cutoff {
        PruningIsFiltering(ts[1..], cutoff);
      } else {
        forall t | t in ts ensures t.timestamp >= cutoff {
          var i :| 0 <= i < |ts| && ts[i] == t;
        }
        SinceAll(ts, cutoff);
      }
    }
  }

  /** Records at times that never go back keep the transitions in order, so every prune is a filter. */
  lemma {:induction false} RecordingKeepsOrder(cfg: Settings, h: State, fields: seq<Field>, at: real)
    requires Inv(h) && NoDuplicates(Names(fields))
    requires Sorted(h.transitions) && UpTo(h.transitions, at)
    ensures
      var (noted, firsts) := NoteFields(cfg, h, [], fields, at);
      var after := Recorded(cfg, h, fields, at);
      && after.transitions == Since(noted.transitions + firsts, at - cfg.retention)
      && Sorted(after.transitions) && UpTo(after.transitions, at)
      && h.transitions <= noted.transitions + firsts
  {
    hide Inv, NoteFields, NoDuplicates, Sorted, UpTo, Pruned, Since, Recorded;
    RecordedShape(cfg, h, fields, at);
    NotedNow(cfg, h, fields, at);
    var (noted, firsts) := NoteFields(cfg, h, [], fields, at);
    NotedExtends(h.transitions, noted.transitions, firsts, at);
    OrderedPrune(h.transitions, noted.transitions + firsts, at, at - cfg.retention);
  }

  lemma {:induction false} RecordedShape(cfg: Settings, h: State, fields: seq<Field>, at: real)
    requires Inv(h) && NoDuplicates(Names(fields))
    ensures
      var (noted, firsts) := NoteFields(cfg, h, [], fields, at);
      Recorded(cfg, h, fields, at).transitions == Pruned(noted.transitions + firsts, at - cfg.retention)
  {
    hide NoteFields, Inv, FirstsFit, Appended, Pruned, NoDuplicates;
    NoteFieldsKeeps(cfg, h, fields, at);
    var (noted, firsts) := NoteFields(cfg, h, [], fields, at);
    AppendedKeeps(noted, firsts);
  }

  lemma {:induction false} OrderedPrune(ts: seq<Transition>, all: seq<Transition>, at: real, cutoff: real)
    requires |ts| <= |all| && ts == all[..|ts|] && Sorted(ts) && UpTo(ts, at)
    requires forall i :: |ts| <= i < |all| ==> all[i].timestamp == at
    ensures Pruned(all, cutoff) == Since(all, cutoff)
    ensures Sorted(Pruned(all, cutoff)) && UpTo(Pruned(all, cutoff), at)
  {
    SortedExtends(ts, all, at);
    PruningIsFiltering(all, cutoff);
    PrunedStaysSorted(all, cutoff, at);
  }

  lemma {:induction false} PrunedStaysSorted(ts: seq<Transition>, cutoff: real, at: real)
    requires Sorted(ts) && UpTo(ts, at)
    ensures Sorted(Pruned(ts, cutoff)) && UpTo(Pruned(ts, cutoff), at)
    decreases |ts|
  {
    if ts != [] && ts[0].timestamp < cutoff {
      PrunedStaysSorted(ts[1..], cutoff, at);
    }
  }

  lemma NotedExtends(ts: seq<Transition>, noted: seq<Transition>, firsts: seq<Transition>, at: real)
    requires ts <= noted
    requires forall i :: |ts| <= i < |noted| ==> noted[i].timestamp == at
    requires forall t :: t in firsts ==> t.timestamp == at
    ensures var all := noted + firsts; |ts| <= |all| && ts == all[..|ts|] && forall i :: |ts| <= i < |all| ==>
            all[i].timestamp == at
  {
    forall i | |ts| <= i < |noted + firsts| ensures (noted + firsts)[i].timestamp == at {
      if i >= |noted| {
        assert firsts[i - |noted|] in firsts;
      }
    }
  }

  lemma {:induction false} SortedExtends(ts: seq<Transition>, all: seq<Transition>, at: real)
    requires |ts| <= |all| && ts == all[..|ts|] && Sorted(ts) && UpTo(ts, at)
    requires forall i :: |ts| <= i < |all| ==> all[i].timestamp == at
    ensures Sorted(all) && UpTo(all, at)
  {
    forall i | 0 <= i < |all| ensures all[i].timestamp <= at {
      if i < |ts| {
        assert ts[i] in ts;
      }
    }
  }

  /** Noting fields only adds transitions of the present time. */
  lemma {:induction false} NotedNow(cfg: Settings, h: State, fields: seq<Field>, at: real)
    ensures
      var (noted, firsts) := NoteFields(cfg, h, [], fields, at);
      && h.transitions <= noted.transitions
      && (forall i :: |h.transitions| <= i < |noted.transitions| ==> noted.transitions[i].timestamp == at)
      && (forall t :: t in firsts ==> t.timestamp == at)
    decreases |fields|
  {
    if fields != [] {
      NotedNow(cfg, h, fields[..|fields| - 1], at);
    }
  }

  // ----- the bounded log of a whole run

  datatype Entry = Entry(fields: seq<Field>, at: real)

  function Play(cfg: Settings, entries: seq<Entry>): State
    decreases |entries|
  {
    if entries == [] then Cleared()
    else
      var last := entries[|entries| - 1];
      Recorded(cfg, Play(cfg, entries[..|entries| - 1]), last.fields, last.at)
  }

  /** Everything ever noted, never pruned. */
  function FullLog(cfg: Settings, entries: seq<Entry>): seq<Transition>
    decreases |entries|
  {
    if entries == [] then []
    else
      var front := entries[..|entries| - 1];
      FullLog(cfg, front) + Added(cfg, Play(cfg, front), entries[|entries| - 1])
  }

  /** What one record adds. */
  function Added(cfg: Settings, h: State, e: Entry): seq<Transition> {
    var (noted, firsts) := NoteFields(cfg, h, [], e.fields, e.at);
    var all := noted.transitions + firsts;
    if |h.transitions| <= |all| then all[|h.transitions|..] else []
  }

  ghost predicate InOrder(entries: seq<Entry>) {
    && (forall i :: 0 <= i < |entries| ==> NoDuplicates(Names(entries[i].fields)))
    && (forall i, j :: 0 <= i < j < |entries| ==> entries[i].at <= entries[j].at)
  }

  lemma {:induction false} SinceConcat(a: seq<Transition>, b: seq<Transition>, cutoff: real)
    ensures Since(a + b, cutoff) == Since(a, cutoff) + Since(b, cutoff)
    decreases |a|
  {
    if a == [] {
      assert a + b == b;
    } else {
      assert (a + b)[1..] == a[1..] + b;
      SinceConcat(a[1..], b, cutoff);
    }
  }

  lemma {:induction false} SinceLater(ts: seq<Transition>, early: real, late: real)
    requires early <= late
    ensures Since(Since(ts, early), late) == Since(ts, late)
    decreases |ts|
  {
    if ts != [] {
      SinceLater(ts[1..], early, late);
    }
  }

  ghost predicate Faithful(cfg: Settings, entries: seq<Entry>) {
    var h := Play(cfg, entries);
    && Inv(h) && Sorted(h.transitions)
    && if entries == [] then h.transitions == []
       else
         var at := entries[|entries| - 1].at;
         UpTo(h.transitions, at) && h.transitions == Since(FullLog(cfg, entries), at - cfg.retention)
  }

  /**
    A faithful bounded log: with timestamps that never go back, the retained transitions are exactly those of
    everything noted since the cutoff, in order, and form a chain per field that ends in the recorded value.
   */
  lemma {:induction false} HistoryIsBoundedLog(cfg: Settings, entries: seq<Entry>)
    requires InOrder(entries)
    ensures Faithful(cfg, entries)
    decreases |entries|
  {
    if entries != [] {
      InOrderPrefix(entries);
      hide Faithful, InOrder, Play;
      HistoryIsBoundedLog(cfg, entries[..|entries| - 1]);
      StaysFaithful(cfg, entries);
    }
  }

  lemma {:induction false} RecordAdds(cfg: Settings, h: State, e: Entry)
    requires Inv(h) && NoDuplicates(Names(e.fields)) && Sorted(h.transitions) && UpTo(h.transitions, e.at)
    ensures
      var after := Recorded(cfg, h, e.fields, e.at);
      && Inv(after) && Sorted(after.transitions) && UpTo(after.transitions, e.at)
      && after.transitions == Since(h.transitions + Added(cfg, h, e), e.at - cfg.retention)
  {
    hide Inv, Sorted, UpTo, NoteFields, Recorded, Since, NoDuplicates;
    RecordingKeepsChains(cfg, h, e.fields, e.at);
    RecordingKeepsOrder(cfg, h, e.fields, e.at);
    var (noted, firsts) := NoteFields(cfg, h, [], e.fields, e.at);
    assert noted.transitions + firsts == h.transitions + Added(cfg, h, e);
  }

  lemma {:induction false} StaysFaithful(cfg: Settings, entries: seq<Entry>)
    requires entries != [] && InOrder(entries) && Faithful(cfg, entries[..|entries| - 1])
    ensures Faithful(cfg, entries)
  {
    hide InOrder, Inv, Sorted, UpTo, NoteFields, Recorded, Since, NoDuplicates, Added;
    var front, last := entries[..|entries| - 1], entries[|entries| - 1];
    var h := Play(cfg, front);
    InOrderPrefix(entries);
    FrontUpTo(cfg, front, last.at);
    RecordAdds(cfg, h, last);
    SinceStep(FullLog(cfg, front), h.transitions, Added(cfg, h, last),
              if front == [] then last.at - cfg.retention else front[|front| - 1].at - cfg.retention,
              last.at - cfg.retention);
  }

  lemma FrontUpTo(cfg: Settings, front: seq<Entry>, at: real)
    requires Faithful(cfg, front) && (front != [] ==> front[|front| - 1].at <= at)
    ensures UpTo(Play(cfg, front).transitions, at)
  {
    hide Inv, Sorted, Since, FullLog, Recorded;
  }

  lemma InOrderPrefix(entries: seq<Entry>)
    requires InOrder(entries) && entries != []
    ensures
      var front, last := entries[..|entries| - 1], entries[|entries| - 1];
      && InOrder(front) && NoDuplicates(Names(last.fields))
      && (front != [] ==> front[|front| - 1].at <= last.at)
  {
    hide NoDuplicates;
  }

  lemma SinceStep(log: seq<Transition>, kept: seq<Transition>, added: seq<Transition>, early: real, late: real)
    requires early <= late && (kept == Since(log, early) || (kept == [] && log == []))
    ensures Since(kept + added, late) == Since(log + added, late)
  {
    SinceConcat(kept, added, late);
    SinceConcat(log, added, late);
    SinceLater(log, early, late);
  }

  // ----- nothing meaningful is missed

  /** The recorded value is close to the present one: nearer than the field's threshold if it has one, else the same. */
  ghost predicate Near(cfg: Settings, field: string, recorded: Option<Value>, current: Option<Value>) {
    match (recorded, current)
    case (None, None) => true
    case (Some(v), Some(w)) =>
      if IsNumeric(v) && IsNumeric(w) then
        var moved := AsReal(w) - AsReal(v);
        if field in cfg.thresholds then -cfg.thresholds[field] < moved < cfg.thresholds[field] else moved == 0.0
      else v == w
    case _ => false
  }

  lemma NearIsNoChange(cfg: Settings, field: string, recorded: Option<Value>, current: Option<Value>)
    ensures Near(cfg, field, recorded, current) <==> !MeaningfullyChanged(cfg, field, recorded, current)
  {
  }

  lemma {:induction false} NotedLast(cfg: Settings, h: State, fields: seq<Field>, at: real, i: nat)
    requires NoDuplicates(Names(fields)) && i < |fields|
    ensures
      var noted := NoteFields(cfg, h, [], fields, at).0;
      && fields[i].name in noted.last
      && (noted.last[fields[i].name] == fields[i].value
          || Near(cfg, fields[i].name, noted.last[fields[i].name], fields[i].value))
    decreases |fields|
  {
    var front, last := fields[..|fields| - 1], fields[|fields| - 1];
    assert Names(fields) == Names(front) + [last.name] && Names(fields)[..|front|] == Names(front);
    if i < |front| {
      NotedLast(cfg, h, front, at, i);
      assert Names(front)[i] == fields[i].name && fields[i].name != last.name;
    }
    var before := NoteFields(cfg, h, [], front, at).0;
    if last.name in before.last {
      NearIsNoChange(cfg, last.name, before.last[last.name], last.value);
    }
    hide MeaningfullyChanged, Near;
  }

  /**
    After a record every field is within its threshold of the value recorded for it, whatever the fields,
    exactly when every threshold is positive.
   */
  lemma {:induction false} ThresholdsAreKept(cfg: Settings)
    ensures
      (forall name :: name in cfg.thresholds ==> cfg.thresholds[name] > 0.0) <==>
      forall h: State, fields: seq<Field>, at: real, i: nat :: NoDuplicates(Names(fields)) && i < |fields| ==>
        StaysNear(cfg, h, fields, at, i)
  {
    if forall name :: name in cfg.thresholds ==> cfg.thresholds[name] > 0.0 {
      forall h: State, fields: seq<Field>, at: real, i: nat | NoDuplicates(Names(fields)) && i < |fields|
        ensures StaysNear(cfg, h, fields, at, i)
      {
        NotedLast(cfg, h, fields, at, i);
      }
    } else {
      var name :| name in cfg.thresholds && cfg.thresholds[name] <= 0.0;
      var fields := [Field(name, Some(Number(0.0)))];
      assert Names(fields) == [name] && [name][..0] == [] && NoDuplicates([name]);
      assert fields[..0] == [] && NoteFields(cfg, Cleared(), [], [], 0.0) == (Cleared(), []);
      assert Recorded(cfg, Cleared(), fields, 0.0).last[name] == Some(Number(0.0));
      assert !StaysNear(cfg, Cleared(), fields, 0.0, 0);
    }
  }

  /** A field is recorded at its first usable value and whenever it is no longer near the value recorded last. */
  ghost predicate IsNoted(cfg: Settings, h: State, f: Field, at: real, t: Transition) {
    && t.field == f.name && t.new_ == f.value && t.timestamp == at
    && if f.name in h.last then t.old_ == h.last[f.name] && !Near(cfg, f.name, t.old_, f.value)
       else t.old_ == None && f.value != None
  }

  lemma {:induction false} UnnamedStays(cfg: Settings, h: State, fields: seq<Field>, at: real, name: string)
    requires name !in Names(fields)
    ensures
      var last := NoteFields(cfg, h, [], fields, at).0.last;
      (name in last <==> name in h.last) && (name in h.last ==> last[name] == h.last[name])
    decreases |fields|
  {
    if fields != [] {
      var front := fields[..|fields| - 1];
      assert Names(fields) == Names(front) + [fields[|fields| - 1].name];
      UnnamedStays(cfg, h, front, at, name);
      hide MeaningfullyChanged;
    }
  }

  /** What a record reports is, in the order of the fields, exactly what is to be recorded of each. */
  lemma {:induction false} ReportsExactly(cfg: Settings, h: State, fields: seq<Field>, at: real)
    requires NoDuplicates(Names(fields))
    ensures
      var found := Reports(cfg, h, fields, at);
      && Subsequence(Fields(found), Names(fields))
      && forall t :: t in found <==> exists f :: f in fields && IsNoted(cfg, h, f, at, t)
    decreases |fields|
  {
    hide IsNoted, MeaningfullyChanged, Near, Subsequence;
    if fields == [] {
      NothingInOrder();
      assert Fields(Reports(cfg, h, fields, at)) == [] && Names(fields) == [];
    } else {
      var front, last := fields[..|fields| - 1], fields[|fields| - 1];
      assert fields == front + [last];
      assert Names(fields) == Names(front) + [last.name] && Names(fields)[..|front|] == Names(front);
      ReportsExactly(cfg, h, front, at);
      UnnamedStays(cfg, h, front, at, last.name);
      var more := ReportsFor(cfg, NoteFields(cfg, h, [], front, at).0, last, at);
      OneReport(cfg, h, NoteFields(cfg, h, [], front, at).0, last, at);
      SubsequenceSnoc(Fields(Reports(cfg, h, front, at)), Names(front), last.name);
      assert Fields(Reports(cfg, h, front, at) + more) == Fields(Reports(cfg, h, front, at)) + Fields(more);
      assert Fields(Reports(cfg, h, front, at)) + [] == Fields(Reports(cfg, h, front, at));
    }
  }

  function Fields(ts: seq<Transition>): seq<string> {
    seq(|ts|, i requires 0 <= i < |ts| => ts[i].field)
  }

  lemma NothingInOrder()
    ensures Subsequence<string>([], [])
  {
  }

  lemma OneReport(cfg: Settings, h: State, later: State, f: Field, at: real)
    requires (f.name in later.last <==> f.name in h.last) && (f.name in h.last ==> later.last[f.name] == h.last[f.name])
    ensures
      var found := ReportsFor(cfg, later, f, at);
      (Fields(found) == [] || Fields(found) == [f.name]) && forall t :: t in found <==> IsNoted(cfg, h, f, at, t)
  {
    if f.name in h.last {
      NearIsNoChange(cfg, f.name, h.last[f.name], f.value);
    }
    var found := ReportsFor(cfg, later, f, at);
    assert if found == [] then Fields(found) == [] else Fields(found) == [f.name];
    hide Near, MeaningfullyChanged;
  }

  ghost predicate StaysNear(cfg: Settings, h: State, fields: seq<Field>, at: real, i: nat)
    requires i < |fields|
  {
    var last := Recorded(cfg, h, fields, at).last;
    fields[i].name in last && Near(cfg, fields[i].name, last[fields[i].name], fields[i].value)
  }

  // ----- the mutable object

  /** The transitions of a field, or of all, since a time. */
  function Selected(ts: seq<Transition>, field: Option<string>, since: Option<real>): seq<Transition>
    decreases |ts|
  {
    if ts == [] then []
    else
      var front, last := Selected(ts[..|ts| - 1], field, since), ts[|ts| - 1];
      if (field.None? || last.field == field.value) && (since.None? || last.timestamp >= since.value) then
        front + [last] else front
  }

  /** A query answers, in their order, exactly the transitions of the field that are not before the time. */
  lemma {:induction false} SelectedExactly(ts: seq<Transition>, field: Option<string>, since: Option<real>)
    ensures
      var found := Selected(ts, field, since);
      && Subsequence(found, ts)
      && forall t :: multiset(found)[t] ==
           if field in {None, Some(t.field)} && forall time :: since == Some(time) ==> time <= t.timestamp then
             multiset(ts)[t]
           else 0
    decreases |ts|
  {
    if ts != [] {
      var front, last := ts[..|ts| - 1], ts[|ts| - 1];
      assert ts == front + [last];
      SelectedExactly(front, field, since);
      SubsequenceSnoc(Selected(front, field, since), front, last);
      hide Subsequence;
    }
  }

  class StateHistory {
    const cfg: Settings
    var transitions: seq<Transition>
    var last: map<string, Option<Value>>

    function View(): State
      reads this
    {
      State(transitions, last)
    }

    constructor (cfg: Settings)
      ensures View() == Cleared() && this.cfg == cfg
    {
      this.cfg := cfg;
      transitions, last := [], map[];
    }

    method Record(fields: seq<Field>, at: real) returns (added: seq<Transition>)
      requires Inv(View()) && NoDuplicates(Names(fields))
      modifies this
      ensures View() == Recorded(cfg, old(View()), fields, at) && Inv(View())
      ensures added == Reports(cfg, old(View()), fields, at)
    {
      RecordingKeepsChains(cfg, View(), fields, at);
      hide Inv, NoDuplicates, MeaningfullyChanged;
      var firsts := [];
      added := [];
      for i := 0 to |fields|
        invariant (View(), firsts) == NoteFields(cfg, old(View()), [], fields[..i], at)
        invariant added == Reports(cfg, old(View()), fields[..i], at)
      {
        assert fields[..i + 1][..i] == fields[..i];
        var f := fields[i];
        if f.name !in last {
          last := last[f.name := f.value];
          if f.value.Some? {
            firsts := firsts + [Transition(f.name, None, f.value, at)];
            added := added + [Transition(f.name, None, f.value, at)];
          }
        } else if MeaningfullyChanged(cfg, f.name, last[f.name], f.value) {
          transitions := transitions + [Transition(f.name, last[f.name], f.value, at)];
          added := added + [Transition(f.name, last[f.name], f.value, at)];
          last := last[f.name := f.value];
        }
      }
      assert fields[..|fields|] == fields;
      AppendNew(firsts);
      Prune(at);
    }

    method AppendNew(more: seq<Transition>)
      modifies this`transitions
      ensures transitions == Appended(old(transitions), more)
    {
      for i := 0 to |more|
        invariant transitions == Appended(old(transitions), more[..i])
      {
        assert more[..i + 1][..i] == more[..i];
        if more[i] !in transitions {
          transitions := transitions + [more[i]];
        }
      }
      assert more[..|more|] == more;
    }

    method Prune(now: real)
      modifies this`transitions
      ensures transitions == Pruned(old(transitions), now - cfg.retention)
    {
      var cutoff := now - cfg.retention;
      while transitions != [] && transitions[0].timestamp < cutoff
        invariant Pruned(transitions, cutoff) == Pruned(old(transitions), cutoff)
        decreases |transitions|
      {
        transitions := transitions[1..];
      }
    }

    method Query(field: Option<string>, since: Option<real>) returns (picked: seq<Transition>)
      ensures picked == Selected(transitions, field, since)
    {
      picked := [];
      for i := 0 to |transitions|
        invariant picked == Selected(transitions[..i], field, since)
      {
        assert transitions[..i + 1][..i] == transitions[..i];
        var t := transitions[i];
        if (field.None? || t.field == field.value) && (since.None? || t.timestamp >= since.value) {
          picked := picked + [t];
        }
      }
      assert transitions[..|transitions|] == transitions;
    }

    method Clear()
      modifies this
      ensures View() == Cleared() && Inv(View())
    {
      transitions, last := [], map[];
    }
  }
}
