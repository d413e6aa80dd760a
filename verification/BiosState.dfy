/** The 64 KiB DCS-BIOS address space (client/dcs_copilot/dcs/bios_state.py). */
module BiosState {
  import opened Wrappers

  const ADDRESS_SPACE_SIZE := 0x1_0000

  datatype Cell = Cell(content: byte, available: bool, updatedAt: real)

  type Space = s: seq<Cell> | |s| == ADDRESS_SPACE_SIZE witness seq(ADDRESS_SPACE_SIZE, _ => Cell(0, false, 0.0))

  function Blank(): Space {
    seq(ADDRESS_SPACE_SIZE, _ => Cell(0, false, 0.0))
  }

  datatype Write = Write(address: nat, data: seq<byte>)

  /** A write with its arrival time; the source's StateWrite without `changed`. */
  datatype Stamped = Stamped(write: Write, receivedAt: real)

  predicate InBounds(w: Write) {
    w.address + |w.data| <= ADDRESS_SPACE_SIZE
  }

  predicate Covers(w: Write, a: int) {
    w.address <= a < w.address + |w.data|
  }

  function Applied(s: Space, w: Stamped): Space
    requires InBounds(w.write)
  {
    seq(ADDRESS_SPACE_SIZE, a requires 0 <= a < ADDRESS_SPACE_SIZE =>
      if Covers(w.write, a) then Cell(w.write.data[a - w.write.address], true, w.receivedAt) else s[a])
  }

  function AppliedAll(s: Space, ws: seq<Stamped>): Space
    requires forall w :: w in ws ==> InBounds(w.write)
    decreases |ws|
  {
    if ws == [] then s else AppliedAll(Applied(s, ws[0]), ws[1..])
  }

  function Unavailable(s: Space): Space {
    seq(ADDRESS_SPACE_SIZE, a requires 0 <= a < ADDRESS_SPACE_SIZE => s[a].(available := false))
  }

  /** Whether a write changes a byte or makes one available. */
  predicate Changes(s: Space, w: Write)
    requires InBounds(w)
  {
    exists a :: w.address <= a < w.address + |w.data| && (s[a].content != w.data[a - w.address] || !s[a].available)
  }

  predicate Readable(s: Space, address: nat, length: nat)
    requires address + length <= ADDRESS_SPACE_SIZE
  {
    forall a :: address <= a < address + length ==> s[a].available
  }

  function Contents(s: Space, address: nat, length: nat): (r: seq<byte>)
    requires address + length <= ADDRESS_SPACE_SIZE
  {
    seq<byte>(length, i requires 0 <= i < length => s[address + i].content)
  }

  /** The oldest time at which a byte of the range was written. */
  function Oldest(s: Space, address: nat, length: nat): real
    requires 0 < length && address + length <= ADDRESS_SPACE_SIZE
    decreases length
  {
    var last := s[address + length - 1].updatedAt;
    if length == 1 then last
    else
      var earlier := Oldest(s, address, length - 1);
      if earlier <= last then earlier else last
  }

  /** What a reader can see at one address. */
  function Visible(s: Space, a: nat): Option<byte>
    requires a < ADDRESS_SPACE_SIZE
  {
    if s[a].available then Some(s[a].content) else None
  }

  ghost predicate SameVisible(s: Space, t: Space) {
    forall a :: 0 <= a < ADDRESS_SPACE_SIZE ==> Visible(s, a) == Visible(t, a)
  }

  ghost predicate SameContents(s: Space, t: Space) {
    forall a :: 0 <= a < ADDRESS_SPACE_SIZE ==> s[a].content == t[a].content
  }

  ghost predicate AllInBounds(ws: seq<Stamped>) {
    forall w :: w in ws ==> InBounds(w.write)
  }

  // ----- folding writes

  lemma AppliedAllConcat(s: Space, ws: seq<Stamped>, vs: seq<Stamped>)
    requires AllInBounds(ws) && AllInBounds(vs)
    ensures AllInBounds(ws + vs)
    ensures AppliedAll(s, ws + vs) == AppliedAll(AppliedAll(s, ws), vs)
    decreases |ws|
  {
    if ws == [] {
      assert ws + vs == vs;
    } else {
      assert (ws + vs)[0] == ws[0] && (ws + vs)[1..] == ws[1..] + vs;
      AppliedAllConcat(Applied(s, ws[0]), ws[1..], vs);
    }
  }

  /** An unchanging write leaves everything a reader can see as it was. */
  lemma UnchangingWriteIsInvisible(s: Space, w: Stamped)
    requires InBounds(w.write) && !Changes(s, w.write)
    ensures SameVisible(Applied(s, w), s)
  {
  }

  /** What writes make visible depends only on what was visible. */
  lemma AppliedAllVisible(s: Space, t: Space, ws: seq<Stamped>)
    requires SameVisible(s, t) && AllInBounds(ws)
    ensures SameVisible(AppliedAll(s, ws), AppliedAll(t, ws))
    decreases |ws|
  {
    if ws != [] {
      assert SameVisible(Applied(s, ws[0]), Applied(t, ws[0])) by {
        forall a | 0 <= a < ADDRESS_SPACE_SIZE ensures Visible(Applied(s, ws[0]), a) == Visible(Applied(t, ws[0]), a) {
          assert Visible(s, a) == Visible(t, a);
        }
      }
      AppliedAllVisible(Applied(s, ws[0]), Applied(t, ws[0]), ws[1..]);
    }
  }

  /** The byte that the last covering write leaves at `a`. */
  function Last(ws: seq<Stamped>, a: nat): Option<byte>
    decreases |ws|
  {
    if ws == [] then None
    else
      var w := ws[|ws| - 1].write;
      if Covers(w, a) then Some(w.data[a - w.address]) else Last(ws[..|ws| - 1], a)
  }

  lemma AppliedAllAt(s: Space, ws: seq<Stamped>, a: nat)
    requires AllInBounds(ws) && a < ADDRESS_SPACE_SIZE
    ensures var cell := AppliedAll(s, ws)[a];
      match Last(ws, a)
      case None => cell == s[a]
      case Some(b) => cell.content == b && cell.available
    decreases |ws|
  {
    if ws != [] {
      var front, last := ws[..|ws| - 1], ws[|ws| - 1];
      assert ws == front + [last];
      AppliedAllConcat(s, front, [last]);
      assert AppliedAll(AppliedAll(s, front), [last]) == Applied(AppliedAll(s, front), last);
      AppliedAllAt(s, front, a);
    }
  }

  /** Clearing availability and replaying writes that are already in the buffer leaves the buffer as it was. */
  lemma ReplayKeepsContents(s: Space, ws: seq<Stamped>)
    requires AllInBounds(ws)
    ensures SameContents(AppliedAll(Unavailable(AppliedAll(s, ws)), ws), AppliedAll(s, ws))
  {
    forall a | 0 <= a < ADDRESS_SPACE_SIZE
      ensures AppliedAll(Unavailable(AppliedAll(s, ws)), ws)[a].content == AppliedAll(s, ws)[a].content
    {
      AppliedAllAt(s, ws, a);
      AppliedAllAt(Unavailable(AppliedAll(s, ws)), ws, a);
    }
  }

  /** After clearing and replaying, exactly the bytes some replayed write covers are visible. */
  lemma ReplayShowsExactlyTheWrites(s: Space, ws: seq<Stamped>, a: nat)
    requires AllInBounds(ws) && a < ADDRESS_SPACE_SIZE
    ensures Visible(AppliedAll(Unavailable(s), ws), a) == Last(ws, a)
    ensures Last(ws, a).Some? <==> exists i :: 0 <= i < |ws| && Covers(ws[i].write, a)
  {
    AppliedAllAt(Unavailable(s), ws, a);
    LastIsCovered(ws, a);
  }

  lemma LastIsCovered(ws: seq<Stamped>, a: nat)
    ensures Last(ws, a).Some? <==> exists i :: 0 <= i < |ws| && Covers(ws[i].write, a)
    decreases |ws|
  {
    if ws != [] && !Covers(ws[|ws| - 1].write, a) {
      LastIsCovered(ws[..|ws| - 1], a);
      assert forall i :: 0 <= i < |ws| - 1 ==> ws[..|ws| - 1][i] == ws[i];
    }
  }

  /** A cell holds the byte and the time of the last write that covers it, and is as before if none does. */
  lemma {:induction false} CellsAreLastWritten(s: Space, ws: seq<Stamped>, a: nat)
    requires AllInBounds(ws) && a < ADDRESS_SPACE_SIZE
    ensures (forall i :: 0 <= i < |ws| ==> !Covers(ws[i].write, a)) ==> AppliedAll(s, ws)[a] == s[a]
    ensures forall i ::
              && 0 <= i < |ws| && Covers(ws[i].write, a)
              && (forall k :: i < k < |ws| ==> !Covers(ws[k].write, a))
              ==>
              AppliedAll(s, ws)[a] == Cell(ws[i].write.data[a - ws[i].write.address], true, ws[i].receivedAt)
    decreases |ws|
  {
    if ws != [] {
      var front, last := ws[..|ws| - 1], ws[|ws| - 1];
      assert ws == front + [last];
      AppliedAllConcat(s, front, [last]);
      assert AppliedAll(s, ws) == Applied(AppliedAll(s, front), last);
      CellsAreLastWritten(s, front, a);
      hide AppliedAll;
    }
  }

  /** The time reported for a range is that of its byte written longest ago. */
  lemma {:induction false} OldestIsLeast(s: Space, address: nat, length: nat)
    requires 0 < length && address + length <= ADDRESS_SPACE_SIZE
    ensures forall a :: address <= a < address + length ==> Oldest(s, address, length) <= s[a].updatedAt
    ensures exists a :: address <= a < address + length && Oldest(s, address, length) == s[a].updatedAt
    decreases length
  {
    var last := address + length - 1;
    assert Oldest(s, address, length) <= s[last].updatedAt;
    if length > 1 {
      OldestIsLeast(s, address, length - 1);
      var a :| address <= a < last && Oldest(s, address, length - 1) == s[a].updatedAt;
      assert Oldest(s, address, length) in {s[a].updatedAt, s[last].updatedAt};
    }
  }

  // ----- the mutable object

  datatype StateWrite = StateWrite(write: Write, changed: bool, receivedAt: real)

  class DcsBiosState {
    const buffer: array<byte>
    const available: array<bool>
    const updatedAt: array<real>
    var latestWriteAt: Option<real>

    ghost predicate Valid() {
      && buffer.Length == available.Length == updatedAt.Length == ADDRESS_SPACE_SIZE
    }

    ghost function View(): Space
      requires Valid()
      reads buffer, available, updatedAt
    {
      seq(ADDRESS_SPACE_SIZE, a requires 0 <= a < ADDRESS_SPACE_SIZE
                                reads buffer, available, updatedAt =>
        Cell(buffer[a], available[a], updatedAt[a]))
    }

    constructor ()
      ensures Valid() && View() == Blank() && latestWriteAt == None
      ensures fresh(buffer) && fresh(available) && fresh(updatedAt)
    {
      buffer := new byte[ADDRESS_SPACE_SIZE](_ => 0);
      available := new bool[ADDRESS_SPACE_SIZE](_ => false);
      updatedAt := new real[ADDRESS_SPACE_SIZE](_ => 0.0);
      latestWriteAt := None;
    }

    /** None is the source's ValueError for a write outside the address space. */
    method ApplyWrite(address: int, data: seq<byte>, receivedAt: real) returns (r: Option<StateWrite>)
      requires Valid()
      modifies this, buffer, available, updatedAt
      ensures r.Some? <==> 0 <= address && address + |data| <= ADDRESS_SPACE_SIZE
      ensures r.Some? ==>
                var w := Write(address, data);
                && r.value == StateWrite(w, Changes(old(View()), w), receivedAt)
                && View() == Applied(old(View()), Stamped(w, receivedAt))
                && latestWriteAt == Some(receivedAt)
      ensures r.None? ==> View() == old(View()) && latestWriteAt == old(latestWriteAt)
    {
      var end := address + |data|;
      if address < 0 || end > ADDRESS_SPACE_SIZE {
        return None;
      }
      var changed := buffer[address..end] != data || !(forall a :: address <= a < end ==> available[a]);
      ghost var before := View();
      assert changed <==> Changes(before, Write(address, data)) by {
        assert forall a :: address <= a < end ==> before[a] == Cell(buffer[a], available[a], updatedAt[a]);
        assert forall i :: 0 <= i < |data| ==> buffer[address..end][i] == buffer[address + i];
      }
      forall a | address <= a < end { buffer[a] := data[a - address]; }
      forall a | address <= a < end { available[a] := true; }
      forall a | address <= a < end { updatedAt[a] := receivedAt; }
      latestWriteAt := Some(receivedAt);
      return Some(StateWrite(Write(address, data), changed, receivedAt));
    }

    /** Err is the ValueError of a range outside the space; absent when a byte of the range was never written. */
    method Read(address: int, length: int) returns (r: Result<Option<seq<byte>>>)
      requires Valid()
      ensures r.Ok? <==> 0 <= address && 0 <= length && address + length <= ADDRESS_SPACE_SIZE
      ensures r.Ok? ==> r.value == if Readable(View(), address, length) then Some(Contents(View(), address, length))
                                   else None
    {
      var end := address + length;
      if address < 0 || length < 0 || end > ADDRESS_SPACE_SIZE {
        return Err;
      }
      ghost var s := View();
      assert forall a :: 0 <= a < ADDRESS_SPACE_SIZE ==> s[a].available == available[a];
      if !(forall a :: address <= a < end ==> available[a]) {
        return Ok(None);
      }
      assert buffer[address..end] == Contents(s, address, length) by {
        assert forall a :: address <= a < end ==> s[a].content == buffer[a];
      }
      return Ok(Some(buffer[address..end]));
    }

    /** The oldest write time of the range, absent when it is empty or not all of it was written. */
    method UpdatedAtRange(address: int, length: int) returns (r: Result<Option<real>>)
      requires Valid()
      ensures r.Ok? <==> 0 <= address && 0 <= length && address + length <= ADDRESS_SPACE_SIZE
      ensures r.Ok? ==>
                r.value == if 0 < length && Readable(View(), address, length) then
                  Some(Oldest(View(), address, length)) else None
    {
      var end := address + length;
      if address < 0 || length < 0 || end > ADDRESS_SPACE_SIZE {
        return Err;
      }
      if length == 0 {
        return Ok(None);
      }
      ghost var s := View();
      assert forall a :: 0 <= a < ADDRESS_SPACE_SIZE ==>
             s[a].available == available[a] && s[a].updatedAt == updatedAt[a];
      if !(forall a :: address <= a < end ==> available[a]) {
        return Ok(None);
      }
      var least := updatedAt[address];
      for a := address + 1 to end
        invariant least == Oldest(s, address, a - address)
      {
        if updatedAt[a] < least {
          least := updatedAt[a];
        }
      }
      return Ok(Some(least));
    }

    method ClearAvailability()
      requires Valid()
      modifies available
      ensures View() == Unavailable(old(View()))
    {
      forall a | 0 <= a < available.Length { available[a] := false; }
    }
  }
}
