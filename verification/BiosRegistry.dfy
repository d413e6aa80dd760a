/**
  Control definitions, decoding and the address index (client/dcs_copilot/dcs/bios_registry.py).
  Reading the JSON files is not part of this model: a registry is the listing they produce, in the
  (module, identifier, type, index) order in which the client sorts it.
 */
module BiosRegistry {
  import opened Wrappers
  import opened InsertionDict
  import opened Wire
  import opened BiosState

  datatype Kind =
    | IntegerKind(mask: nat, shift: nat, maxValue: int)
    | StringKind(length: nat)

  datatype Definition = Definition(identifier: string, moduleName: string, outputIndex: nat, address: nat, kind: Kind)

  datatype Registry = Registry(definitions: seq<Definition>, aliases: map<string, seq<string>>)

  function ByteLength(d: Definition): nat {
    match d.kind
    case IntegerKind(_, _, _) => 2
    case StringKind(length) => length
  }

  function IdentityOf(d: Definition): Identity {
    Identity(d.moduleName, d.identifier, if d.kind.IntegerKind? then IntegerOutput else StringOutput, d.outputIndex)
  }

  /** A definition that reads at least one byte, all inside the address space. */
  predicate Located(d: Definition) {
    0 < ByteLength(d) && d.address + ByteLength(d) <= ADDRESS_SPACE_SIZE
  }

  ghost predicate DistinctControls(definitions: seq<Definition>) {
    forall i, j :: 0 <= i < j < |definitions| ==> IdentityOf(definitions[i]) != IdentityOf(definitions[j])
  }

  ghost predicate WellFormed(r: Registry) {
    && (forall i :: 0 <= i < |r.definitions| ==> Located(r.definitions[i]))
    && DistinctControls(r.definitions)
  }

  lemma DistinctIdentities(r: Registry, d: Definition, e: Definition)
    requires WellFormed(r) && d in r.definitions && e in r.definitions && IdentityOf(d) == IdentityOf(e)
    ensures d == e
  {
  }

  // ----- decoding

  function And(x: nat, y: nat): nat {
    if x == 0 then 0 else (x % 2) * (y % 2) + 2 * And(x / 2, y / 2)
  }

  function ShiftRight(x: nat, n: nat): nat
    decreases n
  {
    if n == 0 then x else ShiftRight(x / 2, n - 1)
  }

  function BeforeNul(raw: seq<byte>): (r: seq<byte>)
    ensures |r| <= |raw|
  {
    if raw == [] || raw[0] == 0 then [] else [raw[0]] + BeforeNul(raw[1..])
  }

  /** The Latin-1 characters that Python's rstrip removes. */
  predicate IsSpace(b: byte) {
    9 <= b <= 13 || 28 <= b <= 32 || b == 0x85 || b == 0xA0
  }

  function RStrip(s: seq<byte>): (r: seq<byte>)
    ensures |r| <= |s|
    decreases |s|
  {
    if s != [] && IsSpace(s[|s| - 1]) then RStrip(s[..|s| - 1]) else s
  }

  function Latin1(s: seq<byte>): string {
    seq(|s|, i requires 0 <= i < |s| => s[i] as char)
  }

  function DecodeBytes(kind: Kind, raw: seq<byte>): Reading
    requires |raw| == if kind.IntegerKind? then 2 else kind.length
  {
    match kind
    case IntegerKind(mask, shift, _) => Number(ShiftRight(And(raw[0] as int + 256 * (raw[1] as int), mask), shift))
    case StringKind(_) => Text(Latin1(RStrip(BeforeNul(raw))))
  }

  function Decode(d: Definition, s: Space): Option<Reading>
    requires Located(d)
  {
    if Readable(s, d.address, ByteLength(d)) then
      Some(DecodeBytes(d.kind, Contents(s, d.address, ByteLength(d))))
    else None
  }

  lemma DecodeDependsOnVisible(d: Definition, s: Space, t: Space)
    requires Located(d)
    requires forall a :: d.address <= a < d.address + ByteLength(d) ==> Visible(s, a) == Visible(t, a)
    ensures Decode(d, s) == Decode(d, t)
  {
    if Readable(s, d.address, ByteLength(d)) {
      forall a | d.address <= a < d.address + ByteLength(d) ensures s[a].content == t[a].content && t[a].available {
        assert Visible(s, a) == Visible(t, a);
      }
      assert Contents(s, d.address, ByteLength(d)) == Contents(t, d.address, ByteLength(d));
    } else {
      var a :| d.address <= a < d.address + ByteLength(d) && !s[a].available;
      assert Visible(s, a) == Visible(t, a);
    }
  }

  // ----- what the bytes mean

  /** Bit `i` of a number, counted from the least significant. */
  function Bit(x: nat, i: nat): nat
    decreases i
  {
    if i == 0 then x % 2 else Bit(x / 2, i - 1)
  }

  lemma {:induction false} AndBits(x: nat, y: nat, i: nat)
    ensures Bit(And(x, y), i) == Bit(x, i) * Bit(y, i)
    decreases i
  {
    NoBits(i);
    if x != 0 {
      assert And(x, y) == (x % 2) * (y % 2) + 2 * And(x / 2, y / 2);
      assert (x % 2) * (y % 2) == if x % 2 == 1 then y % 2 else 0;
      if i > 0 {
        AndBits(x / 2, y / 2, i - 1);
      }
    }
  }

  lemma {:induction false} NoBits(i: nat)
    ensures Bit(0, i) == 0
    decreases i
  {
    if i > 0 {
      NoBits(i - 1);
    }
  }

  lemma {:induction false} ShiftBits(x: nat, n: nat, i: nat)
    ensures Bit(ShiftRight(x, n), i) == Bit(x, i + n)
    decreases n
  {
    if n > 0 {
      ShiftBits(x / 2, n - 1, i);
    }
  }

  lemma {:induction false} JoinedBits(low: nat, high: nat, k: nat, i: nat)
    requires low < Pow2(k)
    ensures Bit(low + Pow2(k) * high, i) == if i < k then Bit(low, i) else Bit(high, i - k)
    decreases k
  {
    if k > 0 {
      var rest := Pow2(k - 1) * high;
      assert Pow2(k) * high == 2 * rest;
      assert (low + 2 * rest) / 2 == low / 2 + rest && (low + 2 * rest) % 2 == low % 2;
      if i > 0 {
        JoinedBits(low / 2, high, k - 1, i - 1);
      }
    }
  }

  lemma {:induction false} BitsBelow(x: nat, k: nat, i: nat)
    requires x < Pow2(k) && k <= i
    ensures Bit(x, i) == 0
    decreases k
  {
    if k == 0 {
      NoBits(i);
    } else {
      BitsBelow(x / 2, k - 1, i - 1);
    }
  }

  /**
    An integer control's bytes are a little-endian word: bit `i` of the decoded number is bit `i + shift` of
    the mask and of the word, which is bit `(i + shift) % 8` of byte `(i + shift) / 8`; beyond the word it is 0.
   */
  lemma {:induction false} IntegerBits(mask: nat, shift: nat, maxValue: int, raw: seq<byte>, i: nat)
    requires |raw| == 2
    ensures
      var decoded := DecodeBytes(IntegerKind(mask, shift, maxValue), raw);
      var k := i + shift;
      && decoded.Number? && decoded.n >= 0
      && Bit(decoded.n, i) == if k < 16 then Bit(mask, k) * Bit(raw[k / 8] as int, k % 8) else 0
  {
    hide Bit, And, ShiftRight;
    var word, k := raw[0] as int + 256 * (raw[1] as int), i + shift;
    ShiftBits(And(word, mask), shift, i);
    AndBits(word, mask, k);
    WordBits(raw[0] as int, raw[1] as int, k);
    assert k < 16 ==> (k / 8 == 0 && k % 8 == k) || (k / 8 == 1 && k % 8 == k - 8);
    assert Bit(mask, k) * 0 == 0;
  }

  lemma {:induction false} WordBits(low: nat, high: nat, k: nat)
    requires low < 256 && high < 256
    ensures Bit(low + 256 * high, k) == if k < 8 then Bit(low, k) else if k < 16 then Bit(high, k - 8) else 0
  {
    hide Bit;
    assert Pow2(8) == 256 by {
      assert Pow2(4) == 16 && Pow2(8) == 16 * Pow2(4);
    }
    JoinedBits(low, high, 8, k);
    if k >= 16 {
      BitsBelow(high, 8, k - 8);
    }
  }

  /** A number is its bits. */
  lemma {:induction false} BitsDecide(x: nat, y: nat)
    requires forall i: nat :: Bit(x, i) == Bit(y, i)
    ensures x == y
    decreases x + y
  {
    assert Bit(x, 0) == Bit(y, 0);
    if x + y > 0 {
      forall i: nat ensures Bit(x / 2, i) == Bit(y / 2, i) {
        assert Bit(x, i + 1) == Bit(y, i + 1);
      }
      BitsDecide(x / 2, y / 2);
    }
  }

  /** Where a text ends: before the first NUL byte and the white space in front of it. */
  ghost predicate TextEnds(raw: seq<byte>, end: nat, nul: nat) {
    && end <= nul <= |raw|
    && (forall i :: 0 <= i < nul ==> raw[i] != 0) && (nul < |raw| ==> raw[nul] == 0)
    && (forall i :: end <= i < nul ==> IsBlankChar(raw[i] as char))
    && (end > 0 ==> !IsBlankChar(raw[end - 1] as char))
  }

  lemma {:induction false} BeforeNulEnds(raw: seq<byte>)
    ensures
      var text := BeforeNul(raw);
      && text == raw[..|text|] && (forall i :: 0 <= i < |text| ==> raw[i] != 0)
      && (|text| < |raw| ==> raw[|text|] == 0)
  {
    if raw != [] && raw[0] != 0 {
      BeforeNulEnds(raw[1..]);
    }
  }

  lemma {:induction false} RStripEnds(s: seq<byte>)
    ensures
      var text := RStrip(s);
      && text == s[..|text|] && (forall i :: |text| <= i < |s| ==> IsSpace(s[i]))
      && (text != [] ==> !IsSpace(text[|text| - 1]))
    decreases |s|
  {
    if s != [] && IsSpace(s[|s| - 1]) {
      RStripEnds(s[..|s| - 1]);
    }
  }

  /** A string control's text is its bytes, one character each, up to exactly that end. */
  lemma {:induction false} TextIsPrefix(raw: seq<byte>)
    ensures
      exists end, nul ::
        && TextEnds(raw, end, nul)
        && var decoded := DecodeBytes(StringKind(|raw|), raw);
           decoded.Text? && |decoded.s| == end && forall i :: 0 <= i < end ==> decoded.s[i] as int == raw[i] as int
  {
    BeforeNulEnds(raw);
    RStripEnds(BeforeNul(raw));
    var nul, end := |BeforeNul(raw)|, |RStrip(BeforeNul(raw))|;
    assert TextEnds(raw, end, nul);
  }

  /** Only one end fits. */
  lemma TextEndIsUnique(raw: seq<byte>, end: nat, nul: nat, end': nat, nul': nat)
    requires TextEnds(raw, end, nul) && TextEnds(raw, end', nul')
    ensures end == end' && nul == nul'
  {
  }

  // ----- declared ranges

  /** The largest value a mask and shift can produce from a 16-bit word. */
  function Top(mask: nat, shift: nat): nat {
    ShiftRight(And(0xFFFF, mask), shift)
  }

  /** The value lies in the range the control's catalog entry declares. */
  predicate InDeclaredRange(kind: Kind, v: Reading) {
    match kind
    case IntegerKind(_, _, maxValue) => v.Number? && 0 <= v.n <= maxValue
    case StringKind(length) => v.Text? && |v.s| <= length
  }

  /** The metadata condition under which a control can never leave its declared range. */
  predicate DeclaresItsRange(kind: Kind) {
    kind.IntegerKind? ==> Top(kind.mask, kind.shift) <= kind.maxValue
  }

  lemma {:induction false} AndMonotone(x: nat, y: nat, m: nat, bits: nat)
    requires x < Pow2(bits) && y == Pow2(bits) - 1
    ensures And(x, m) <= And(y, m)
    decreases bits
  {
    if bits > 0 {
      assert y % 2 == 1 && y / 2 == Pow2(bits - 1) - 1;
      AndMonotone(x / 2, y / 2, m / 2, bits - 1);
      assert (x % 2) * (m % 2) <= (y % 2) * (m % 2);
      if x == 0 {
        assert And(x, m) == 0;
      }
    }
  }

  function Pow2(n: nat): (p: nat)
    ensures p > 0
  {
    if n == 0 then 1 else 2 * Pow2(n - 1)
  }

  lemma {:induction false} ShiftRightMonotone(x: nat, y: nat, n: nat)
    requires x <= y
    ensures ShiftRight(x, n) <= ShiftRight(y, n)
    decreases n
  {
    if n > 0 {
      ShiftRightMonotone(x / 2, y / 2, n - 1);
    }
  }

  /** Every bit pattern decodes into the declared range if and only if the declared maximum reaches the mask's top. */
  lemma DeclaredRangeIsExact(kind: Kind)
    ensures
      var length := if kind.IntegerKind? then 2 else kind.length;
      DeclaresItsRange(kind) <==> forall raw: seq<byte> :: |raw| == length ==>
          InDeclaredRange(kind, DecodeBytes(kind, raw))
  {
    var length := if kind.IntegerKind? then 2 else kind.length;
    if DeclaresItsRange(kind) {
      forall raw: seq<byte> | |raw| == length ensures InDeclaredRange(kind, DecodeBytes(kind, raw)) {
        DecodedInRange(kind, raw);
      }
    } else {
      var full: seq<byte> := [255, 255];
      assert DecodeBytes(kind, full) == Number(Top(kind.mask, kind.shift));
      assert |full| == length && !InDeclaredRange(kind, DecodeBytes(kind, full));
    }
  }

  lemma DecodedInRange(kind: Kind, raw: seq<byte>)
    requires DeclaresItsRange(kind) && |raw| == if kind.IntegerKind? then 2 else kind.length
    ensures InDeclaredRange(kind, DecodeBytes(kind, raw))
  {
    if kind.IntegerKind? {
      var word := raw[0] as int + 256 * (raw[1] as int);
      assert Pow2(16) == 0x1_0000 by {
        assert Pow2(4) == 16 && Pow2(8) == 16 * Pow2(4) && Pow2(12) == 16 * Pow2(8) && Pow2(16) == 16 * Pow2(12);
      }
      AndMonotone(word, 0xFFFF, kind.mask, 16);
      ShiftRightMonotone(And(word, kind.mask), And(0xFFFF, kind.mask), kind.shift);
    }
  }

  /** A maximum left out of the metadata defaults to mask >> shift, which always covers the range. */
  lemma DefaultMaximumCovers(mask: nat, shift: nat)
    ensures DeclaresItsRange(IntegerKind(mask, shift, ShiftRight(mask, shift)))
  {
    AndAtMost(0xFFFF, mask);
    ShiftRightMonotone(And(0xFFFF, mask), mask, shift);
  }

  lemma {:induction false} AndAtMost(x: nat, m: nat)
    ensures And(x, m) <= m
  {
    if x != 0 {
      AndAtMost(x / 2, m / 2);
      assert (x % 2) * (m % 2) <= m % 2;
    }
  }

  // ----- definitions by address and by aircraft

  predicate Overlaps(d: Definition, address: nat, length: nat) {
    0 < length && 0 < ByteLength(d) && d.address < address + length && address < d.address + ByteLength(d)
  }

  /** Every definition whose bytes meet the range. */
  function InRange(r: Registry, address: nat, length: nat): set<Definition> {
    set d | d in r.definitions && Overlaps(d, address, length)
  }

  function ModulesFor(r: Registry, aircraft: string): set<string> {
    (if aircraft in r.aliases then set m | m in r.aliases[aircraft] else {aircraft}) + {"CommonData"}
  }

  function Select(definitions: seq<Definition>, modules: set<string>): (r: seq<Definition>)
    ensures forall d :: d in r <==> d in definitions && d.moduleName in modules
    decreases |definitions|
  {
    if definitions == [] then []
    else
      var rest := Select(definitions[1..], modules);
      if definitions[0].moduleName in modules then [definitions[0]] + rest else rest
  }

  /** The controls published for an aircraft, in sorted order; none without an aircraft. */
  function Active(r: Registry, aircraft: Option<string>): seq<Definition> {
    if aircraft.None? then [] else Select(r.definitions, ModulesFor(r, aircraft.value))
  }

  lemma ActiveIsLocated(r: Registry, aircraft: Option<string>)
    requires WellFormed(r)
    ensures forall d :: d in Active(r, aircraft) ==> d in r.definitions && Located(d)
  {
  }

  lemma {:induction false} SelectKeepsDistinct(definitions: seq<Definition>, modules: set<string>)
    requires DistinctControls(definitions)
    ensures DistinctControls(Select(definitions, modules))
    ensures |Select(definitions, modules)| <= |definitions|
    decreases |definitions|
  {
    if definitions != [] {
      SelectKeepsDistinct(definitions[1..], modules);
    }
  }

  /**
    The published controls are those of the aircraft's own modules, its aliases if it has any, and of the common
    data.
   */
  lemma ActiveExactly(r: Registry, aircraft: Option<string>, d: Definition)
    ensures
      d in Active(r, aircraft) <==>
      && d in r.definitions && aircraft.Some?
      && (|| d.moduleName == "CommonData"
          || if aircraft.value in r.aliases then d.moduleName in r.aliases[aircraft.value]
             else d.moduleName == aircraft.value)
  {
  }

  /** Selection keeps the listing's order. */
  lemma {:induction false} SelectKeepsOrder(definitions: seq<Definition>, modules: set<string>)
    ensures Subsequence(Select(definitions, modules), definitions)
    decreases |definitions|
  {
    if definitions != [] {
      SelectKeepsOrder(definitions[1..], modules);
      var rest := Select(definitions[1..], modules);
      if definitions[0].moduleName in modules {
        assert ([definitions[0]] + rest)[1..] == rest;
      }
    }
  }

  predicate NamesAircraft(d: Definition) {
    d.moduleName == "MetadataStart" && d.identifier == "_ACFT_NAME" && d.kind.StringKind?
  }

  /** The first string control named `_ACFT_NAME` of module `MetadataStart`. */
  function AircraftName(definitions: seq<Definition>): (r: Option<Definition>)
    ensures r.Some? ==> r.value in definitions
    decreases |definitions|
  {
    if definitions == [] then None
    else if definitions[0].moduleName == "MetadataStart" && definitions[0].identifier == "_ACFT_NAME"
            && definitions[0].kind.StringKind? then Some(definitions[0])
    else AircraftName(definitions[1..])
  }

  lemma {:induction false} AircraftNameIsFirst(definitions: seq<Definition>)
    ensures
      match AircraftName(definitions)
      case None => forall d :: d in definitions ==> !NamesAircraft(d)
      case Some(d) =>
        exists i :: 0 <= i < |definitions| && definitions[i] == d && NamesAircraft(d)
                    && forall k :: 0 <= k < i ==> !NamesAircraft(definitions[k])
    decreases |definitions|
  {
    if definitions != [] && !NamesAircraft(definitions[0]) {
      AircraftNameIsFirst(definitions[1..]);
      assert forall d :: d in definitions <==> d == definitions[0] || d in definitions[1..];
      if AircraftName(definitions).Some? {
        var i :| 0 <= i < |definitions[1..]| && definitions[1..][i] == AircraftName(definitions).value
                 && forall k :: 0 <= k < i ==> !NamesAircraft(definitions[1..][k]);
        assert definitions[i + 1] == AircraftName(definitions).value;
        assert forall k :: 0 < k < i + 1 ==> definitions[k] == definitions[1..][k - 1];
      }
    }
  }

  // ----- the index

  class DcsBiosControlRegistry {
    var definitions: seq<Definition>
    var aliases: map<string, seq<string>>
    var byAddress: map<int, set<Definition>>

    function View(): Registry
      reads this
    {
      Registry(definitions, aliases)
    }

    /** The index holds, at each address, exactly the definitions that read it. */
    ghost predicate Valid()
      reads this
    {
      Indexes(byAddress, definitions)
    }

    constructor ()
      ensures Valid() && View() == Registry([], map[])
    {
      definitions, aliases, byAddress := [], map[], map[];
    }

    method Load(listing: seq<Definition>, newAliases: map<string, seq<string>>)
      modifies this
      ensures Valid() && View() == Registry(listing, newAliases)
    {
      definitions, aliases, byAddress := [], newAliases, map[];
      for i := 0 to |listing|
        invariant View() == Registry(listing[..i], newAliases) && Valid()
      {
        var d := listing[i];
        ghost var before := definitions;
        definitions := definitions + [d];
        for address := d.address to d.address + ByteLength(d)
          invariant definitions == before + [d] && aliases == newAliases
          invariant forall a :: At(byAddress, a) == Readers(before, a) + if d.address <= a < address then {d} else {}
        {
          byAddress := byAddress[address := At(byAddress, address) + {d}];
        }
        forall a ensures At(byAddress, a) == Readers(definitions, a) {
          assert forall e :: e in definitions <==> e in before || e == d;
        }
      }
    }

    /** Exactly the definitions a brute-force search over the listing would find. */
    method DefinitionsForRange(address: nat, length: nat) returns (r: set<Definition>)
      requires Valid()
      ensures r == set d | d in definitions && Overlaps(d, address, length)
    {
      r := {};
      for current := address to address + length
        invariant r == set d | d in definitions && Overlaps(d, address, current - address)
      {
        assert At(byAddress, current) == Readers(definitions, current);
        r := r + At(byAddress, current);
      }
    }
  }

  /** Decodes from the live address space. */
  method DecodeFrom(d: Definition, state: DcsBiosState) returns (r: Option<Reading>)
    requires state.Valid() && Located(d)
    ensures r == Decode(d, state.View())
  {
    var raw := state.Read(d.address, ByteLength(d));
    return match raw case Ok(Some(bytes)) => Some(DecodeBytes(d.kind, bytes)) case _ => None;
  }

  function At(index: map<int, set<Definition>>, a: int): set<Definition> {
    if a in index then index[a] else {}
  }

  function Readers(definitions: seq<Definition>, a: int): set<Definition> {
    set d | d in definitions && d.address <= a < d.address + ByteLength(d)
  }

  ghost predicate Indexes(index: map<int, set<Definition>>, definitions: seq<Definition>) {
    forall a :: At(index, a) == Readers(definitions, a)
  }
}
