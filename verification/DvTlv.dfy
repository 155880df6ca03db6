/**
 The messages of the distance-vector protocol: advertisements and prefix
 operation lists, their encodings and the parsers that read them back.
 */
module DvTlv {
  import opened Common
  import opened TlvNames

  datatype Destination = Destination(name: Option<Name>)

  datatype AdvEntry = AdvEntry(destination: Option<Destination>, nextHop: Option<Destination>, cost: nat,
                               otherCost: nat)

  type Advertisement = seq<AdvEntry>

  datatype PrefixOpAdd = PrefixOpAdd(name: Option<Name>, cost: nat)

  /** A removal has the one field that a destination has. */
  type PrefixOpRemove = Destination

  datatype PrefixOpList = PrefixOpList(exitRouter: Option<Destination>, reset: bool, adds: seq<PrefixOpAdd>,
                                       removes: seq<PrefixOpRemove>)

  // ------------------------------------------------------------------- fields

  function FieldLength(typ: nat, length: nat): nat {
    NumLength(typ) + NumLength(length) + length
  }

  function EncodeField(typ: nat, v: Bytes): (s: Bytes)
    ensures |s| == FieldLength(typ, |v|)
  {
    EncodeNum(typ) + EncodeNum(|v|) + v
  }

  /** Reads the type and the length of a field. */
  ghost function ReadHeader(s: Bytes): (r: Option<(nat, nat, Bytes)>)
    ensures r.Some? ==> |r.value.2| < |s|
  {
    var typ := ReadNum(s);
    if typ.None? then None
    else
      ReadNumSize(s);
      var len := ReadNum(typ.value.1);
      if len.None? then None
      else
        ReadNumSize(typ.value.1);
        Some((typ.value.0, len.value.0, len.value.1))
  }

  /** The bytes of a nested element, and what comes after. A length beyond the end gives an empty element in place. */
  function Delegate(len: nat, s: Bytes): (Bytes, Bytes) {
    if len > |s| then ([], s) else (s[..len], s[len..])
  }

  /** How much of the buffer comes after a nested element. */
  function Beyond(after: Bytes, slack: nat): nat {
    |after| + slack
  }

  /** What is left of an element after bytes are skipped. In the middle of a buffer, a field may reach beyond the end
      of its element by as much as the buffer has left, its slack; then nothing is left. */
  function Skip(len: nat, s: Bytes): Bytes {
    if len > |s| then [] else s[len..]
  }

  /** An unrecognised field that may not be ignored. */
  predicate Critical(typ: nat, ignoreCritical: bool) {
    !ignoreCritical && (typ <= 31 || typ % 2 == 1)
  }

  lemma HeaderRoundTrip(typ: nat, v: Bytes, rest: Bytes)
    requires typ < WORD && |v| < WORD
    ensures ReadHeader(EncodeField(typ, v) + rest) == Some((typ, |v|, v + rest)) && Delegate(|v|, v + rest) == (v, rest)
  {
    var tail := EncodeNum(|v|) + (v + rest);
    assert EncodeField(typ, v) + rest == EncodeNum(typ) + tail;
    NumRoundTrip(typ, tail);
    NumRoundTrip(|v|, v + rest);
  }

  /** What reading back a name gives. */
  ghost function ReadBack(n: Name): Option<Name> {
    ReadName(EncodeName(n))
  }

  // ------------------------------------------------------------- destinations

  function DestinationLength(d: Destination): nat {
    if d.name.None? then 0 else FieldLength(7, NameLength(d.name.value))
  }

  function EncodeDestination(d: Destination): (s: Bytes)
    ensures |s| == DestinationLength(d)
  {
    if d.name.None? then [] else EncodeField(7, EncodeName(d.name.value))
  }

  /** Reads the next field of a destination: what is left, and the name so far. */
  ghost function DestinationStep(s: Bytes, slack: nat, ignoreCritical: bool,
                                 value: Destination): (r: Option<(Bytes, Destination)>)
    requires s != []
    ensures r.Some? ==> |r.value.0| < |s|
  {
    var header := ReadHeader(s);
    if header.None? then None
    else
      var (typ, len, rest) := header.value;
      if typ == 7 then
        var (name, after) := Delegate(len, rest);
        if ReadName(name).None? then None else Some((after, Destination(ReadName(name))))
      else if Critical(typ, ignoreCritical) || len > |rest| + slack then None
      else Some((Skip(len, rest), value))
  }

  ghost function DestinationFrom(s: Bytes, slack: nat, ignoreCritical: bool, value: Destination): Option<Destination>
    decreases |s|
  {
    if s == [] then Some(value)
    else
      var next := DestinationStep(s, slack, ignoreCritical, value);
      if next.None? then None else DestinationFrom(next.value.0, slack, ignoreCritical, next.value.1)
  }

  ghost function ParseDestination(s: Bytes, slack: nat, ignoreCritical: bool): Option<Destination> {
    DestinationFrom(s, slack, ignoreCritical, Destination(None))
  }

  /** A destination as it comes back from its encoding. */
  ghost function DestinationBack(d: Destination): Option<Destination> {
    if d.name.None? then Some(d)
    else if ReadBack(d.name.value).None? then None
    else Some(Destination(ReadBack(d.name.value)))
  }

  lemma DestinationThrough(d: Destination, slack: nat, ignoreCritical: bool)
    requires DestinationLength(d) < WORD
    ensures ParseDestination(EncodeDestination(d), slack, ignoreCritical) == DestinationBack(d)
  {
    if d.name.Some? {
      var v := EncodeName(d.name.value);
      HeaderRoundTrip(7, v, []);
      var s := EncodeField(7, v) + [];
      assert s == EncodeDestination(d);
      assert forall n: Option<Name> ::
          DestinationFrom([], slack, ignoreCritical, Destination(n)) == Some(Destination(n));
    }
  }

  // ------------------------------------------------------- advertised entries

  function OptionalLength(typ: nat, d: Option<Destination>): nat {
    if d.None? then 0 else FieldLength(typ, DestinationLength(d.value))
  }

  function EncodeOptional(typ: nat, d: Option<Destination>): (s: Bytes)
    ensures |s| == OptionalLength(typ, d)
  {
    if d.None? then [] else EncodeField(typ, EncodeDestination(d.value))
  }

  function AdvEntryLength(e: AdvEntry): nat {
    OptionalLength(204, e.destination) + OptionalLength(206, e.nextHop)
    + 1 + (1 + NatLength(e.cost)) + 1 + (1 + NatLength(e.otherCost))
  }

  function EncodeAdvEntry(e: AdvEntry): (s: Bytes)
    ensures |s| == AdvEntryLength(e)
  {
    EncodeOptional(204, e.destination) + EncodeOptional(206, e.nextHop)
    + EncodeField(208, EncodeNat(e.cost)) + EncodeField(210, EncodeNat(e.otherCost))
  }

  /** The fields read so far; both costs are required in the end. */
  datatype Partial = Partial(destination: Option<Destination>, nextHop: Option<Destination>, cost: Option<nat>,
                             otherCost: Option<nat>)

  function WithDestination(value: Partial, typ: nat, d: Option<Destination>): Partial {
    if typ == 204 then value.(destination := d) else value.(nextHop := d)
  }

  function WithCost(value: Partial, typ: nat, cost: nat): Partial {
    if typ == 208 then value.(cost := Some(cost)) else value.(otherCost := Some(cost))
  }

  /** Reads the next field of an entry: what is left, and the fields so far. */
  ghost function EntryField(s: Bytes, slack: nat, ignoreCritical: bool, value: Partial): (r: Option<(Bytes, Partial)>)
    requires s != []
    ensures r.Some? ==> |r.value.0| < |s|
  {
    var header := ReadHeader(s);
    if header.None? then None
    else
      var (typ, len, rest) := header.value;
      if typ == 204 || typ == 206 then
        var (v, after) := Delegate(len, rest);
        var d := ParseDestination(v, Beyond(after, slack), ignoreCritical);
        if d.None? then None else Some((after, WithDestination(value, typ, d)))
      else if typ == 208 || typ == 210 then
        if len > |rest| then None else Some((rest[len..], WithCost(value, typ, Spelled(rest[..len]) % WORD)))
      else if Critical(typ, ignoreCritical) || len > |rest| + slack then None
      else Some((Skip(len, rest), value))
  }

  ghost function AdvEntryFrom(s: Bytes, slack: nat, ignoreCritical: bool, value: Partial): Option<AdvEntry>
    decreases |s|
  {
    if s == [] then
      if value.cost.None? || value.otherCost.None? then None
      else Some(AdvEntry(value.destination, value.nextHop, value.cost.value, value.otherCost.value))
    else
      var next := EntryField(s, slack, ignoreCritical, value);
      if next.None? then None else AdvEntryFrom(next.value.0, slack, ignoreCritical, next.value.1)
  }

  ghost function ParseAdvEntry(s: Bytes, slack: nat, ignoreCritical: bool): Option<AdvEntry> {
    AdvEntryFrom(s, slack, ignoreCritical, Partial(None, None, None, None))
  }

  ghost function OptionalBack(d: Option<Destination>): Option<Option<Destination>> {
    if d.None? then Some(None)
    else if DestinationBack(d.value).None? then None
    else Some(DestinationBack(d.value))
  }

  ghost function AdvEntryBack(e: AdvEntry): Option<AdvEntry> {
    var d, h := OptionalBack(e.destination), OptionalBack(e.nextHop);
    if d.None? || h.None? then None else Some(e.(destination := d.value, nextHop := h.value))
  }

  lemma CostField(typ: nat, cost: nat, rest: Bytes, slack: nat, ignoreCritical: bool, value: Partial)
    requires (typ == 208 || typ == 210) && cost < WORD
    ensures EntryField(EncodeField(typ, EncodeNat(cost)) + rest, slack, ignoreCritical, value) ==
            Some((rest, WithCost(value, typ, cost)))
  {
    var v := EncodeNat(cost);
    HeaderRoundTrip(typ, v, rest);
    assert (v + rest)[..|v|] == v && (v + rest)[|v|..] == rest;
    assert Spelled(v) % WORD == cost by { NatRoundTrip(cost); }
  }

  lemma CostFirst(typ: nat, cost: nat, rest: Bytes, slack: nat, ignoreCritical: bool, value: Partial)
    requires (typ == 208 || typ == 210) && cost < WORD
    ensures AdvEntryFrom(EncodeField(typ, EncodeNat(cost)) + rest, slack, ignoreCritical, value) ==
            AdvEntryFrom(rest, slack, ignoreCritical, WithCost(value, typ, cost))
  {
    CostField(typ, cost, rest, slack, ignoreCritical, value);
  }

  /** What a nested destination makes of the fields so far. */
  lemma NestedField(s: Bytes, slack: nat, ignoreCritical: bool, value: Partial, typ: nat, len: nat, rest: Bytes,
                    v: Bytes, after: Bytes, d: Option<Destination>)
    requires s != [] && ReadHeader(s) == Some((typ, len, rest)) && (typ == 204 || typ == 206)
    requires Delegate(len, rest) == (v, after) && ParseDestination(v, Beyond(after, slack), ignoreCritical) == d
    ensures EntryField(s, slack, ignoreCritical, value) ==
            if d.None? then None else Some((after, WithDestination(value, typ, d)))
  {
  }

  lemma DestinationField(typ: nat, d: Destination, rest: Bytes, slack: nat, ignoreCritical: bool, value: Partial)
    requires (typ == 204 || typ == 206) && DestinationLength(d) < WORD
    ensures EntryField(EncodeField(typ, EncodeDestination(d)) + rest, slack, ignoreCritical, value) ==
            if DestinationBack(d).None? then None else Some((rest, WithDestination(value, typ, DestinationBack(d))))
  {
    var v := EncodeDestination(d);
    HeaderRoundTrip(typ, v, rest);
    DestinationThrough(d, Beyond(rest, slack), ignoreCritical);
    assert ParseDestination(v, Beyond(rest, slack), ignoreCritical) == DestinationBack(d);
    NestedField(EncodeField(typ, v) + rest, slack, ignoreCritical, value, typ, |v|, v + rest, v, rest,
                DestinationBack(d));
  }

  lemma DestinationFirst(typ: nat, d: Option<Destination>, rest: Bytes, slack: nat, ignoreCritical: bool,
                         value: Partial)
    requires (typ == 204 || typ == 206) && (d.Some? ==> DestinationLength(d.value) < WORD)
    requires (if typ == 204 then value.destination else value.nextHop) == None
    ensures AdvEntryFrom(EncodeOptional(typ, d) + rest, slack, ignoreCritical, value) ==
            if OptionalBack(d).None? then None
            else AdvEntryFrom(rest, slack, ignoreCritical, WithDestination(value, typ, OptionalBack(d).value))
  {
    if d.None? {
      assert EncodeOptional(typ, d) + rest == rest;
      assert WithDestination(value, typ, None) == value;
    } else {
      DestinationField(typ, d.value, rest, slack, ignoreCritical, value);
    }
  }

  ghost predicate FitsEntry(e: AdvEntry) {
    AdvEntryLength(e) < WORD && e.cost < WORD && e.otherCost < WORD
  }

  ghost function Costs(e: AdvEntry): Bytes {
    EncodeField(208, EncodeNat(e.cost)) + (EncodeField(210, EncodeNat(e.otherCost)) + [])
  }

  lemma CostsThrough(e: AdvEntry, slack: nat, ignoreCritical: bool, value: Partial)
    requires e.cost < WORD && e.otherCost < WORD
    ensures AdvEntryFrom(Costs(e), slack, ignoreCritical, value) ==
            Some(AdvEntry(value.destination, value.nextHop, e.cost, e.otherCost))
  {
    CostFirst(208, e.cost, EncodeField(210, EncodeNat(e.otherCost)) + [], slack, ignoreCritical, value);
    CostFirst(210, e.otherCost, [], slack, ignoreCritical, value.(cost := Some(e.cost)));
  }

  lemma EntryParts(e: AdvEntry)
    ensures EncodeAdvEntry(e) == EncodeOptional(204, e.destination) + (EncodeOptional(206, e.nextHop) + Costs(e))
  {
    var o := EncodeField(210, EncodeNat(e.otherCost));
    assert o + [] == o;
  }

  lemma AdvEntryThrough(e: AdvEntry, slack: nat, ignoreCritical: bool)
    requires FitsEntry(e)
    ensures ParseAdvEntry(EncodeAdvEntry(e), slack, ignoreCritical) == AdvEntryBack(e)
  {
    EntryParts(e);
    var p0 := Partial(None, None, None, None);
    DestinationFirst(204, e.destination, EncodeOptional(206, e.nextHop) + Costs(e), slack, ignoreCritical, p0);
    if OptionalBack(e.destination).Some? {
      var p1 := p0.(destination := OptionalBack(e.destination).value);
      DestinationFirst(206, e.nextHop, Costs(e), slack, ignoreCritical, p1);
      if OptionalBack(e.nextHop).Some? {
        CostsThrough(e, slack, ignoreCritical, p1.(nextHop := OptionalBack(e.nextHop).value));
      }
    }
  }

  // ------------------------------------------------------------ advertisements

  function AdvertisementLength(a: Advertisement): nat {
    if a == [] then 0 else FieldLength(202, AdvEntryLength(a[0])) + AdvertisementLength(a[1..])
  }

  function EncodeAdvertisement(a: Advertisement): (s: Bytes)
    ensures |s| == AdvertisementLength(a)
  {
    if a == [] then [] else EncodeField(202, EncodeAdvEntry(a[0])) + EncodeAdvertisement(a[1..])
  }

  ghost function AdvertisementFrom(s: Bytes, ignoreCritical: bool, value: Advertisement): Option<Advertisement>
    decreases |s|
  {
    if s == [] then Some(value)
    else
      var header := ReadHeader(s);
      if header.None? then None
      else
        var (typ, len, rest) := header.value;
        if typ == 202 then
          var (v, after) := Delegate(len, rest);
          var e := ParseAdvEntry(v, |after|, ignoreCritical);
          if e.None? then None else AdvertisementFrom(after, ignoreCritical, value + [e.value])
        else if Critical(typ, ignoreCritical) || len > |rest| then None
        else AdvertisementFrom(rest[len..], ignoreCritical, value)
  }

  ghost function ParseAdvertisement(s: Bytes, ignoreCritical: bool): Option<Advertisement> {
    AdvertisementFrom(s, ignoreCritical, [])
  }

  ghost function AdvertisementBack(a: Advertisement): Option<Advertisement> {
    if a == [] then Some([])
    else
      var e, rest := AdvEntryBack(a[0]), AdvertisementBack(a[1..]);
      if e.None? || rest.None? then None else Some([e.value] + rest.value)
  }

  ghost predicate FitsAdvertisement(a: Advertisement) {
    forall i :: 0 <= i < |a| ==> FitsEntry(a[i])
  }

  lemma EntryFirst(e: AdvEntry, rest: Bytes, ignoreCritical: bool, value: Advertisement)
    requires FitsEntry(e)
    ensures AdvertisementFrom(EncodeField(202, EncodeAdvEntry(e)) + rest, ignoreCritical, value) ==
            if AdvEntryBack(e).None? then None else AdvertisementFrom(rest, ignoreCritical,
                                                                      value + [AdvEntryBack(e).value])
  {
    HeaderRoundTrip(202, EncodeAdvEntry(e), rest);
    AdvEntryThrough(e, |rest|, ignoreCritical);
  }

  ghost function Joined<T>(value: seq<T>, more: Option<seq<T>>): Option<seq<T>> {
    if more.None? then None else Some(value + more.value)
  }

  lemma JoinedNext<T>(value: seq<T>, x: T, more: Option<seq<T>>)
    ensures Joined(value + [x], more) == Joined(value, if more.None? then None else Some([x] + more.value))
  {
    if more.Some? {
      assert value + [x] + more.value == value + ([x] + more.value);
    }
  }

  lemma {:induction false} AdvertisementThrough(a: Advertisement, ignoreCritical: bool, value: Advertisement)
    requires FitsAdvertisement(a)
    ensures AdvertisementFrom(EncodeAdvertisement(a), ignoreCritical, value) == Joined(value, AdvertisementBack(a))
    decreases |a|
  {
    if a == [] {
      assert value + [] == value;
    } else {
      EntryFirst(a[0], EncodeAdvertisement(a[1..]), ignoreCritical, value);
      if AdvEntryBack(a[0]).Some? {
        var e := AdvEntryBack(a[0]).value;
        AdvertisementThrough(a[1..], ignoreCritical, value + [e]);
        JoinedNext(value, e, AdvertisementBack(a[1..]));
      }
    }
  }

  // --------------------------------------------------------- prefix operations

  function PrefixOpAddLength(a: PrefixOpAdd): nat {
    DestinationLength(Destination(a.name)) + 1 + (1 + NatLength(a.cost))
  }

  function EncodePrefixOpAdd(a: PrefixOpAdd): (s: Bytes)
    ensures |s| == PrefixOpAddLength(a)
  {
    EncodeDestination(Destination(a.name)) + EncodeField(208, EncodeNat(a.cost))
  }

  ghost function PrefixOpAddFrom(s: Bytes, slack: nat, ignoreCritical: bool, name: Option<Name>,
                                 cost: Option<nat>): Option<PrefixOpAdd>
    decreases |s|
  {
    if s == [] then (if cost.None? then None else Some(PrefixOpAdd(name, cost.value)))
    else
      var header := ReadHeader(s);
      if header.None? then None
      else
        var (typ, len, rest) := header.value;
        if typ == 7 then
          var (v, after) := Delegate(len, rest);
          if ReadName(v).None? then None else PrefixOpAddFrom(after, slack, ignoreCritical, ReadName(v), cost)
        else if typ == 208 then
          if len > |rest| then None
          else PrefixOpAddFrom(rest[len..], slack, ignoreCritical, name, Some(Spelled(rest[..len]) % WORD))
        else if Critical(typ, ignoreCritical) || len > |rest| + slack then None
        else PrefixOpAddFrom(Skip(len, rest), slack, ignoreCritical, name, cost)
  }

  ghost function ParsePrefixOpAdd(s: Bytes, slack: nat, ignoreCritical: bool): Option<PrefixOpAdd> {
    PrefixOpAddFrom(s, slack, ignoreCritical, None, None)
  }

  ghost function PrefixOpAddBack(a: PrefixOpAdd): Option<PrefixOpAdd> {
    var d := DestinationBack(Destination(a.name));
    if d.None? then None else Some(a.(name := d.value.name))
  }

  ghost predicate FitsAdd(a: PrefixOpAdd) {
    PrefixOpAddLength(a) < WORD && a.cost < WORD
  }

  lemma AddCostThrough(name: Option<Name>, cost: nat, slack: nat, ignoreCritical: bool)
    requires cost < WORD
    ensures PrefixOpAddFrom(EncodeField(208, EncodeNat(cost)), slack, ignoreCritical, name, None) ==
            Some(PrefixOpAdd(name, cost))
  {
    var v := EncodeNat(cost);
    HeaderRoundTrip(208, v, []);
    assert EncodeField(208, v) + [] == EncodeField(208, v);
    assert (v + [])[..|v|] == v && (v + [])[|v|..] == [];
    assert Spelled(v) % WORD == cost by { NatRoundTrip(cost); }
  }

  lemma PrefixOpAddThrough(a: PrefixOpAdd, slack: nat, ignoreCritical: bool)
    requires FitsAdd(a)
    ensures ParsePrefixOpAdd(EncodePrefixOpAdd(a), slack, ignoreCritical) == PrefixOpAddBack(a)
  {
    var c := EncodeField(208, EncodeNat(a.cost));
    if a.name.None? {
      assert EncodePrefixOpAdd(a) == c;
      AddCostThrough(None, a.cost, slack, ignoreCritical);
    } else {
      HeaderRoundTrip(7, EncodeName(a.name.value), c);
      AddCostThrough(ReadBack(a.name.value), a.cost, slack, ignoreCritical);
    }
  }

  function AddsLength(adds: seq<PrefixOpAdd>): nat {
    if adds == [] then 0 else FieldLength(304, PrefixOpAddLength(adds[0])) + AddsLength(adds[1..])
  }

  function EncodeAdds(adds: seq<PrefixOpAdd>): (s: Bytes)
    ensures |s| == AddsLength(adds)
  {
    if adds == [] then [] else EncodeField(304, EncodePrefixOpAdd(adds[0])) + EncodeAdds(adds[1..])
  }

  function RemovesLength(removes: seq<PrefixOpRemove>): nat {
    if removes == [] then 0 else FieldLength(306, DestinationLength(removes[0])) + RemovesLength(removes[1..])
  }

  function EncodeRemoves(removes: seq<PrefixOpRemove>): (s: Bytes)
    ensures |s| == RemovesLength(removes)
  {
    if removes == [] then [] else EncodeField(306, EncodeDestination(removes[0])) + EncodeRemoves(removes[1..])
  }

  function EncodeReset(reset: bool): Bytes {
    if reset then EncodeField(302, []) else []
  }

  function PrefixOpListLength(l: PrefixOpList): nat {
    OptionalLength(204, l.exitRouter) + (if l.reset then 3 + 1 else 0) + AddsLength(l.adds) + RemovesLength(l.removes)
  }

  function EncodePrefixOpList(l: PrefixOpList): (s: Bytes)
    ensures |s| == PrefixOpListLength(l)
  {
    EncodeOptional(204, l.exitRouter) + EncodeReset(l.reset) + EncodeAdds(l.adds) + EncodeRemoves(l.removes)
  }

  ghost function PrefixOpListFrom(s: Bytes, ignoreCritical: bool, value: PrefixOpList): Option<PrefixOpList>
    decreases |s|
  {
    if s == [] then Some(value)
    else
      var header := ReadHeader(s);
      if header.None? then None
      else
        var (typ, len, rest) := header.value;
        var (v, after) := Delegate(len, rest);
        if typ == 204 then
          var d := ParseDestination(v, |after|, ignoreCritical);
          if d.None? then None else PrefixOpListFrom(after, ignoreCritical, value.(exitRouter := d))
        else if typ == 304 then
          var a := ParsePrefixOpAdd(v, |after|, ignoreCritical);
          if a.None? then None else PrefixOpListFrom(after, ignoreCritical, value.(adds := value.adds + [a.value]))
        else if typ == 306 then
          var d := ParseDestination(v, |after|, ignoreCritical);
          if d.None? then None else PrefixOpListFrom(after, ignoreCritical,
                                                     value.(removes := value.removes + [d.value]))
        else if (typ != 302 && Critical(typ, ignoreCritical)) || len > |rest| then None
        else PrefixOpListFrom(after, ignoreCritical, if typ == 302 then value.(reset := true) else value)
  }

  ghost function ParsePrefixOpList(s: Bytes, ignoreCritical: bool): Option<PrefixOpList> {
    PrefixOpListFrom(s, ignoreCritical, PrefixOpList(None, false, [], []))
  }

  ghost function AddsBack(adds: seq<PrefixOpAdd>): Option<seq<PrefixOpAdd>> {
    if adds == [] then Some([])
    else
      var a, rest := PrefixOpAddBack(adds[0]), AddsBack(adds[1..]);
      if a.None? || rest.None? then None else Some([a.value] + rest.value)
  }

  ghost function RemovesBack(removes: seq<PrefixOpRemove>): Option<seq<PrefixOpRemove>> {
    if removes == [] then Some([])
    else
      var d, rest := DestinationBack(removes[0]), RemovesBack(removes[1..]);
      if d.None? || rest.None? then None else Some([d.value] + rest.value)
  }

  ghost predicate FitsList(l: PrefixOpList) {
    && (l.exitRouter.Some? ==> DestinationLength(l.exitRouter.value) < WORD)
    && (forall i :: 0 <= i < |l.adds| ==> FitsAdd(l.adds[i]))
    && (forall i :: 0 <= i < |l.removes| ==> DestinationLength(l.removes[i]) < WORD)
  }

  lemma AddFirst(a: PrefixOpAdd, rest: Bytes, ignoreCritical: bool, value: PrefixOpList)
    requires FitsAdd(a)
    ensures PrefixOpListFrom(EncodeField(304, EncodePrefixOpAdd(a)) + rest, ignoreCritical, value) ==
            if PrefixOpAddBack(a).None? then None
            else PrefixOpListFrom(rest, ignoreCritical, value.(adds := value.adds + [PrefixOpAddBack(a).value]))
  {
    HeaderRoundTrip(304, EncodePrefixOpAdd(a), rest);
    PrefixOpAddThrough(a, |rest|, ignoreCritical);
  }

  lemma RemoveFirst(d: PrefixOpRemove, rest: Bytes, ignoreCritical: bool, value: PrefixOpList)
    requires DestinationLength(d) < WORD
    ensures PrefixOpListFrom(EncodeField(306, EncodeDestination(d)) + rest, ignoreCritical, value) ==
            if DestinationBack(d).None? then None
            else PrefixOpListFrom(rest, ignoreCritical, value.(removes := value.removes + [DestinationBack(d).value]))
  {
    HeaderRoundTrip(306, EncodeDestination(d), rest);
    DestinationThrough(d, |rest|, ignoreCritical);
  }

  lemma AddsParts(adds: seq<PrefixOpAdd>, rest: Bytes)
    requires adds != []
    ensures EncodeAdds(adds) + rest == EncodeField(304, EncodePrefixOpAdd(adds[0])) + (EncodeAdds(adds[1..]) + rest)
  {
  }

  lemma {:induction false} AddsThrough(adds: seq<PrefixOpAdd>, rest: Bytes, ignoreCritical: bool, value: PrefixOpList)
    requires forall i :: 0 <= i < |adds| ==> FitsAdd(adds[i])
    ensures PrefixOpListFrom(EncodeAdds(adds) + rest, ignoreCritical, value) ==
            if AddsBack(adds).None? then None
            else PrefixOpListFrom(rest, ignoreCritical, value.(adds := value.adds + AddsBack(adds).value))
    decreases |adds|
  {
    if adds == [] {
      assert EncodeAdds(adds) + rest == rest && value.adds + [] == value.adds;
    } else {
      AddsParts(adds, rest);
      AddFirst(adds[0], EncodeAdds(adds[1..]) + rest, ignoreCritical, value);
      if PrefixOpAddBack(adds[0]).Some? {
        var a := PrefixOpAddBack(adds[0]).value;
        AddsThrough(adds[1..], rest, ignoreCritical, value.(adds := value.adds + [a]));
        JoinedNext(value.adds, a, AddsBack(adds[1..]));
      }
    }
  }

  lemma {:induction false} RemovesThrough(removes: seq<PrefixOpRemove>, ignoreCritical: bool, value: PrefixOpList)
    requires forall i :: 0 <= i < |removes| ==> DestinationLength(removes[i]) < WORD
    ensures PrefixOpListFrom(EncodeRemoves(removes), ignoreCritical, value) ==
            if RemovesBack(removes).None? then None else Some(value.(removes := value.removes
                                                                     + RemovesBack(removes).value))
    decreases |removes|
  {
    if removes == [] {
      assert value.removes + [] == value.removes;
    } else {
      RemoveFirst(removes[0], EncodeRemoves(removes[1..]), ignoreCritical, value);
      if DestinationBack(removes[0]).Some? {
        var d := DestinationBack(removes[0]).value;
        RemovesThrough(removes[1..], ignoreCritical, value.(removes := value.removes + [d]));
        JoinedNext(value.removes, d, RemovesBack(removes[1..]));
      }
    }
  }

  lemma ExitFirst(d: Option<Destination>, rest: Bytes, ignoreCritical: bool, value: PrefixOpList)
    requires (d.Some? ==> DestinationLength(d.value) < WORD) && value.exitRouter == None
    ensures PrefixOpListFrom(EncodeOptional(204, d) + rest, ignoreCritical, value) ==
            if OptionalBack(d).None? then None else PrefixOpListFrom(rest, ignoreCritical,
                                                                     value.(exitRouter := OptionalBack(d).value))
  {
    if d.None? {
      assert EncodeOptional(204, d) + rest == rest;
    } else {
      HeaderRoundTrip(204, EncodeDestination(d.value), rest);
      DestinationThrough(d.value, |rest|, ignoreCritical);
    }
  }

  lemma ResetFirst(reset: bool, rest: Bytes, ignoreCritical: bool, value: PrefixOpList)
    requires !value.reset
    ensures PrefixOpListFrom(EncodeReset(reset) + rest, ignoreCritical, value) ==
            PrefixOpListFrom(rest, ignoreCritical, value.(reset := reset))
  {
    if reset {
      HeaderRoundTrip(302, [], rest);
      assert [] + rest == rest;
    } else {
      assert EncodeReset(reset) + rest == rest;
    }
  }

  ghost function PrefixOpListBack(l: PrefixOpList): Option<PrefixOpList> {
    var d, adds, removes := OptionalBack(l.exitRouter), AddsBack(l.adds), RemovesBack(l.removes);
    if d.None? || adds.None? || removes.None? then None
    else Some(PrefixOpList(d.value, l.reset, adds.value, removes.value))
  }

  lemma OpsThrough(adds: seq<PrefixOpAdd>, removes: seq<PrefixOpRemove>, ignoreCritical: bool,
                   exit: Option<Destination>, reset: bool)
    requires FitsList(PrefixOpList(None, reset, adds, removes))
    ensures PrefixOpListFrom(EncodeAdds(adds) + EncodeRemoves(removes), ignoreCritical,
                             PrefixOpList(exit, reset, [], [])) ==
            if AddsBack(adds).None? || RemovesBack(removes).None? then None
            else Some(PrefixOpList(exit, reset, AddsBack(adds).value, RemovesBack(removes).value))
  {
    AddsThrough(adds, EncodeRemoves(removes), ignoreCritical, PrefixOpList(exit, reset, [], []));
    if AddsBack(adds).Some? {
      assert [] + AddsBack(adds).value == AddsBack(adds).value;
      RemovesThrough(removes, ignoreCritical, PrefixOpList(exit, reset, AddsBack(adds).value, []));
      assert RemovesBack(removes).Some? ==> [] + RemovesBack(removes).value == RemovesBack(removes).value;
    }
  }

  lemma ListParts(l: PrefixOpList)
    ensures EncodePrefixOpList(l) ==
            EncodeOptional(204, l.exitRouter) + (EncodeReset(l.reset) + (EncodeAdds(l.adds) + EncodeRemoves(l.removes)))
  {
  }

  lemma PrefixOpListThrough(l: PrefixOpList, ignoreCritical: bool)
    requires FitsList(l)
    ensures ParsePrefixOpList(EncodePrefixOpList(l), ignoreCritical) == PrefixOpListBack(l)
  {
    ListParts(l);
    var ops := EncodeAdds(l.adds) + EncodeRemoves(l.removes);
    ExitFirst(l.exitRouter, EncodeReset(l.reset) + ops, ignoreCritical, PrefixOpList(None, false, [], []));
    if OptionalBack(l.exitRouter).Some? {
      var exit := OptionalBack(l.exitRouter).value;
      ResetFirst(l.reset, ops, ignoreCritical, PrefixOpList(exit, false, [], []));
      OpsThrough(l.adds, l.removes, ignoreCritical, exit, l.reset);
    }
  }

  // ------------------------------------------------------------------ theorems

  ghost predicate ShortDestination(d: Destination) {
    d.name.Some? ==> Short(d.name.value)
  }

  ghost predicate ShortOptional(d: Option<Destination>) {
    d.Some? ==> ShortDestination(d.value)
  }

  ghost predicate TypedOptional(d: Option<Destination>) {
    d.Some? && d.value.name.Some? ==> Typed(d.value.name.value)
  }

  ghost predicate ShortEntry(e: AdvEntry) {
    ShortOptional(e.destination) && ShortOptional(e.nextHop)
  }

  ghost predicate TypedEntry(e: AdvEntry) {
    TypedOptional(e.destination) && TypedOptional(e.nextHop)
  }

  lemma OptionalSame(d: Option<Destination>)
    requires TypedOptional(d)
    ensures OptionalBack(d) == Some(d) <==> ShortOptional(d)
  {
    if d.Some? && d.value.name.Some? {
      NameRoundTrip(d.value.name.value);
    }
  }

  lemma EntrySame(e: AdvEntry)
    requires TypedEntry(e)
    ensures AdvEntryBack(e) == Some(e) <==> ShortEntry(e)
  {
    OptionalSame(e.destination);
    OptionalSame(e.nextHop);
  }

  lemma FirstSame(a: Advertisement)
    requires a != []
    ensures AdvertisementBack(a) == Some(a) <==>
              AdvEntryBack(a[0]) == Some(a[0]) && AdvertisementBack(a[1..]) == Some(a[1..])
  {
    if AdvertisementBack(a) == Some(a) {
      var b := AdvertisementBack(a).value;
      assert b[0] == a[0] && b[1..] == a[1..];
    }
    assert a == [a[0]] + a[1..];
  }

  lemma {:induction false} AdvertisementSame(a: Advertisement)
    requires forall i :: 0 <= i < |a| ==> TypedEntry(a[i])
    ensures AdvertisementBack(a) == Some(a) <==> forall i :: 0 <= i < |a| ==> ShortEntry(a[i])
  {
    if a == [] {
    } else {
      AdvertisementSame(a[1..]);
      EntrySame(a[0]);
      FirstSame(a);
      assert forall i :: 0 < i < |a| ==> a[i] == a[1..][i - 1];
      assert forall i :: 0 <= i < |a| - 1 ==> a[1..][i] == a[i + 1];
    }
  }

  /** An advertisement comes back from its encoding exactly when no name in it has a component of 253 bytes or more. */
  lemma AdvertisementRoundTrip(a: Advertisement, ignoreCritical: bool)
    requires FitsAdvertisement(a) && forall i :: 0 <= i < |a| ==> TypedEntry(a[i])
    ensures ParseAdvertisement(EncodeAdvertisement(a), ignoreCritical) == Some(a) <==>
            forall i :: 0 <= i < |a| ==> ShortEntry(a[i])
  {
    AdvertisementThrough(a, ignoreCritical, []);
    AdvertisementSame(a);
    assert AdvertisementBack(a).Some? ==> [] + AdvertisementBack(a).value == AdvertisementBack(a).value;
  }

  ghost predicate ShortNames(l: PrefixOpList) {
    && ShortOptional(l.exitRouter)
    && (forall i :: 0 <= i < |l.adds| ==> ShortDestination(Destination(l.adds[i].name)))
    && (forall i :: 0 <= i < |l.removes| ==> ShortDestination(l.removes[i]))
  }

  ghost predicate TypedNames(l: PrefixOpList) {
    && TypedOptional(l.exitRouter)
    && (forall i :: 0 <= i < |l.adds| ==> TypedOptional(Some(Destination(l.adds[i].name))))
    && (forall i :: 0 <= i < |l.removes| ==> TypedOptional(Some(l.removes[i])))
  }

  lemma DestinationSame(d: Destination)
    requires TypedOptional(Some(d))
    ensures DestinationBack(d) == Some(d) <==> ShortDestination(d)
  {
    OptionalSame(Some(d));
  }

  lemma FirstAddSame(adds: seq<PrefixOpAdd>)
    requires adds != []
    ensures AddsBack(adds) == Some(adds) <==>
              PrefixOpAddBack(adds[0]) == Some(adds[0]) && AddsBack(adds[1..]) == Some(adds[1..])
  {
    if AddsBack(adds) == Some(adds) {
      var b := AddsBack(adds).value;
      assert b[0] == adds[0] && b[1..] == adds[1..];
    }
    assert adds == [adds[0]] + adds[1..];
  }

  lemma {:induction false} AddsSame(adds: seq<PrefixOpAdd>)
    requires forall i :: 0 <= i < |adds| ==> TypedOptional(Some(Destination(adds[i].name)))
    ensures AddsBack(adds) == Some(adds) <==> forall i :: 0 <= i < |adds| ==>
              ShortDestination(Destination(adds[i].name))
  {
    if adds == [] {
    } else {
      AddsSame(adds[1..]);
      DestinationSame(Destination(adds[0].name));
      FirstAddSame(adds);
      assert forall i :: 0 < i < |adds| ==> adds[i] == adds[1..][i - 1];
      assert forall i :: 0 <= i < |adds| - 1 ==> adds[1..][i] == adds[i + 1];
    }
  }

  lemma FirstRemoveSame(removes: seq<PrefixOpRemove>)
    requires removes != []
    ensures RemovesBack(removes) == Some(removes) <==>
            DestinationBack(removes[0]) == Some(removes[0]) && RemovesBack(removes[1..]) == Some(removes[1..])
  {
    if RemovesBack(removes) == Some(removes) {
      var b := RemovesBack(removes).value;
      assert b[0] == removes[0] && b[1..] == removes[1..];
    }
    assert removes == [removes[0]] + removes[1..];
  }

  lemma {:induction false} RemovesSame(removes: seq<PrefixOpRemove>)
    requires forall i :: 0 <= i < |removes| ==> TypedOptional(Some(removes[i]))
    ensures RemovesBack(removes) == Some(removes) <==> forall i :: 0 <= i < |removes| ==> ShortDestination(removes[i])
  {
    if removes == [] {
    } else {
      RemovesSame(removes[1..]);
      DestinationSame(removes[0]);
      FirstRemoveSame(removes);
      assert forall i :: 0 < i < |removes| ==> removes[i] == removes[1..][i - 1];
      assert forall i :: 0 <= i < |removes| - 1 ==> removes[1..][i] == removes[i + 1];
    }
  }

  /** And so does a prefix operation list. */
  lemma PrefixOpListRoundTrip(l: PrefixOpList, ignoreCritical: bool)
    requires FitsList(l) && TypedNames(l)
    ensures ParsePrefixOpList(EncodePrefixOpList(l), ignoreCritical) == Some(l) <==> ShortNames(l)
  {
    PrefixOpListThrough(l, ignoreCritical);
    OptionalSame(l.exitRouter);
    AddsSame(l.adds);
    RemovesSame(l.removes);
  }

  // ------------------------------------------------------- unknown and cut fields

  /** A field of a type that the parser does not know is skipped, wherever it stands, unless its type is below 32 or odd
      and such types are not to be ignored. */
  lemma UnknownInDestination(typ: nat, v: Bytes, rest: Bytes, slack: nat, ignoreCritical: bool, value: Destination)
    requires typ < WORD && |v| < WORD && typ != 7
    ensures DestinationFrom(EncodeField(typ, v) + rest, slack, ignoreCritical, value) ==
            if !ignoreCritical && (typ < 32 || typ % 2 == 1) then None
            else DestinationFrom(rest, slack, ignoreCritical, value)
  {
    HeaderRoundTrip(typ, v, rest);
    assert Skip(|v|, v + rest) == rest;
  }

  lemma UnknownInEntry(typ: nat, v: Bytes, rest: Bytes, slack: nat, ignoreCritical: bool, value: Partial)
    requires typ < WORD && |v| < WORD && typ !in {204, 206, 208, 210}
    ensures AdvEntryFrom(EncodeField(typ, v) + rest, slack, ignoreCritical, value) ==
            if !ignoreCritical && (typ < 32 || typ % 2 == 1) then None
            else AdvEntryFrom(rest, slack, ignoreCritical, value)
  {
    HeaderRoundTrip(typ, v, rest);
    assert Skip(|v|, v + rest) == rest;
  }

  lemma UnknownInAdvertisement(typ: nat, v: Bytes, rest: Bytes, ignoreCritical: bool, value: Advertisement)
    requires typ < WORD && |v| < WORD && typ != 202
    ensures AdvertisementFrom(EncodeField(typ, v) + rest, ignoreCritical, value) ==
            if !ignoreCritical && (typ < 32 || typ % 2 == 1) then None
            else AdvertisementFrom(rest, ignoreCritical, value)
  {
    HeaderRoundTrip(typ, v, rest);
    assert (v + rest)[|v|..] == rest;
  }

  lemma UnknownInAdd(typ: nat, v: Bytes, rest: Bytes, slack: nat, ignoreCritical: bool, name: Option<Name>,
                     cost: Option<nat>)
    requires typ < WORD && |v| < WORD && typ !in {7, 208}
    ensures PrefixOpAddFrom(EncodeField(typ, v) + rest, slack, ignoreCritical, name, cost) ==
            if !ignoreCritical && (typ < 32 || typ % 2 == 1) then None
            else PrefixOpAddFrom(rest, slack, ignoreCritical, name, cost)
  {
    HeaderRoundTrip(typ, v, rest);
    assert Skip(|v|, v + rest) == rest;
  }

  lemma UnknownInList(typ: nat, v: Bytes, rest: Bytes, ignoreCritical: bool, value: PrefixOpList)
    requires typ < WORD && |v| < WORD && typ !in {204, 302, 304, 306}
    ensures PrefixOpListFrom(EncodeField(typ, v) + rest, ignoreCritical, value) ==
            if !ignoreCritical && (typ < 32 || typ % 2 == 1) then None
            else PrefixOpListFrom(rest, ignoreCritical, value)
  {
    HeaderRoundTrip(typ, v, rest);
  }

  /** A number that is cut off is not read. */
  lemma CutNumber(x: nat, k: nat)
    requires x < WORD && k < NumLength(x)
    ensures ReadNum(EncodeNum(x)[..k]).None?
  {
    var s := EncodeNum(x);
    assert k > 0 ==> s[..k][0] == s[0];
  }

  /** What is read of a field that is cut off: nothing, or a length that reaches beyond the end. */
  lemma CutHeader(typ: nat, v: Bytes, k: nat)
    requires typ < WORD && |v| < WORD && k < FieldLength(typ, |v|)
    ensures var header := ReadHeader(EncodeField(typ, v)[..k]);
            header.None? || (header.value.0 == typ && header.value.1 == |v| > |header.value.2|)
  {
    var a, b, s := EncodeNum(typ), EncodeNum(|v|), EncodeField(typ, v)[..k];
    if k < |a| {
      CutNumber(typ, k);
      assert s == a[..k];
    } else {
      var tail := (b + v)[..k - |a|];
      CutLength(v, k - |a|);
      NumRoundTrip(typ, tail);
      assert s == a + tail;
    }
  }

  lemma CutLength(v: Bytes, k: nat)
    requires |v| < WORD && k < NumLength(|v|) + |v|
    ensures var len := ReadNum((EncodeNum(|v|) + v)[..k]);
            len.None? || (len.value.0 == |v| > |len.value.1|)
  {
    var b, s := EncodeNum(|v|), (EncodeNum(|v|) + v)[..k];
    if k < |b| {
      CutNumber(|v|, k);
      assert s == b[..k];
    } else {
      NumRoundTrip(|v|, v[..k - |b|]);
      assert s == b + v[..k - |b|];
    }
  }

  /** An advertisement that ends inside an entry is refused. */
  lemma CutAdvertisement(e: AdvEntry, k: nat, ignoreCritical: bool, value: Advertisement)
    requires AdvEntryLength(e) < WORD && 0 < k < FieldLength(202, AdvEntryLength(e))
    ensures AdvertisementFrom(EncodeField(202, EncodeAdvEntry(e))[..k], ignoreCritical, value).None?
  {
    var s := EncodeField(202, EncodeAdvEntry(e))[..k];
    CutHeader(202, EncodeAdvEntry(e), k);
    if ReadHeader(s).Some? {
      assert Delegate(ReadHeader(s).value.1, ReadHeader(s).value.2).0 == [];
      assert ParseAdvEntry([], |ReadHeader(s).value.2|, ignoreCritical).None?;
    }
  }

  // ------------------------------------------------------------ bytes on the wire

  /** A name of one generic component of one byte. */
  function ShortName(b: Byte): Destination {
    Destination(Some([Component(8, [b])]))
  }

  lemma ShortNameBytes(b: Byte)
    ensures EncodeDestination(ShortName(b)) == [7, 3, 8, 1, b]
  {
    var c := Component(8, [b]);
    assert EncodeComponent(c) == [8, 1, b] by { OneByte(1); }
    assert EncodeName([c]) == EncodeComponent(c) + EncodeName([]) == [8, 1, b];
  }

  lemma OneByte(x: nat)
    requires x <= 0xff
    ensures EncodeNat(x) == [x as Byte]
  {
    assert BigEndian(x / 256, 0) == [];
  }

  lemma TwoBytes(x: nat)
    requires 0xff < x <= 0xffff
    ensures EncodeNat(x) == [(x / 256) as Byte, (x % 256) as Byte]
    ensures EncodeNum(x) == [0xfd, (x / 256) as Byte, (x % 256) as Byte]
  {
    assert BigEndian(x / 256 / 256, 0) == [];
    assert BigEndian(x / 256, 1) == [(x / 256) as Byte];
  }

  /** A nested name on the wire, under a type of one byte. */
  lemma NestedNameBytes(typ: nat, b: Byte)
    requires typ <= 0xfc
    ensures EncodeField(typ, EncodeDestination(ShortName(b))) == [typ as Byte, 5, 7, 3, 8, 1, b]
  {
    ShortNameBytes(b);
  }

  /** An entry on the wire: destination, next hop, cost and the other cost, numbers with the high byte first. */
  lemma AdvEntryBytes(d: Byte, hop: Byte, cost: nat, other: nat)
    requires cost <= 0xff < other <= 0xffff
    ensures EncodeAdvertisement([AdvEntry(Some(ShortName(d)), Some(ShortName(hop)), cost, other)]) ==
            [202, 21] + ([204, 5, 7, 3, 8, 1, d] + [206, 5, 7, 3, 8, 1, hop] + [208, 1, cost as Byte]
                         + [210, 2, (other / 256) as Byte, (other % 256) as Byte])
  {
    var e := AdvEntry(Some(ShortName(d)), Some(ShortName(hop)), cost, other);
    NestedNameBytes(204, d);
    NestedNameBytes(206, hop);
    CostBytes(cost, other);
    var s := EncodeAdvEntry(e);
    assert |s| == 21;
    FieldBytes(202, s);
    assert EncodeAdvertisement([e]) == EncodeField(202, s) + EncodeAdvertisement([]);
  }

  lemma CostBytes(cost: nat, other: nat)
    requires cost <= 0xff < other <= 0xffff
    ensures EncodeField(208, EncodeNat(cost)) == [208, 1, cost as Byte]
    ensures EncodeField(210, EncodeNat(other)) == [210, 2, (other / 256) as Byte, (other % 256) as Byte]
  {
    OneByte(cost);
    TwoBytes(other);
  }

  lemma FieldBytes(typ: nat, v: Bytes)
    requires typ <= 0xfc && |v| <= 0xfc
    ensures EncodeField(typ, v) == [typ as Byte, |v| as Byte] + v
  {
  }

  lemma LongFieldBytes(typ: nat, v: Bytes)
    requires 0xff < typ <= 0xffff && |v| <= 0xfc
    ensures EncodeField(typ, v) == [253, (typ / 256) as Byte, (typ % 256) as Byte, |v| as Byte] + v
  {
    TwoBytes(typ);
  }

  /** A list of prefix operations on the wire: exit router, reset mark, additions and removals. */
  lemma PrefixOpListBytes(exit: Byte, added: Byte, cost: nat, removed: Byte)
    requires cost <= 0xff
    ensures EncodePrefixOpList(PrefixOpList(Some(ShortName(exit)), true, [PrefixOpAdd(ShortName(added).name, cost)],
                                            [ShortName(removed)])) ==
            [204, 5, 7, 3, 8, 1, exit] + [253, 1, 46, 0]
            + ([253, 1, 48, 8] + ([7, 3, 8, 1, added] + [208, 1, cost as Byte]))
            + ([253, 1, 50, 5] + [7, 3, 8, 1, removed])
  {
    var adds, removes := [PrefixOpAdd(ShortName(added).name, cost)], [ShortName(removed)];
    NestedNameBytes(204, exit);
    ShortNameBytes(added);
    ShortNameBytes(removed);
    OneByte(cost);
    FieldBytes(208, EncodeNat(cost));
    LongFieldBytes(302, []);
    LongFieldBytes(304, EncodePrefixOpAdd(adds[0]));
    LongFieldBytes(306, EncodeDestination(removes[0]));
    assert EncodeAdds(adds) == EncodeField(304, EncodePrefixOpAdd(adds[0])) + EncodeAdds([]);
    assert EncodeRemoves(removes) == EncodeField(306, EncodeDestination(removes[0])) + EncodeRemoves([]);
  }
}
