/**
 The encoders and parsers as they run: encoders fill a buffer of exactly the
 length computed beforehand, parsers read one field after the other.
 */
module DvTlvCodec {
  import opened Common
  import opened TlvNames
  import opened DvTlv

  // ----------------------------------------------------------------- writing
  // Every encoder leaves what is in front of its position alone and puts its bytes behind it.

  method PutByte(buf: array<Byte>, pos: nat, b: Byte) returns (next: nat)
    requires pos < buf.Length
    modifies buf
    ensures next == pos + 1 && buf[..next] == old(buf[..pos]) + [b]
  {
    buf[pos] := b;
    next := pos + 1;
  }

  method PutBigEndian(buf: array<Byte>, pos: nat, x: nat, k: nat) returns (next: nat)
    requires pos + k <= buf.Length
    modifies buf
    ensures next == pos + k && buf[..next] == old(buf[..pos]) + BigEndian(x, k)
  {
    next := pos;
    if k > 0 {
      next := PutBigEndian(buf, pos, x / 256, k - 1);
      next := PutByte(buf, next, (x % 256) as Byte);
      Regroup(old(buf[..pos]), BigEndian(x / 256, k - 1), [(x % 256) as Byte]);
    }
  }

  /** Writes a type or length number. */
  method PutNum(buf: array<Byte>, pos: nat, x: nat) returns (next: nat)
    requires pos + NumLength(x) <= buf.Length
    modifies buf
    ensures next == pos + NumLength(x) && buf[..next] == old(buf[..pos]) + EncodeNum(x)
  {
    if x <= 0xfc {
      next := PutByte(buf, pos, x as Byte);
    } else {
      var k := if x <= 0xffff then 2 else if x <= 0xffff_ffff then 4 else 8;
      var first: Byte := if k == 2 then 0xfd else if k == 4 then 0xfe else 0xff;
      next := PutByte(buf, pos, first);
      next := PutBigEndian(buf, next, x, k);
      Regroup(old(buf[..pos]), [first], BigEndian(x, k));
    }
  }

  method PutNat(buf: array<Byte>, pos: nat, x: nat) returns (next: nat)
    requires pos + NatLength(x) <= buf.Length
    modifies buf
    ensures next == pos + NatLength(x) && buf[..next] == old(buf[..pos]) + EncodeNat(x)
  {
    next := PutBigEndian(buf, pos, x, NatLength(x));
  }

  method PutBytes(buf: array<Byte>, pos: nat, v: Bytes) returns (next: nat)
    requires pos + |v| <= buf.Length
    modifies buf
    ensures next == pos + |v| && buf[..next] == old(buf[..pos]) + v
  {
    next := pos;
    for i := 0 to |v|
      invariant next == pos + i && buf[..next] == old(buf[..pos]) + v[..i]
    {
      next := PutByte(buf, next, v[i]);
      Regroup(old(buf[..pos]), v[..i], [v[i]]);
      assert v[..i + 1] == v[..i] + [v[i]];
    }
    assert v[..|v|] == v;
  }

  /** Writes the type and the length of a field. */
  method PutHeader(buf: array<Byte>, pos: nat, typ: nat, length: nat) returns (next: nat)
    requires pos + NumLength(typ) + NumLength(length) <= buf.Length
    modifies buf
    ensures next == pos + NumLength(typ) + NumLength(length)
    ensures buf[..next] == old(buf[..pos]) + (EncodeNum(typ) + EncodeNum(length))
  {
    next := PutNum(buf, pos, typ);
    next := PutNum(buf, next, length);
    Regroup(old(buf[..pos]), EncodeNum(typ), EncodeNum(length));
  }

  method PutComponent(buf: array<Byte>, pos: nat, c: Component) returns (next: nat)
    requires pos + ComponentLength(c) <= buf.Length
    modifies buf
    ensures next == pos + ComponentLength(c) && buf[..next] == old(buf[..pos]) + EncodeComponent(c)
  {
    next := PutNum(buf, pos, c.typ);
    next := PutNat(buf, next, |c.val|);
    Regroup(old(buf[..pos]), EncodeNum(c.typ), EncodeNat(|c.val|));
    next := PutBytes(buf, next, c.val);
    Regroup(old(buf[..pos]), EncodeNum(c.typ) + EncodeNat(|c.val|), c.val);
  }

  lemma NameStep(before: Bytes, xs: Name, i: nat, whole: Bytes)
    requires i < |xs| && before + EncodeName(xs[i..]) == whole
    ensures before + EncodeComponent(xs[i]) + EncodeName(xs[i + 1..]) == whole
  {
    assert xs[i..][1..] == xs[i + 1..] && xs[i..][0] == xs[i];
    Regroup(before, EncodeComponent(xs[i]), EncodeName(xs[i + 1..]));
  }

  method PutName(buf: array<Byte>, pos: nat, xs: Name) returns (next: nat)
    requires pos + NameLength(xs) <= buf.Length
    modifies buf
    ensures next == pos + NameLength(xs) && buf[..next] == old(buf[..pos]) + EncodeName(xs)
  {
    next := pos;
    ghost var whole := buf[..pos] + EncodeName(xs);
    assert xs[0..] == xs;
    for i := 0 to |xs|
      invariant next <= buf.Length && buf[..next] + EncodeName(xs[i..]) == whole
    {
      NameStep(buf[..next], xs, i, whole);
      next := PutComponent(buf, next, xs[i]);
    }
    assert buf[..next] + [] == buf[..next];
  }

  method PutNameField(buf: array<Byte>, pos: nat, x: Name) returns (next: nat)
    requires pos + FieldLength(7, NameLength(x)) <= buf.Length
    modifies buf
    ensures next == pos + FieldLength(7, NameLength(x))
    ensures buf[..next] == old(buf[..pos]) + EncodeField(7, EncodeName(x))
  {
    next := PutHeader(buf, pos, 7, NameLength(x));
    next := PutName(buf, next, x);
    Regroup(old(buf[..pos]), EncodeNum(7) + EncodeNum(NameLength(x)), EncodeName(x));
  }

  method PutDestination(buf: array<Byte>, pos: nat, d: Destination) returns (next: nat)
    requires pos + DestinationLength(d) <= buf.Length
    modifies buf
    ensures next == pos + DestinationLength(d) && buf[..next] == old(buf[..pos]) + EncodeDestination(d)
  {
    if d.name.None? {
      return pos;
    }
    next := PutNameField(buf, pos, d.name.value);
  }

  method PutOptional(buf: array<Byte>, pos: nat, typ: nat, d: Option<Destination>) returns (next: nat)
    requires pos + OptionalLength(typ, d) <= buf.Length
    modifies buf
    ensures next == pos + OptionalLength(typ, d) && buf[..next] == old(buf[..pos]) + EncodeOptional(typ, d)
  {
    if d.None? {
      return pos;
    }
    var length := DestinationLength(d.value);
    next := PutHeader(buf, pos, typ, length);
    next := PutDestination(buf, next, d.value);
    Regroup(old(buf[..pos]), EncodeNum(typ) + EncodeNum(length), EncodeDestination(d.value));
  }

  method PutCost(buf: array<Byte>, pos: nat, typ: nat, cost: nat) returns (next: nat)
    requires typ <= 0xfc && pos + 2 + NatLength(cost) <= buf.Length
    modifies buf
    ensures next == pos + 2 + NatLength(cost) && buf[..next] == old(buf[..pos]) + EncodeField(typ, EncodeNat(cost))
  {
    next := PutHeader(buf, pos, typ, NatLength(cost));
    next := PutNat(buf, next, cost);
    Regroup(old(buf[..pos]), EncodeNum(typ) + EncodeNum(NatLength(cost)), EncodeNat(cost));
  }

  method PutAdvEntry(buf: array<Byte>, pos: nat, e: AdvEntry) returns (next: nat)
    requires pos + AdvEntryLength(e) <= buf.Length
    modifies buf
    ensures next == pos + AdvEntryLength(e) && buf[..next] == old(buf[..pos]) + EncodeAdvEntry(e)
  {
    ghost var d, h := EncodeOptional(204, e.destination), EncodeOptional(206, e.nextHop);
    ghost var c, o := EncodeField(208, EncodeNat(e.cost)), EncodeField(210, EncodeNat(e.otherCost));
    next := PutOptional(buf, pos, 204, e.destination);
    next := PutOptional(buf, next, 206, e.nextHop);
    next := PutCost(buf, next, 208, e.cost);
    next := PutCost(buf, next, 210, e.otherCost);
    RegroupFour(old(buf[..pos]), d, h, c, o);
  }

  lemma RegroupFour(p: Bytes, a: Bytes, b: Bytes, c: Bytes, d: Bytes)
    ensures p + a + b + c + d == p + (a + b + c + d)
  {
  }

  method PutEntryField(buf: array<Byte>, pos: nat, x: AdvEntry) returns (next: nat)
    requires pos + FieldLength(202, AdvEntryLength(x)) <= buf.Length
    modifies buf
    ensures next == pos + FieldLength(202, AdvEntryLength(x))
    ensures buf[..next] == old(buf[..pos]) + EncodeField(202, EncodeAdvEntry(x))
  {
    next := PutHeader(buf, pos, 202, AdvEntryLength(x));
    next := PutAdvEntry(buf, next, x);
    Regroup(old(buf[..pos]), EncodeNum(202) + EncodeNum(AdvEntryLength(x)), EncodeAdvEntry(x));
  }

  lemma AdvertisementStep(before: Bytes, xs: Advertisement, i: nat, whole: Bytes)
    requires i < |xs| && before + EncodeAdvertisement(xs[i..]) == whole
    ensures before + EncodeField(202, EncodeAdvEntry(xs[i])) + EncodeAdvertisement(xs[i + 1..]) == whole
  {
    assert xs[i..][1..] == xs[i + 1..] && xs[i..][0] == xs[i];
    Regroup(before, EncodeField(202, EncodeAdvEntry(xs[i])), EncodeAdvertisement(xs[i + 1..]));
  }

  method PutAdvertisement(buf: array<Byte>, pos: nat, xs: Advertisement) returns (next: nat)
    requires pos + AdvertisementLength(xs) <= buf.Length
    modifies buf
    ensures next == pos + AdvertisementLength(xs) && buf[..next] == old(buf[..pos]) + EncodeAdvertisement(xs)
  {
    next := pos;
    ghost var whole := buf[..pos] + EncodeAdvertisement(xs);
    assert xs[0..] == xs;
    for i := 0 to |xs|
      invariant next <= buf.Length && buf[..next] + EncodeAdvertisement(xs[i..]) == whole
    {
      AdvertisementStep(buf[..next], xs, i, whole);
      next := PutEntryField(buf, next, xs[i]);
    }
    assert buf[..next] + [] == buf[..next];
  }

  /** The length computed beforehand is exactly the number of bytes written. */
  method AdvertisementWire(a: Advertisement) returns (buf: array<Byte>)
    ensures fresh(buf) && buf[..] == EncodeAdvertisement(a)
  {
    buf := new Byte[AdvertisementLength(a)];
    var next := PutAdvertisement(buf, 0, a);
    assert buf[..next] == buf[..];
  }

  method PutPrefixOpAdd(buf: array<Byte>, pos: nat, a: PrefixOpAdd) returns (next: nat)
    requires pos + PrefixOpAddLength(a) <= buf.Length
    modifies buf
    ensures next == pos + PrefixOpAddLength(a) && buf[..next] == old(buf[..pos]) + EncodePrefixOpAdd(a)
  {
    next := PutDestination(buf, pos, Destination(a.name));
    next := PutCost(buf, next, 208, a.cost);
    Regroup(old(buf[..pos]), EncodeDestination(Destination(a.name)), EncodeField(208, EncodeNat(a.cost)));
  }

  method PutAddField(buf: array<Byte>, pos: nat, x: PrefixOpAdd) returns (next: nat)
    requires pos + FieldLength(304, PrefixOpAddLength(x)) <= buf.Length
    modifies buf
    ensures next == pos + FieldLength(304, PrefixOpAddLength(x))
    ensures buf[..next] == old(buf[..pos]) + EncodeField(304, EncodePrefixOpAdd(x))
  {
    next := PutHeader(buf, pos, 304, PrefixOpAddLength(x));
    next := PutPrefixOpAdd(buf, next, x);
    Regroup(old(buf[..pos]), EncodeNum(304) + EncodeNum(PrefixOpAddLength(x)), EncodePrefixOpAdd(x));
  }

  method PutRemoveField(buf: array<Byte>, pos: nat, x: PrefixOpRemove) returns (next: nat)
    requires pos + FieldLength(306, DestinationLength(x)) <= buf.Length
    modifies buf
    ensures next == pos + FieldLength(306, DestinationLength(x))
    ensures buf[..next] == old(buf[..pos]) + EncodeField(306, EncodeDestination(x))
  {
    next := PutHeader(buf, pos, 306, DestinationLength(x));
    next := PutDestination(buf, next, x);
    Regroup(old(buf[..pos]), EncodeNum(306) + EncodeNum(DestinationLength(x)), EncodeDestination(x));
  }

  lemma AddsStep(before: Bytes, xs: seq<PrefixOpAdd>, i: nat, whole: Bytes)
    requires i < |xs| && before + EncodeAdds(xs[i..]) == whole
    ensures before + EncodeField(304, EncodePrefixOpAdd(xs[i])) + EncodeAdds(xs[i + 1..]) == whole
  {
    assert xs[i..][1..] == xs[i + 1..] && xs[i..][0] == xs[i];
    Regroup(before, EncodeField(304, EncodePrefixOpAdd(xs[i])), EncodeAdds(xs[i + 1..]));
  }

  method PutAdds(buf: array<Byte>, pos: nat, xs: seq<PrefixOpAdd>) returns (next: nat)
    requires pos + AddsLength(xs) <= buf.Length
    modifies buf
    ensures next == pos + AddsLength(xs) && buf[..next] == old(buf[..pos]) + EncodeAdds(xs)
  {
    next := pos;
    ghost var whole := buf[..pos] + EncodeAdds(xs);
    assert xs[0..] == xs;
    for i := 0 to |xs|
      invariant next <= buf.Length && buf[..next] + EncodeAdds(xs[i..]) == whole
    {
      AddsStep(buf[..next], xs, i, whole);
      next := PutAddField(buf, next, xs[i]);
    }
    assert buf[..next] + [] == buf[..next];
  }

  lemma RemovesStep(before: Bytes, xs: seq<PrefixOpRemove>, i: nat, whole: Bytes)
    requires i < |xs| && before + EncodeRemoves(xs[i..]) == whole
    ensures before + EncodeField(306, EncodeDestination(xs[i])) + EncodeRemoves(xs[i + 1..]) == whole
  {
    assert xs[i..][1..] == xs[i + 1..] && xs[i..][0] == xs[i];
    Regroup(before, EncodeField(306, EncodeDestination(xs[i])), EncodeRemoves(xs[i + 1..]));
  }

  method PutRemoves(buf: array<Byte>, pos: nat, xs: seq<PrefixOpRemove>) returns (next: nat)
    requires pos + RemovesLength(xs) <= buf.Length
    modifies buf
    ensures next == pos + RemovesLength(xs) && buf[..next] == old(buf[..pos]) + EncodeRemoves(xs)
  {
    next := pos;
    ghost var whole := buf[..pos] + EncodeRemoves(xs);
    assert xs[0..] == xs;
    for i := 0 to |xs|
      invariant next <= buf.Length && buf[..next] + EncodeRemoves(xs[i..]) == whole
    {
      RemovesStep(buf[..next], xs, i, whole);
      next := PutRemoveField(buf, next, xs[i]);
    }
    assert buf[..next] + [] == buf[..next];
  }

  method PutReset(buf: array<Byte>, pos: nat, reset: bool) returns (next: nat)
    requires pos + |EncodeReset(reset)| <= buf.Length
    modifies buf
    ensures next == pos + |EncodeReset(reset)| && buf[..next] == old(buf[..pos]) + EncodeReset(reset)
  {
    if !reset {
      return pos;
    }
    next := PutHeader(buf, pos, 302, 0);
    assert EncodeReset(true) == EncodeNum(302) + EncodeNum(0);
  }

  method PutPrefixOpList(buf: array<Byte>, pos: nat, l: PrefixOpList) returns (next: nat)
    requires pos + PrefixOpListLength(l) <= buf.Length
    modifies buf
    ensures next == pos + PrefixOpListLength(l) && buf[..next] == old(buf[..pos]) + EncodePrefixOpList(l)
  {
    ghost var exit, reset := EncodeOptional(204, l.exitRouter), EncodeReset(l.reset);
    ghost var adds, removes := EncodeAdds(l.adds), EncodeRemoves(l.removes);
    next := PutOptional(buf, pos, 204, l.exitRouter);
    next := PutReset(buf, next, l.reset);
    next := PutAdds(buf, next, l.adds);
    next := PutRemoves(buf, next, l.removes);
    RegroupFour(old(buf[..pos]), exit, reset, adds, removes);
  }

  method PrefixOpListWire(l: PrefixOpList) returns (buf: array<Byte>)
    ensures fresh(buf) && buf[..] == EncodePrefixOpList(l)
  {
    buf := new Byte[PrefixOpListLength(l)];
    var next := PutPrefixOpList(buf, 0, l);
    assert buf[..next] == buf[..];
  }

  // ----------------------------------------------------------------- reading

  method ReadTLNum(s: Bytes) returns (r: Option<(nat, Bytes)>)
    ensures r == ReadNum(s)
  {
    if |s| == 0 {
      return None;
    }
    var l := Following(s[0]);
    if l == 0 {
      return Some((s[0] as nat, s[1..]));
    }
    var val := 0;
    for i := 0 to l
      invariant 1 + i <= |s| && val == Spelled(s[1..1 + i])
    {
      if 1 + i == |s| {
        return None;
      }
      assert s[1..2 + i][..i] == s[1..1 + i];
      val := 256 * val + s[1 + i] as nat;
    }
    return Some((val, s[1 + l..]));
  }

  method ReadTypeAndLength(s: Bytes) returns (r: Option<(nat, nat, Bytes)>)
    ensures r == ReadHeader(s)
  {
    var typ := ReadTLNum(s);
    if typ.None? {
      return None;
    }
    var len := ReadTLNum(typ.value.1);
    if len.None? {
      return None;
    }
    return Some((typ.value.0, len.value.0, len.value.1));
  }

  lemma WrappedStep(a: nat, b: nat)
    ensures (256 * (a % WORD) + b) % WORD == (256 * a + b) % WORD
  {
  }

  /** Reads a natural number of the given length, in a 64-bit word. */
  method ReadNatural(s: Bytes, len: nat) returns (r: Option<nat>)
    ensures r == if len > |s| then None else Some(Spelled(s[..len]) % WORD)
  {
    var val := 0;
    for i := 0 to len
      invariant i <= |s| && val == Spelled(s[..i]) % WORD
    {
      if i == |s| {
        return None;
      }
      assert s[..i + 1][..i] == s[..i];
      WrappedStep(Spelled(s[..i]), s[i] as nat);
      val := (256 * val + s[i] as nat) % WORD;
    }
    return Some(val);
  }

  method ReadComponents(s: Bytes) returns (r: Option<Name>)
    ensures r == ReadName(s)
  {
    var name: Name := [];
    var rest := s;
    assert ReadName(s).Some? ==> [] + ReadName(s).value == ReadName(s).value;
    while rest != []
      invariant Joined(name, ReadName(rest)) == ReadName(s)
      decreases |rest|
    {
      ReadComponentSize(rest);
      var header := ReadTypeAndLength(rest);
      if header.None? || header.value.1 > |header.value.2| {
        return None;
      }
      var (typ, len, after) := header.value;
      var c := Component(typ, after[..len]);
      JoinedNext(name, c, ReadName(after[len..]));
      name := name + [c];
      rest := after[len..];
    }
    assert name + [] == name;
    return Some(name);
  }

  method ReadDestination(s: Bytes, slack: nat, ignoreCritical: bool) returns (r: Option<Destination>)
    ensures r == ParseDestination(s, slack, ignoreCritical)
  {
    var value := Destination(None);
    var rest := s;
    while rest != []
      invariant DestinationFrom(rest, slack, ignoreCritical, value) == ParseDestination(s, slack, ignoreCritical)
      decreases |rest|
    {
      var header := ReadTypeAndLength(rest);
      if header.None? {
        return None;
      }
      var (typ, len, after) := header.value;
      if typ == 7 {
        var (v, next) := Delegate(len, after);
        var name := ReadComponents(v);
        if name.None? {
          return None;
        }
        value, rest := Destination(name), next;
      } else if Critical(typ, ignoreCritical) || len > |after| + slack {
        return None;
      } else {
        rest := Skip(len, after);
      }
    }
    return Some(value);
  }

  method ReadAdvEntry(s: Bytes, slack: nat, ignoreCritical: bool) returns (r: Option<AdvEntry>)
    ensures r == ParseAdvEntry(s, slack, ignoreCritical)
  {
    var value := Partial(None, None, None, None);
    var rest := s;
    while rest != []
      invariant AdvEntryFrom(rest, slack, ignoreCritical, value) == ParseAdvEntry(s, slack, ignoreCritical)
      decreases |rest|
    {
      var header := ReadTypeAndLength(rest);
      if header.None? {
        return None;
      }
      var (typ, len, after) := header.value;
      if typ == 204 || typ == 206 {
        var (v, next) := Delegate(len, after);
        var d := ReadDestination(v, Beyond(next, slack), ignoreCritical);
        assert ParseDestination(v, Beyond(next, slack), ignoreCritical) == d;
        NestedField(rest, slack, ignoreCritical, value, typ, len, after, v, next, d);
        if d.None? {
          return None;
        }
        value, rest := WithDestination(value, typ, d), next;
      } else if typ == 208 || typ == 210 {
        var n := ReadNatural(after, len);
        if n.None? {
          return None;
        }
        value, rest := WithCost(value, typ, n.value), after[len..];
      } else if Critical(typ, ignoreCritical) || len > |after| + slack {
        return None;
      } else {
        rest := Skip(len, after);
      }
    }
    if value.cost.None? || value.otherCost.None? {
      return None;
    }
    return Some(AdvEntry(value.destination, value.nextHop, value.cost.value, value.otherCost.value));
  }

  method ReadAdvertisement(s: Bytes, ignoreCritical: bool) returns (r: Option<Advertisement>)
    ensures r == ParseAdvertisement(s, ignoreCritical)
  {
    var value: Advertisement := [];
    var rest := s;
    while rest != []
      invariant AdvertisementFrom(rest, ignoreCritical, value) == ParseAdvertisement(s, ignoreCritical)
      decreases |rest|
    {
      var header := ReadTypeAndLength(rest);
      if header.None? {
        return None;
      }
      var (typ, len, after) := header.value;
      if typ == 202 {
        var (v, next) := Delegate(len, after);
        var e := ReadAdvEntry(v, |next|, ignoreCritical);
        if e.None? {
          return None;
        }
        value, rest := value + [e.value], next;
      } else if Critical(typ, ignoreCritical) || len > |after| {
        return None;
      } else {
        rest := after[len..];
      }
    }
    return Some(value);
  }

  method ReadPrefixOpAdd(s: Bytes, slack: nat, ignoreCritical: bool) returns (r: Option<PrefixOpAdd>)
    ensures r == ParsePrefixOpAdd(s, slack, ignoreCritical)
  {
    var name: Option<Name>, cost: Option<nat> := None, None;
    var rest := s;
    while rest != []
      invariant PrefixOpAddFrom(rest, slack, ignoreCritical, name, cost) == ParsePrefixOpAdd(s, slack, ignoreCritical)
      decreases |rest|
    {
      var header := ReadTypeAndLength(rest);
      if header.None? {
        return None;
      }
      var (typ, len, after) := header.value;
      if typ == 7 {
        var (v, next) := Delegate(len, after);
        var n := ReadComponents(v);
        if n.None? {
          return None;
        }
        name, rest := n, next;
      } else if typ == 208 {
        var n := ReadNatural(after, len);
        if n.None? {
          return None;
        }
        cost, rest := n, after[len..];
      } else if Critical(typ, ignoreCritical) || len > |after| + slack {
        return None;
      } else {
        rest := Skip(len, after);
      }
    }
    if cost.None? {
      return None;
    }
    return Some(PrefixOpAdd(name, cost.value));
  }

  method ReadPrefixOpList(s: Bytes, ignoreCritical: bool) returns (r: Option<PrefixOpList>)
    ensures r == ParsePrefixOpList(s, ignoreCritical)
  {
    var value := PrefixOpList(None, false, [], []);
    var rest := s;
    while rest != []
      invariant PrefixOpListFrom(rest, ignoreCritical, value) == ParsePrefixOpList(s, ignoreCritical)
      decreases |rest|
    {
      var header := ReadTypeAndLength(rest);
      if header.None? {
        return None;
      }
      var (typ, len, after) := header.value;
      var (v, next) := Delegate(len, after);
      if typ == 204 || typ == 306 {
        var d := ReadDestination(v, |next|, ignoreCritical);
        if d.None? {
          return None;
        }
        value := if typ == 204 then value.(exitRouter := d) else value.(removes := value.removes + [d.value]);
      } else if typ == 304 {
        var a := ReadPrefixOpAdd(v, |next|, ignoreCritical);
        if a.None? {
          return None;
        }
        value := value.(adds := value.adds + [a.value]);
      } else if (typ != 302 && Critical(typ, ignoreCritical)) || len > |after| {
        return None;
      } else if typ == 302 {
        value := value.(reset := true);
      }
      rest := next;
    }
    return Some(value);
  }
}
