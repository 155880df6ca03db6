/**
 Type and length numbers, natural numbers, name components and names in the
 NDN type-length-value encoding.
 */
module TlvNames {
  import opened Common

  // --------------------------------------------------------------- numbers

  function Pow256(k: nat): nat {
    if k == 0 then 1 else 256 * Pow256(k - 1)
  }

  /** The low k bytes, most significant first. */
  function BigEndian(x: nat, k: nat): (s: Bytes)
    ensures |s| == k
  {
    if k == 0 then [] else BigEndian(x / 256, k - 1) + [(x % 256) as Byte]
  }

  /** The number that the bytes spell. */
  function Spelled(s: Bytes): nat {
    if s == [] then 0 else 256 * Spelled(s[..|s| - 1]) + s[|s| - 1] as nat
  }

  lemma {:induction false} SpelledBigEndian(x: nat, k: nat)
    requires x < Pow256(k)
    ensures Spelled(BigEndian(x, k)) == x
  {
    if k == 0 {
    } else {
      SpelledBigEndian(x / 256, k - 1);
      var s := BigEndian(x, k);
      assert s[..k - 1] == BigEndian(x / 256, k - 1) && s[k - 1] == (x % 256) as Byte;
    }
  }

  lemma {:induction false} SpelledBound(s: Bytes)
    ensures Spelled(s) < Pow256(|s|)
  {
    if s == [] {
    } else {
      SpelledBound(s[..|s| - 1]);
    }
  }

  lemma Powers()
    ensures Pow256(1) == 0x100 && Pow256(2) == 0x1_0000 && Pow256(4) == 0x1_0000_0000 && Pow256(8) == WORD
  {
    assert Pow256(3) == 0x100_0000 && Pow256(5) == 0x100_0000_0000;
    assert Pow256(6) == 0x1_0000_0000_0000 && Pow256(7) == 0x100_0000_0000_0000;
  }

  /** The length of a type or length number. */
  function NumLength(x: nat): nat {
    if x <= 0xfc then 1 else if x <= 0xffff then 3 else if x <= 0xffff_ffff then 5 else 9
  }

  function EncodeNum(x: nat): (s: Bytes)
    ensures |s| == NumLength(x)
  {
    if x <= 0xfc then [x as Byte]
    else if x <= 0xffff then [0xfd] + BigEndian(x, 2)
    else if x <= 0xffff_ffff then [0xfe] + BigEndian(x, 4)
    else [0xff] + BigEndian(x, 8)
  }

  /** The length of a natural number. */
  function NatLength(x: nat): nat {
    if x <= 0xff then 1 else if x <= 0xffff then 2 else if x <= 0xffff_ffff then 4 else 8
  }

  function EncodeNat(x: nat): (s: Bytes)
    ensures |s| == NatLength(x)
  {
    BigEndian(x, NatLength(x))
  }

  /** How many bytes follow the first one of a type or length number. */
  function Following(first: Byte): nat {
    if first <= 0xfc then 0 else if first == 0xfd then 2 else if first == 0xfe then 4 else 8
  }

  /** Reads a type or length number, and leaves the rest. */
  ghost function ReadNum(s: Bytes): Option<(nat, Bytes)> {
    if s == [] || |s| < 1 + Following(s[0]) then None
    else if s[0] <= 0xfc then Some((s[0] as nat, s[1..]))
    else Some((Spelled(s[1..1 + Following(s[0])]), s[1 + Following(s[0])..]))
  }

  lemma NumRoundTrip(x: nat, rest: Bytes)
    requires x < WORD
    ensures ReadNum(EncodeNum(x) + rest) == Some((x, rest))
  {
    var s := EncodeNum(x) + rest;
    Powers();
    if x > 0xfc {
      var k := Following(s[0]);
      assert s[1..1 + k] == BigEndian(x, k) && s[1 + k..] == rest;
      SpelledBigEndian(x, k);
    } else {
      assert s[1..] == rest;
    }
  }

  /** A number read took at least as many bytes as its shortest form. */
  lemma ReadNumSize(s: Bytes)
    ensures ReadNum(s).Some? ==>
              var (x, rest) := ReadNum(s).value; x < WORD && |s| >= NumLength(x) + |rest| && |rest| < |s|
  {
    if ReadNum(s).Some? && s[0] > 0xfc {
      Powers();
      SpelledBound(s[1..1 + Following(s[0])]);
    }
  }

  lemma NatRoundTrip(x: nat)
    requires x < WORD
    ensures Spelled(EncodeNat(x)) == x
  {
    Powers();
    SpelledBigEndian(x, NatLength(x));
  }

  // ----------------------------------------------------- components and names

  datatype Component = Component(typ: nat, val: Bytes)

  type Name = seq<Component>

  /** The length of a value is written as a natural number. */
  function ComponentLength(c: Component): nat {
    NumLength(c.typ) + NatLength(|c.val|) + |c.val|
  }

  function EncodeComponent(c: Component): (s: Bytes)
    ensures |s| == ComponentLength(c)
  {
    EncodeNum(c.typ) + EncodeNat(|c.val|) + c.val
  }

  /** The length of a value is read as a length number. */
  ghost function ReadComponent(s: Bytes): Option<(Component, Bytes)> {
    var typ := ReadNum(s);
    if typ.None? then None
    else
      var len := ReadNum(typ.value.1);
      if len.None? || len.value.0 > |len.value.1| then None
      else Some((Component(typ.value.0, len.value.1[..len.value.0]), len.value.1[len.value.0..]))
  }

  function NameLength(n: Name): nat {
    if n == [] then 0 else ComponentLength(n[0]) + NameLength(n[1..])
  }

  function EncodeName(n: Name): (s: Bytes)
    ensures |s| == NameLength(n)
  {
    if n == [] then [] else EncodeComponent(n[0]) + EncodeName(n[1..])
  }

  ghost function ReadName(s: Bytes): Option<Name>
    decreases |s|
  {
    if s == [] then Some([])
    else
      var c := ReadComponent(s);
      if c.None? then None
      else
        ReadComponentSize(s);
        var rest := ReadName(c.value.1);
        if rest.None? then None else Some([c.value.0] + rest.value)
  }

  /** The shortest encoding of a component with proper length numbers. */
  ghost function ProperLength(c: Component): nat {
    NumLength(c.typ) + NumLength(|c.val|) + |c.val|
  }

  ghost function ProperNameLength(n: Name): nat {
    if n == [] then 0 else ProperLength(n[0]) + ProperNameLength(n[1..])
  }

  lemma ReadComponentSize(s: Bytes)
    ensures ReadComponent(s).Some? ==>
              var (c, rest) := ReadComponent(s).value; c.typ < WORD && |s| >= ProperLength(c) + |rest| && |rest| < |s|
  {
    ReadNumSize(s);
    var typ := ReadNum(s);
    if typ.Some? {
      ReadNumSize(typ.value.1);
    }
  }

  lemma {:induction false} ReadNameSize(s: Bytes)
    ensures ReadName(s).Some? ==> |s| >= ProperNameLength(ReadName(s).value)
    decreases |s|
  {
    if s != [] && ReadName(s).Some? {
      ReadComponentSize(s);
      var (c, rest) := ReadComponent(s).value;
      ReadNameSize(rest);
      assert ReadName(s).value[1..] == ReadName(rest).value;
    }
  }

  /** The two ways of writing a length agree below 253, and only there. */
  ghost predicate Short(n: Name) {
    forall i :: 0 <= i < |n| ==> |n[i].val| <= 0xfc
  }

  ghost predicate Typed(n: Name) {
    forall i :: 0 <= i < |n| ==> n[i].typ < WORD && |n[i].val| < WORD
  }

  lemma ComponentRoundTrip(c: Component, rest: Bytes)
    requires c.typ < WORD && |c.val| <= 0xfc
    ensures ReadComponent(EncodeComponent(c) + rest) == Some((c, rest))
  {
    ShortLength(|c.val|);
    var l, v := EncodeNum(|c.val|), c.val + rest;
    assert EncodeComponent(c) + rest == EncodeNum(c.typ) + (l + v);
    NumRoundTrip(c.typ, l + v);
    NumRoundTrip(|c.val|, v);
    assert v[..|c.val|] == c.val && v[|c.val|..] == rest;
  }

  lemma ShortLength(l: nat)
    requires l <= 0xfc
    ensures EncodeNat(l) == EncodeNum(l)
  {
    assert BigEndian(l / 256, 0) == [];
  }

  lemma {:induction false} ShortRoundTrip(n: Name)
    requires Typed(n) && Short(n)
    ensures ReadName(EncodeName(n)) == Some(n)
  {
    if n == [] {
    } else {
      ComponentRoundTrip(n[0], EncodeName(n[1..]));
      ShortRoundTrip(n[1..]);
      assert n == [n[0]] + n[1..];
    }
  }

  lemma {:induction false} LongIsShorter(n: Name)
    requires Typed(n)
    ensures NameLength(n) <= ProperNameLength(n) && (!Short(n) ==> NameLength(n) < ProperNameLength(n))
  {
    if n == [] {
    } else {
      LongIsShorter(n[1..]);
      if Short(n[1..]) && |n[0].val| <= 0xfc {
        assert Short(n) by {
          forall i | 0 <= i < |n|
            ensures |n[i].val| <= 0xfc
          {
            assert i > 0 ==> n[i] == n[1..][i - 1];
          }
        }
      }
    }
  }

  /** A name comes back from its encoding exactly when every component is shorter than 253 bytes: lengths are written as
      natural numbers but read as length numbers. */
  lemma NameRoundTrip(n: Name)
    requires Typed(n)
    ensures ReadName(EncodeName(n)) == Some(n) <==> Short(n)
  {
    if Short(n) {
      ShortRoundTrip(n);
    }
    if ReadName(EncodeName(n)) == Some(n) {
      ReadNameSize(EncodeName(n));
      LongIsShorter(n);
    }
  }

  function Zeros(k: nat): (s: Bytes)
    ensures |s| == k && forall i :: 0 <= i < k ==> s[i] == 0
  {
    if k == 0 then [] else Zeros(k - 1) + [0]
  }

  /** A component of 253 zeros is read as an empty one, and the rest of it as more components. */
  lemma LongExample(typ: nat)
    requires typ <= 0xfc
    ensures var n := [Component(typ, Zeros(253))];
            var c := ReadComponent(EncodeName(n));
            c.Some? && c.value.0 == Component(typ, []) && |c.value.1| == 251
  {
    var n := [Component(typ, Zeros(253))];
    var s := EncodeName(n);
    assert n[1..] == [];
    assert BigEndian(0, 0) == [] && EncodeNat(253) == [0xfd];
    assert s == [typ as Byte] + ([0xfd] + Zeros(253));
    assert ReadNum(s) == Some((typ, [0xfd] + Zeros(253)));
    var t := [0xfd as Byte] + Zeros(253);
    assert t[1..3] == [0, 0] && Spelled([0, 0]) == 0 by { assert [0 as Byte, 0][..1] == [0] && [0 as Byte][..0] == []; }
    assert |t[3..]| == 251;
  }
}
