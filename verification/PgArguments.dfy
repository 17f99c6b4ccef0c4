/**
 * The argument buffer of a PostgreSQL Bind message: nested values framed by a back-patched length,
 * type OIDs filled in after encoding, and a snapshot to undo an encoding that failed part-way.
 */
module PgArguments {
  import opened Basics

  type byte = x: int | 0 <= x < 256
  type Oid = n: nat | n < 0x1_0000_0000

  const I32_MAX: nat := 0x7FFF_FFFF

  // ------------------------------------------------------------------ big-endian integers

  function Be32(n: Oid): (bs: seq<byte>)
    ensures |bs| == 4
  {
    [n / 0x100_0000, n / 0x1_0000 % 0x100, n / 0x100 % 0x100, n % 0x100]
  }

  function FromBe32(bs: seq<byte>): Oid
    requires |bs| == 4
  {
    bs[0] as int * 0x100_0000 + bs[1] as int * 0x1_0000 + bs[2] as int * 0x100 + bs[3] as int
  }

  lemma DivideTwice(n: nat)
    ensures n / 0x1_0000 == n / 0x100 / 0x100
  {
    var q, r := n / 0x1_0000, n % 0x1_0000;
    assert n / 0x100 == q * 0x100 + r / 0x100;
  }

  lemma Be32RoundTrip(n: Oid)
    ensures FromBe32(Be32(n)) == n
  {
    DivideTwice(n);
    DivideThrice(n);
    var a, b := n / 0x100, n / 0x100 / 0x100;
    assert n == a * 0x100 + n % 0x100 && a == b * 0x100 + a % 0x100 && b == b / 0x100 * 0x100 + b % 0x100;
  }

  lemma DivideThrice(n: nat)
    ensures n / 0x100_0000 == n / 0x1_0000 / 0x100
  {
    var q, r := n / 0x100_0000, n % 0x100_0000;
    assert n / 0x1_0000 == q * 0x100 + r / 0x1_0000;
  }

  /** The most significant byte comes first. */
  lemma BigEndian(n: Oid)
    ensures var bs := Be32(n);
            n == bs[0] as int * 0x100_0000 + bs[1] as int * 0x1_0000 + bs[2] as int * 0x100 + bs[3] as int
  {
    Be32RoundTrip(n);
  }

  /** `i32::to_be_bytes` */
  function LenBytes(len: int): (bs: seq<byte>)
    requires -1 <= len <= I32_MAX
    ensures |bs| == 4
  {
    Be32(if len < 0 then len + 0x1_0000_0000 else len)
  }

  /** `Buf::get_i32` */
  function I32(bs: seq<byte>): int
    requires |bs| == 4
  {
    var n := FromBe32(bs);
    if n > I32_MAX then n - 0x1_0000_0000 else n
  }

  // ------------------------------------------------------------------ values

  /** What an `Encode` implementation does: write bytes, leave a hole for an OID, encode an element, or fail. */
  datatype Part = Raw(bytes: seq<byte>) | Hole(kind: string) | Nested(value: Value) | Fails

  /** `Huge` has a size hint above `i32::MAX`. */
  datatype Value = Null | Data(parts: seq<Part>) | Huge

  datatype Encoded = Encoded(bytes: seq<byte>, holes: seq<(nat, string)>)

  function Shift(holes: seq<(nat, string)>, k: nat): (r: seq<(nat, string)>)
    ensures |r| == |holes|
    ensures forall i :: 0 <= i < |r| ==> r[i] == (holes[i].0 + k, holes[i].1)
  {
    seq(|holes|, i requires 0 <= i < |holes| => (holes[i].0 + k, holes[i].1))
  }

  function Then(a: Encoded, b: Encoded): Encoded {
    Encoded(a.bytes + b.bytes, a.holes + Shift(b.holes, |a.bytes|))
  }

  /** The frame of a value: its length, or -1 for NULL, and its bytes. */
  function EncodeValue(v: Value): (e: Option<Encoded>)
    decreases v, 1
  {
    match v
    case Huge => None
    case Null => Some(Encoded(LenBytes(-1), []))
    case Data(parts) =>
      var body := EncodeParts(parts);
      if body.None? || |body.value.bytes| > I32_MAX then None
      else Some(Then(Encoded(LenBytes(|body.value.bytes|), []), body.value))
  }

  function EncodePart(p: Part): (e: Option<Encoded>)
    decreases p, 2
  {
    match p
    case Raw(bytes) => Some(Encoded(bytes, []))
    case Hole(kind) => Some(Encoded(Be32(0), [(0, kind)]))
    case Nested(v) => EncodeValue(v)
    case Fails => None
  }

  function EncodeParts(parts: seq<Part>): (e: Option<Encoded>)
    decreases parts, 0
  {
    if parts == [] then Some(Encoded([], []))
    else
      var init := EncodeParts(parts[..|parts| - 1]);
      var last := EncodePart(parts[|parts| - 1]);
      if init.None? || last.None? then None else Some(Then(init.value, last.value))
  }

  function Nest(vs: seq<Value>): (ps: seq<Part>)
    ensures |ps| == |vs| && forall i :: 0 <= i < |vs| ==> ps[i] == Nested(vs[i])
  {
    seq(|vs|, i requires 0 <= i < |vs| => Nested(vs[i]))
  }

  // ------------------------------------------------------------------ the code

  class Arguments {
    var types: seq<string>
    var buffer: seq<byte>
    var count: nat
    var holes: seq<(nat, string)>
    ghost var added: seq<Value>

    /** The buffer is the encoding of the values that were added, one after the other. */
    ghost predicate Valid()
      reads this
    {
      && EncodeParts(Nest(added)) == Some(Encoded(buffer, holes))
      && count == |added| == |types|
    }

    constructor ()
      ensures Valid() && added == []
    {
      types, buffer, count, holes, added := [], [], 0, [], [];
    }

    /** What has been written after `buffer0` and `holes0`. */
    ghost predicate Wrote(buffer0: seq<byte>, holes0: seq<(nat, string)>, e: Encoded)
      reads this
    {
      Encoded(buffer, holes) == Then(Encoded(buffer0, holes0), e)
    }

    /** `PgArgumentBuffer::encode` */
    method Encode(v: Value) returns (ok: bool)
      modifies this`buffer, this`holes
      ensures ok <==> EncodeValue(v).Some?
      ensures ok ==> Wrote(old(buffer), old(holes), EncodeValue(v).value)
      ensures old(buffer) <= buffer && old(holes) <= holes
      decreases v, 1
    {
      if v.Huge? {
        return false;
      }
      var offset := |buffer|;
      buffer := buffer + Be32(0);
      var len := -1;
      if v.Data? {
        ok := EncodeAll(v.parts);
        if !ok || |buffer| - offset - 4 > I32_MAX {
          return false;
        }
        len := |buffer| - offset - 4;
        BackPatch(old(buffer), old(holes), EncodeParts(v.parts).value, len);
      } else {
        BackPatch(old(buffer), old(holes), Encoded([], []), len);
      }
      buffer := Put(buffer, offset, LenBytes(len));
      ok := true;
    }

    /** The body of an `Encode` implementation. */
    method EncodeAll(parts: seq<Part>) returns (ok: bool)
      modifies this`buffer, this`holes
      ensures ok <==> EncodeParts(parts).Some?
      ensures ok ==> Wrote(old(buffer), old(holes), EncodeParts(parts).value)
      ensures old(buffer) <= buffer && old(holes) <= holes
      decreases parts, 0
    {
      for i := 0 to |parts|
        invariant EncodeParts(parts[..i]).Some?
        invariant Wrote(old(buffer), old(holes), EncodeParts(parts[..i]).value)
        invariant old(buffer) <= buffer && old(holes) <= holes
      {
        assert parts[..i + 1][..i] == parts[..i];
        ok := EncodeOne(parts[i]);
        if !ok {
          FailureSpreads(parts, i);
          return;
        }
        ThenAssociates(Encoded(old(buffer), old(holes)), EncodeParts(parts[..i]).value, EncodePart(parts[i]).value);
      }
      assert parts[..|parts|] == parts;
      ok := true;
    }

    method EncodeOne(p: Part) returns (ok: bool)
      modifies this`buffer, this`holes
      ensures ok <==> EncodePart(p).Some?
      ensures ok ==> Wrote(old(buffer), old(holes), EncodePart(p).value)
      ensures old(buffer) <= buffer && old(holes) <= holes
      decreases p, 2
    {
      ok := true;
      match p
      case Raw(bytes) => buffer := buffer + bytes;
      case Hole(kind) =>
        // `patch_type_by_name` and `patch_array_type`
        holes := holes + [(|buffer|, kind)];
        buffer := buffer + [0, 0, 0, 0];
      case Nested(v) => ok := Encode(v);
      case Fails => ok := false;
    }

    /** `PgArguments::add`: a failed add leaves no trace. */
    method Add(v: Value, ty: string) returns (ok: bool)
      requires Valid()
      modifies this
      ensures Valid()
      ensures ok <==> EncodeValue(v).Some?
      ensures ok ==> added == old(added) + [v] && types == old(types) + [ty]
      ensures !ok ==> added == old(added) && types == old(types)
                      && buffer == old(buffer) && holes == old(holes) && count == old(count)
    {
      var bufferLength, countBefore, holesLength := |buffer|, count, |holes|;
      ok := Encode(v);
      if !ok {
        buffer, count, holes := buffer[..bufferLength], countBefore, holes[..holesLength];
        assert buffer == old(buffer) && holes == old(holes);
        return;
      }
      types := types + [ty];
      count := count + 1;
      added := added + [v];
      assert Nest(added)[..|added| - 1] == Nest(old(added));
    }

    /**
     * `apply_patches` for the type holes; a type that cannot be looked up is an error. When it
     * succeeds the buffer is what encoding would have written had the OIDs been known.
     */
    method ApplyPatches(lookup: string -> Option<Oid>) returns (ok: bool)
      requires Valid()
      modifies this`buffer
      ensures ok <==> forall i :: 0 <= i < |holes| ==> lookup(holes[i].1).Some?
      ensures ok ==> EncodeParts(FillAll(Nest(added), lookup)) == Some(Encoded(buffer, []))
    {
      HolesInBounds(Nest(added));
      for i := 0 to |holes|
        invariant buffer == Patch(old(buffer), holes[..i], lookup)
        invariant forall j :: 0 <= j < i ==> lookup(holes[j].1).Some?
      {
        TakeNext(holes, i);
        PatchLast(old(buffer), holes[..i], holes[i], lookup);
        var oid := lookup(holes[i].1);
        if oid.None? {
          return false;
        }
        buffer := Put(buffer, holes[i].0, Be32(oid.value));
      }
      assert holes[..|holes|] == holes;
      PatchFills(Nest(added), lookup);
      ok := true;
    }
  }

  /** Writing the length over the four reserved bytes frames what was written after them. */
  lemma BackPatch(buffer: seq<byte>, holes: seq<(nat, string)>, body: Encoded, len: int)
    requires -1 <= len <= I32_MAX
    ensures var written := Then(Encoded(buffer + Be32(0), holes), body);
            && Encoded(buffer + Be32(0), holes) == Then(Encoded(buffer + Be32(0), holes), Encoded([], []))
            && Encoded(Put(written.bytes, |buffer|, LenBytes(len)), written.holes)
            == Then(Encoded(buffer, holes), Then(Encoded(LenBytes(len), []), body))
            && Then(Encoded(LenBytes(len), []), Encoded([], [])) == Encoded(LenBytes(len), [])
            && buffer <= Put(written.bytes, |buffer|, LenBytes(len))
  {
    ThenAssociates(Encoded(buffer, holes), Encoded(LenBytes(len), []), body);
    var written := Then(Encoded(buffer + Be32(0), holes), body);
    assert Put(written.bytes, |buffer|, LenBytes(len)) == buffer + LenBytes(len) + body.bytes;
    assert holes + Shift([], |buffer| + 4) == holes;
    assert holes + Shift([], |buffer|) == holes;
    assert [] + Shift([], 4) == [];
  }

  lemma ShiftShift(a: seq<(nat, string)>, b: seq<(nat, string)>, n: nat, m: nat)
    ensures Shift(a + Shift(b, m), n) == Shift(a, n) + Shift(b, n + m)
  {
  }

  lemma ThenAssociates(a: Encoded, b: Encoded, c: Encoded)
    ensures Then(Then(a, b), c) == Then(a, Then(b, c))
  {
    ShiftShift(b.holes, c.holes, |a.bytes|, |b.bytes|);
    Associate(a.bytes, b.bytes, c.bytes);
    Associate(a.holes, Shift(b.holes, |a.bytes|), Shift(c.holes, |a.bytes| + |b.bytes|));
  }

  lemma Associate<T>(a: seq<T>, b: seq<T>, c: seq<T>)
    ensures a + b + c == a + (b + c)
  {
  }

  lemma {:induction false} FailureSpreads(parts: seq<Part>, i: nat)
    requires i < |parts| && EncodePart(parts[i]).None?
    ensures EncodeParts(parts).None?
    decreases |parts|
  {
    if i < |parts| - 1 {
      FailureSpreads(parts[..|parts| - 1], i);
    }
  }

  // ------------------------------------------------------------------ what can be encoded

  /** Bytes that a part takes: four for a hole, four more than its contents for an element. */
  function SizePart(p: Part): nat
    decreases p, 1
  {
    match p
    case Raw(bytes) => |bytes|
    case Hole(_) => 4
    case Nested(Data(parts)) => 4 + Size(parts)
    case Nested(_) => 4
    case Fails => 0
  }

  function Size(parts: seq<Part>): nat
    decreases parts, 0
  {
    if parts == [] then 0 else Size(parts[..|parts| - 1]) + SizePart(parts[|parts| - 1])
  }

  /** Nothing in it fails, and no element is longer than `i32::MAX`. */
  predicate EncodablePart(p: Part)
    decreases p, 1
  {
    match p
    case Nested(Data(parts)) => Encodable(parts) && Size(parts) <= 0x7FFF_FFFF
    case Nested(Huge) => false
    case Fails => false
    case _ => true
  }

  predicate Encodable(parts: seq<Part>)
    decreases parts, 0
  {
    parts == [] || (Encodable(parts[..|parts| - 1]) && EncodablePart(parts[|parts| - 1]))
  }

  /** Encoding succeeds if and only if nothing fails and every element fits, and takes as many bytes as it should. */
  lemma {:induction false} EncodesIff(parts: seq<Part>)
    ensures EncodeParts(parts).Some? <==> Encodable(parts)
    ensures EncodeParts(parts).Some? ==> |EncodeParts(parts).value.bytes| == Size(parts)
    decreases parts, 0
  {
    if parts != [] {
      EncodesIff(parts[..|parts| - 1]);
      EncodesPartIff(parts[|parts| - 1]);
    }
  }

  lemma {:induction false} EncodesPartIff(p: Part)
    ensures EncodePart(p).Some? <==> EncodablePart(p)
    ensures EncodePart(p).Some? ==> |EncodePart(p).value.bytes| == SizePart(p)
    decreases p, 2
  {
    if p.Nested? && p.value.Data? {
      EncodesIff(p.value.parts);
    }
  }

  // ------------------------------------------------------------------ holes

  /** Holes lie inside the bytes, in order, and do not overlap. */
  predicate InBounds(e: Encoded) {
    && (forall i :: 0 <= i < |e.holes| ==> e.holes[i].0 + 4 <= |e.bytes|)
    && (forall i, j :: 0 <= i < j < |e.holes| ==> e.holes[i].0 + 4 <= e.holes[j].0)
  }

  lemma {:induction false} HolesInBounds(parts: seq<Part>)
    requires EncodeParts(parts).Some?
    ensures InBounds(EncodeParts(parts).value)
    decreases parts, 0
  {
    if parts != [] {
      HolesInBounds(parts[..|parts| - 1]);
      HolesInBoundsPart(parts[|parts| - 1]);
    }
  }

  lemma {:induction false} HolesInBoundsPart(p: Part)
    requires EncodePart(p).Some?
    ensures InBounds(EncodePart(p).value)
    decreases p, 2
  {
    if p.Nested? && p.value.Data? {
      HolesInBounds(p.value.parts);
    }
  }

  function Put(bytes: seq<byte>, offset: nat, slot: seq<byte>): (r: seq<byte>)
    requires |slot| == 4 && offset + 4 <= |bytes|
    ensures |r| == |bytes|
  {
    bytes[..offset] + slot + bytes[offset + 4..]
  }

  function OidOf(lookup: string -> Option<Oid>, kind: string): Oid {
    var oid := lookup(kind);
    if oid.Some? then oid.value else 0
  }

  predicate Inside(bytes: seq<byte>, holes: seq<(nat, string)>) {
    forall i :: 0 <= i < |holes| ==> holes[i].0 + 4 <= |bytes|
  }

  /** The OIDs written into their holes, first to last. */
  function Patch(bytes: seq<byte>, holes: seq<(nat, string)>, lookup: string -> Option<Oid>): (r: seq<byte>)
    requires Inside(bytes, holes)
    ensures |r| == |bytes|
  {
    if holes == [] then bytes
    else
      var (offset, kind) := holes[|holes| - 1];
      Put(Patch(bytes, holes[..|holes| - 1], lookup), offset, Be32(OidOf(lookup, kind)))
  }

  /** The same value with the OIDs known from the start. */
  function Fill(p: Part, lookup: string -> Option<Oid>): Part
    decreases p, 1
  {
    match p
    case Hole(kind) => Raw(Be32(OidOf(lookup, kind)))
    case Nested(Data(parts)) => Nested(Data(FillAll(parts, lookup)))
    case _ => p
  }

  function FillAll(parts: seq<Part>, lookup: string -> Option<Oid>): seq<Part>
    decreases parts, 0
  {
    if parts == [] then []
    else FillAll(parts[..|parts| - 1], lookup) + [Fill(parts[|parts| - 1], lookup)]
  }

  lemma {:induction false} PatchLeft(
    a: seq<byte>, holes: seq<(nat, string)>, b: seq<byte>, lookup: string -> Option<Oid>)
    requires Inside(a, holes)
    ensures Patch(a + b, holes, lookup) == Patch(a, holes, lookup) + b
    decreases |holes|
  {
    if holes != [] {
      var init := holes[..|holes| - 1];
      var (offset, kind) := holes[|holes| - 1];
      PatchLeft(a, init, b, lookup);
      PutLeft(Patch(a, init, lookup), b, offset, Be32(OidOf(lookup, kind)));
    }
  }

  lemma PatchLast(bytes: seq<byte>, holes: seq<(nat, string)>, h: (nat, string), lookup: string -> Option<Oid>)
    requires Inside(bytes, holes) && h.0 + 4 <= |bytes|
    ensures Inside(bytes, holes + [h])
    ensures Patch(bytes, holes + [h], lookup) == Put(Patch(bytes, holes, lookup), h.0, Be32(OidOf(lookup, h.1)))
  {
    assert (holes + [h])[..|holes|] == holes;
  }

  lemma {:induction false} PatchAppend(
    bytes: seq<byte>, holes: seq<(nat, string)>, more: seq<(nat, string)>, lookup: string -> Option<Oid>)
    requires Inside(bytes, holes) && Inside(bytes, more)
    ensures Inside(bytes, holes + more)
    ensures Patch(bytes, holes + more, lookup) == Patch(Patch(bytes, holes, lookup), more, lookup)
    decreases |more|
  {
    InsideConcat(bytes, holes, more);
    if more == [] {
      assert holes + more == holes;
    } else {
      var init := more[..|more| - 1];
      PatchUnfold(bytes, holes + more, lookup);
      ConcatInit(holes, more);
      PatchUnfold(Patch(bytes, holes, lookup), more, lookup);
      PatchAppend(bytes, holes, init, lookup);
    }
  }

  lemma InsideConcat(bytes: seq<byte>, holes: seq<(nat, string)>, more: seq<(nat, string)>)
    requires Inside(bytes, holes) && Inside(bytes, more)
    ensures Inside(bytes, holes + more)
  {
  }

  lemma ConcatInit<T>(a: seq<T>, b: seq<T>)
    requires b != []
    ensures (a + b)[..|a + b| - 1] == a + b[..|b| - 1] && (a + b)[|a + b| - 1] == b[|b| - 1]
  {
  }

  lemma PatchUnfold(bytes: seq<byte>, holes: seq<(nat, string)>, lookup: string -> Option<Oid>)
    requires holes != [] && Inside(bytes, holes)
    ensures Inside(bytes, holes[..|holes| - 1]) && holes[|holes| - 1].0 + 4 <= |bytes|
    ensures var (offset, kind) := holes[|holes| - 1];
            Patch(bytes, holes, lookup)
            == Put(Patch(bytes, holes[..|holes| - 1], lookup), offset, Be32(OidOf(lookup, kind)))
  {
  }

  lemma ShiftInit(holes: seq<(nat, string)>, n: nat)
    requires holes != []
    ensures Shift(holes, n)[..|holes| - 1] == Shift(holes[..|holes| - 1], n)
  {
  }

  lemma InsideShift(a: seq<byte>, b: seq<byte>, more: seq<(nat, string)>)
    requires Inside(b, more)
    ensures Inside(a + b, Shift(more, |a|))
  {
  }

  lemma {:induction false} PatchRight(
    a: seq<byte>, b: seq<byte>, more: seq<(nat, string)>, lookup: string -> Option<Oid>)
    requires Inside(b, more)
    ensures Inside(a + b, Shift(more, |a|))
    ensures Patch(a + b, Shift(more, |a|), lookup) == a + Patch(b, more, lookup)
    decreases |more|
  {
    InsideShift(a, b, more);
    if more != [] {
      var init, h := more[..|more| - 1], more[|more| - 1];
      PatchUnfold(b, more, lookup);
      PatchUnfold(a + b, Shift(more, |a|), lookup);
      ShiftInit(more, |a|);
      PatchRight(a, b, init, lookup);
      PutRight(a, Patch(b, init, lookup), h.0, Be32(OidOf(lookup, h.1)));
    }
  }

  lemma PatchConcat(
    a: seq<byte>, holes: seq<(nat, string)>, b: seq<byte>, more: seq<(nat, string)>, lookup: string -> Option<Oid>)
    requires Inside(a, holes) && Inside(b, more)
    ensures Inside(a + b, holes + Shift(more, |a|))
    ensures Patch(a + b, holes + Shift(more, |a|), lookup) == Patch(a, holes, lookup) + Patch(b, more, lookup)
  {
    PatchAppend(a + b, holes, Shift(more, |a|), lookup);
    PatchLeft(a, holes, b, lookup);
    PatchRight(Patch(a, holes, lookup), b, more, lookup);
  }

  lemma PutLeft(a: seq<byte>, b: seq<byte>, offset: nat, slot: seq<byte>)
    requires |slot| == 4 && offset + 4 <= |a|
    ensures Put(a + b, offset, slot) == Put(a, offset, slot) + b
  {
  }

  lemma PutRight(a: seq<byte>, b: seq<byte>, offset: nat, slot: seq<byte>)
    requires |slot| == 4 && offset + 4 <= |b|
    ensures Put(a + b, |a| + offset, slot) == a + Put(b, offset, slot)
  {
  }

  predicate Apart(holes: seq<(nat, string)>) {
    forall i, j :: 0 <= i < j < |holes| ==> holes[i].0 + 4 <= holes[j].0
  }

  lemma PutAt(bytes: seq<byte>, offset: nat, slot: seq<byte>, p: nat)
    requires |slot| == 4 && offset + 4 <= |bytes| && p < |bytes|
    ensures Put(bytes, offset, slot)[p] == if offset <= p < offset + 4 then slot[p - offset] else bytes[p]
  {
  }

  /** After patching, hole `i` holds the bytes of the OID that was looked up for it, first to last. */
  lemma {:induction false} PatchAt(bytes: seq<byte>, holes: seq<(nat, string)>, lookup: string -> Option<Oid>,
                                   i: nat, j: nat)
    requires Inside(bytes, holes) && Apart(holes) && i < |holes| && j < 4 && lookup(holes[i].1).Some?
    ensures Patch(bytes, holes, lookup)[holes[i].0 + j] == Be32(lookup(holes[i].1).value)[j]
    decreases |holes|
  {
    var last := |holes| - 1;
    var init := holes[..last];
    PatchUnfold(bytes, holes, lookup);
    PutAt(Patch(bytes, init, lookup), holes[last].0, Be32(OidOf(lookup, holes[last].1)), holes[i].0 + j);
    if i < last {
      PatchAt(bytes, init, lookup, i, j);
    }
  }

  /** Every byte outside the holes is as before. */
  lemma {:induction false} PatchElsewhere(bytes: seq<byte>, holes: seq<(nat, string)>,
                                          lookup: string -> Option<Oid>, p: nat)
    requires Inside(bytes, holes) && p < |bytes|
    requires forall i :: 0 <= i < |holes| ==> p < holes[i].0 || holes[i].0 + 4 <= p
    ensures Patch(bytes, holes, lookup)[p] == bytes[p]
    decreases |holes|
  {
    if holes != [] {
      var last := |holes| - 1;
      PatchUnfold(bytes, holes, lookup);
      PutAt(Patch(bytes, holes[..last], lookup), holes[last].0, Be32(OidOf(lookup, holes[last].1)), p);
      PatchElsewhere(bytes, holes[..last], lookup, p);
    }
  }

  /**
   * Patching rewrites the holes and nothing else: the result is the encoding of the filled values,
   * with every length prefix and every other byte as before.
   */
  lemma {:induction false} PatchFills(parts: seq<Part>, lookup: string -> Option<Oid>)
    requires EncodeParts(parts).Some?
    ensures InBounds(EncodeParts(parts).value)
    ensures var e := EncodeParts(parts).value;
            EncodeParts(FillAll(parts, lookup)) == Some(Encoded(Patch(e.bytes, e.holes, lookup), []))
    decreases parts, 0
  {
    HolesInBounds(parts);
    if parts != [] {
      var init, last := parts[..|parts| - 1], parts[|parts| - 1];
      assert parts == init + [last];
      PatchFills(init, lookup);
      PatchFillsPart(last, lookup);
      var a, b := EncodeParts(init).value, EncodePart(last).value;
      PatchConcat(a.bytes, a.holes, b.bytes, b.holes, lookup);
      FillLast(init, last, lookup);
      EncodeLast(FillAll(init, lookup), Fill(last, lookup));
      ThenNoHoles(Patch(a.bytes, a.holes, lookup), Patch(b.bytes, b.holes, lookup));
    }
  }

  lemma EncodeLast(init: seq<Part>, last: Part)
    requires EncodeParts(init).Some? && EncodePart(last).Some?
    ensures EncodeParts(init + [last]) == Some(Then(EncodeParts(init).value, EncodePart(last).value))
  {
    assert (init + [last])[..|init|] == init;
  }

  lemma FillLast(init: seq<Part>, last: Part, lookup: string -> Option<Oid>)
    ensures FillAll(init + [last], lookup) == FillAll(init, lookup) + [Fill(last, lookup)]
  {
    assert (init + [last])[..|init|] == init;
  }

  lemma {:induction false} PatchFillsPart(p: Part, lookup: string -> Option<Oid>)
    requires EncodePart(p).Some?
    ensures InBounds(EncodePart(p).value)
    ensures var e := EncodePart(p).value;
            EncodePart(Fill(p, lookup)) == Some(Encoded(Patch(e.bytes, e.holes, lookup), []))
    decreases p, 2
  {
    HolesInBoundsPart(p);
    match p
    case Raw(_) =>
    case Hole(kind) =>
      var slot := Be32(OidOf(lookup, kind));
      assert Patch(Be32(0), [(0, kind)][..0], lookup) == Be32(0);
      assert Put(Be32(0), 0, slot) == slot;
    case Nested(v) =>
      if v.Data? {
        PatchFills(v.parts, lookup);
        PatchFrame(EncodeParts(v.parts).value, lookup);
      }
  }

  lemma PatchFrame(body: Encoded, lookup: string -> Option<Oid>)
    requires Inside(body.bytes, body.holes) && |body.bytes| <= I32_MAX
    ensures var e := Then(Encoded(LenBytes(|body.bytes|), []), body);
            && Inside(e.bytes, e.holes)
            && Encoded(Patch(e.bytes, e.holes, lookup), [])
            == Then(Encoded(LenBytes(|body.bytes|), []), Encoded(Patch(body.bytes, body.holes, lookup), []))
  {
    var len := LenBytes(|body.bytes|);
    PatchConcat(len, [], body.bytes, body.holes, lookup);
    ThenNoHoles(len, Patch(body.bytes, body.holes, lookup));
  }

  lemma ThenNoHoles(a: seq<byte>, b: seq<byte>)
    ensures Then(Encoded(a, []), Encoded(b, [])) == Encoded(a + b, [])
  {
    assert [] + Shift([], |a|) == [];
  }

  // ------------------------------------------------------------------ decoding

  /** `PgValueRef::get`: an element and the rest of the buffer, an error, or a read past the end. */
  datatype Got = Got(value: Option<seq<byte>>, rest: seq<byte>) | Overflow(len: int) | PastEnd

  function Get(buf: seq<byte>): Got {
    if |buf| < 4 then PastEnd
    else
      var len := I32(buf[..4]);
      if len == -1 then Got(None, buf[4..])
      else if len < 0 then Overflow(len)
      else if |buf| - 4 < len then PastEnd
      else Got(Some(buf[4..4 + len]), buf[4 + len..])
  }

  /** What the four length bytes mean: -1 is NULL, other negative lengths are errors, and the rest must be there. */
  lemma GetIs(buf: seq<byte>)
    ensures |buf| < 4 ==> Get(buf) == PastEnd
    ensures |buf| >= 4 ==>
              var n := buf[0] as int * 0x100_0000 + buf[1] as int * 0x1_0000 + buf[2] as int * 0x100 + buf[3] as int;
              if n == 0xFFFF_FFFF then Get(buf) == Got(None, buf[4..])
              else if n >= 0x8000_0000 then Get(buf) == Overflow(n - 0x1_0000_0000)
              else if |buf| < 4 + n then Get(buf) == PastEnd
              else Get(buf) == Got(Some(buf[4..4 + n]), buf[4 + n..])
  {
  }

  /** The bytes of a value that encodes, or None for NULL. */
  function Payload(v: Value): Option<seq<byte>>
    requires EncodeValue(v).Some?
  {
    if v.Null? then None else Some(EncodeParts(v.parts).value.bytes)
  }

  lemma LenRoundTrip(len: int)
    requires -1 <= len <= I32_MAX
    ensures I32(LenBytes(len)) == len
  {
    Be32RoundTrip(if len < 0 then len + 0x1_0000_0000 else len);
  }

  /** Whatever follows it, a frame decodes to exactly what was encoded in it. */
  lemma GetFrame(v: Value, rest: seq<byte>)
    requires EncodeValue(v).Some?
    ensures Get(EncodeValue(v).value.bytes + rest) == Got(Payload(v), rest)
  {
    var buf := EncodeValue(v).value.bytes + rest;
    var len := if v.Null? then -1 else |Payload(v).value|;
    LenRoundTrip(len);
    assert buf[..4] == LenBytes(len);
    if v.Data? {
      assert buf[4..4 + len] == Payload(v).value;
      assert buf[4 + len..] == rest;
    } else {
      assert buf[4..] == rest;
    }
  }

  /**
   * Reads parts of known widths and nesting, as the type-driven decoders do. `shape` fixes the number
   * of raw bytes and the parts of each element; whether an element is NULL is read from the buffer.
   */
  function ReadParts(shape: seq<Part>, buf: seq<byte>): Option<(seq<Part>, seq<byte>)>
    decreases shape, 0
  {
    if shape == [] then Some(([], buf))
    else
      var first := ReadPart(shape[0], buf);
      if first.None? then None
      else
        var others := ReadParts(shape[1..], first.value.1);
        if others.None? then None else Some(([first.value.0] + others.value.0, others.value.1))
  }

  function ReadPart(shape: Part, buf: seq<byte>): Option<(Part, seq<byte>)>
    decreases shape, 1
  {
    match shape
    case Raw(bytes) => if |buf| < |bytes| then None else Some((Raw(buf[..|bytes|]), buf[|bytes|..]))
    case Nested(Data(parts)) =>
      var got := Get(buf);
      if !got.Got? then None
      else if got.value.None? then Some((Nested(Null), got.rest))
      else
        var body := ReadParts(parts, got.value.value);
        if body.None? || body.value.1 != [] then None
        else Some((Nested(Data(body.value.0)), got.rest))
    case _ => None
  }

  /** `shape` describes `p`: the same widths and nesting, with any parts expected where `p` is NULL. */
  predicate Fits(shape: Part, p: Part)
    decreases p, 1
  {
    match p
    case Raw(bytes) => shape.Raw? && |shape.bytes| == |bytes|
    case Nested(Null) => shape.Nested? && shape.value.Data?
    case Nested(Data(parts)) => shape.Nested? && shape.value.Data? && FitsAll(shape.value.parts, parts)
    case _ => false
  }

  predicate FitsAll(shape: seq<Part>, parts: seq<Part>)
    decreases parts, 0
  {
    |shape| == |parts| && (parts == [] || (Fits(shape[0], parts[0]) && FitsAll(shape[1..], parts[1..])))
  }

  lemma {:induction false} EncodePrepend(p: Part, parts: seq<Part>)
    ensures EncodeParts([p] + parts).Some? <==> EncodePart(p).Some? && EncodeParts(parts).Some?
    ensures EncodeParts([p] + parts).Some? ==>
              EncodeParts([p] + parts).value.bytes == EncodePart(p).value.bytes + EncodeParts(parts).value.bytes
    decreases |parts|
  {
    var all := [p] + parts;
    if parts == [] {
      assert all[..0] == [];
    } else {
      assert all[..|all| - 1] == [p] + parts[..|parts| - 1];
      EncodePrepend(p, parts[..|parts| - 1]);
    }
  }

  /**
   * Decoding the encoding of arbitrarily nested values, NULLs and empty values included, gives back
   * the same values and consumes every byte of them.
   */
  lemma {:induction false} ReadWhatWasWritten(shape: seq<Part>, parts: seq<Part>, rest: seq<byte>)
    requires EncodeParts(parts).Some? && FitsAll(shape, parts)
    ensures ReadParts(shape, EncodeParts(parts).value.bytes + rest) == Some((parts, rest))
    decreases parts, 0
  {
    if parts == [] {
      assert EncodeParts(parts).value.bytes + rest == rest;
    } else {
      var tail := parts[1..];
      assert parts == [parts[0]] + tail;
      EncodePrepend(parts[0], tail);
      var first, others := EncodePart(parts[0]).value.bytes, EncodeParts(tail).value.bytes;
      assert EncodeParts(parts).value.bytes + rest == first + (others + rest);
      ReadPartWritten(shape[0], parts[0], others + rest);
      ReadWhatWasWritten(shape[1..], tail, rest);
    }
  }

  lemma {:induction false} ReadPartWritten(shape: Part, p: Part, rest: seq<byte>)
    requires EncodePart(p).Some? && Fits(shape, p)
    ensures ReadPart(shape, EncodePart(p).value.bytes + rest) == Some((p, rest))
    decreases p, 2
  {
    match p
    case Raw(bytes) =>
      var buf := bytes + rest;
      assert buf[..|bytes|] == bytes && buf[|bytes|..] == rest;
    case Nested(v) =>
      GetFrame(v, rest);
      if v.Data? {
        ReadWhatWasWritten(shape.value.parts, v.parts, []);
        assert EncodeParts(v.parts).value.bytes + [] == EncodeParts(v.parts).value.bytes;
      }
  }

  /** After patching, the buffer decodes to the same values with the OIDs in place of the holes. */
  lemma PatchedBufferDecodes(shape: seq<Part>, parts: seq<Part>, lookup: string -> Option<Oid>)
    requires EncodeParts(parts).Some? && FitsAll(shape, FillAll(parts, lookup))
    ensures var e := EncodeParts(parts).value;
            && Inside(e.bytes, e.holes)
            && ReadParts(shape, Patch(e.bytes, e.holes, lookup)) == Some((FillAll(parts, lookup), []))
  {
    PatchFills(parts, lookup);
    var bytes := EncodeParts(FillAll(parts, lookup)).value.bytes;
    assert bytes + [] == bytes;
    ReadWhatWasWritten(shape, FillAll(parts, lookup), []);
  }
}
