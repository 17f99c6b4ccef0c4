/** The arguments of MySQL's COM_STMT_EXECUTE: the encoded values and the NULL bitmap. */
module MySqlArguments {
  import opened Basics

  /** The byte in which only bit `k`, counted from the least significant, is set. */
  function Mask(k: nat): bv8
    requires k < 8
  {
    match k
    case 0 => 1
    case 1 => 2
    case 2 => 4
    case 3 => 8
    case 4 => 16
    case 5 => 32
    case 6 => 64
    case 7 => 128
  }

  predicate Bit(b: bv8, k: nat)
    requires k < 8
  {
    b & Mask(k) != 0
  }

  lemma ShiftIsMask(k: nat)
    requires k < 8
    ensures (1 as bv8) << k == Mask(k) && (0 as bv8) << k == 0
  {
  }

  /** Bits are counted from the least significant. */
  lemma BitIsShifted(b: bv8, k: nat)
    requires k < 8
    ensures Bit(b, k) <==> (b >> k) & 1 == 1
  {
    ShiftIsMask(k);
    match k
    case 0 =>
    case 1 =>
    case 2 =>
    case 3 =>
    case 4 =>
    case 5 =>
    case 6 =>
    case 7 =>
  }

  lemma MasksDisjoint(k: nat, j: nat)
    requires k < 8 && j < 8
    ensures Mask(k) & Mask(j) == if j == k then Mask(k) else 0
    ensures Mask(k) != 0
  {
  }

  lemma OrBit(b: bv8, m: bv8, j: nat)
    requires j < 8
    ensures Bit(b | m, j) == (Bit(b, j) || Bit(m, j))
  {
  }

  lemma SetBit(b: bv8, k: nat, isNull: bool, j: nat)
    requires k < 8 && j < 8
    ensures Bit(b | ((if isNull then 1 else 0) << k), j) == (Bit(b, j) || (isNull && j == k))
  {
    ShiftIsMask(k);
    OrBit(b, if isNull then Mask(k) else 0, j);
    MasksDisjoint(k, j);
  }

  /** One bit per argument, set for NULL, in as few bytes as they need and with zeros as padding. */
  predicate Describes(bytes: seq<bv8>, nulls: seq<bool>) {
    && |bytes| == (|nulls| + 7) / 8
    && forall i :: 0 <= i < 8 * |bytes| ==> Bit(bytes[i / 8], i % 8) == (i < |nulls| && nulls[i])
  }

  lemma ZeroBits(j: nat)
    requires j < 8
    ensures !Bit(0, j)
  {
  }

  /** A byte is appended for every eighth argument; the new bit is then in place. */
  function Grown(bytes: seq<bv8>, length: nat): seq<bv8> {
    if length % 8 == 0 then bytes + [0] else bytes
  }

  function WithBit(bytes: seq<bv8>, length: nat, isNull: bool): seq<bv8>
    requires |bytes| > length / 8
  {
    bytes[length / 8 := bytes[length / 8] | ((if isNull then 1 else 0) << length % 8)]
  }

  lemma GrownDescribes(bytes: seq<bv8>, nulls: seq<bool>)
    requires Describes(bytes, nulls)
    ensures var grown := Grown(bytes, |nulls|);
            && |grown| == |nulls| / 8 + 1
            && forall i :: 0 <= i < 8 * |grown| ==> Bit(grown[i / 8], i % 8) == (i < |nulls| && nulls[i])
  {
    var grown := Grown(bytes, |nulls|);
    forall i | 0 <= i < 8 * |grown| ensures Bit(grown[i / 8], i % 8) == (i < |nulls| && nulls[i]) {
      if i < 8 * |bytes| {
        assert grown[i / 8] == bytes[i / 8];
      } else {
        ZeroBits(i % 8);
      }
    }
  }

  lemma WithBitDescribes(bytes: seq<bv8>, nulls: seq<bool>, isNull: bool)
    requires |bytes| == |nulls| / 8 + 1
    requires forall i :: 0 <= i < 8 * |bytes| ==> Bit(bytes[i / 8], i % 8) == (i < |nulls| && nulls[i])
    ensures Describes(WithBit(bytes, |nulls|, isNull), nulls + [isNull])
  {
    var after, n := WithBit(bytes, |nulls|, isNull), |nulls|;
    forall i | 0 <= i < 8 * |after| ensures Bit(after[i / 8], i % 8) == (i < n + 1 && (nulls + [isNull])[i]) {
      assert Bit(bytes[i / 8], i % 8) == (i < n && nulls[i]);
      if i / 8 == n / 8 {
        SetBit(bytes[n / 8], n % 8, isNull, i % 8);
      }
    }
  }

  /** What `Encode::encode` does: it writes bytes, and then fails or says whether the value is NULL. */
  datatype Attempt = Attempt(written: seq<bv8>, isNull: Option<bool>)

  class Arguments {
    var values: seq<bv8>
    var types: seq<string>
    var bytes: seq<bv8>
    var length: nat
    ghost var nulls: seq<bool>

    ghost predicate Valid()
      reads this
    {
      length == |nulls| == |types| && Describes(bytes, nulls)
    }

    constructor ()
      ensures Valid() && nulls == [] && values == []
    {
      values, types, bytes, length, nulls := [], [], [], 0, [];
    }

    /** `NullBitMap::push` */
    method Push(isNull: bool)
      requires length == |nulls| && Describes(bytes, nulls)
      modifies this`bytes, this`length, this`nulls
      ensures nulls == old(nulls) + [isNull] && length == |nulls| && Describes(bytes, nulls)
    {
      var byteIndex := length / 8;
      var bitOffset := length % 8;
      if bitOffset == 0 {
        bytes := bytes + [0];
      }
      GrownDescribes(old(bytes), nulls);
      WithBitDescribes(bytes, nulls, isNull);
      bytes := bytes[byteIndex := bytes[byteIndex] | ((if isNull then 1 else 0) << bitOffset)];
      length := length + 1;
      nulls := nulls + [isNull];
    }

    /** `MySqlArguments::add`: a failed encoding leaves no trace. */
    method Add(a: Attempt, ty: string) returns (ok: bool)
      requires Valid()
      modifies this
      ensures Valid()
      ensures ok == a.isNull.Some?
      ensures ok ==> values == old(values) + a.written && types == old(types) + [ty]
                     && nulls == old(nulls) + [a.isNull.value]
      ensures !ok ==> values == old(values) && types == old(types) && nulls == old(nulls)
                      && bytes == old(bytes) && length == old(length)
    {
      var lengthBefore := |values|;
      values := values + a.written;
      if a.isNull.None? {
        values := values[..lengthBefore];
        return false;
      }
      types := types + [ty];
      Push(a.isNull.value);
      return true;
    }
  }
}
