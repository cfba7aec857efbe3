/** The packet bitmap of mupgrade.h: bit `i` lives in byte `i >> 3` at position `i & 7`.
    Everything is stated through `Members`, the set of packet numbers whose bit is set. */
module Bitmap {
  import opened Prelude

  const ALL_ONES: Byte := 0xFF

  function Mask(k: nat): Byte
    requires k < 8
  {
    1 << k
  }

  /** Bit 0 is the lowest one of its byte. */
  lemma MaskValues()
    ensures Mask(0) == 0x01 && Mask(1) == 0x02 && Mask(2) == 0x04 && Mask(3) == 0x08
    ensures Mask(4) == 0x10 && Mask(5) == 0x20 && Mask(6) == 0x40 && Mask(7) == 0x80
  {
  }

  /** MUPGRADE_GET_BITS */
  predicate GetBit(data: seq<Byte>, i: nat)
    requires i < 8 * |data|
  {
    data[i / 8] & Mask(i % 8) != 0
  }

  /** The value MUPGRADE_SET_BITS leaves in the array. */
  function WithBit(data: seq<Byte>, i: nat): (r: seq<Byte>)
    requires i < 8 * |data|
  {
    data[i / 8 := data[i / 8] | Mask(i % 8)]
  }

  function Zeros(n: nat): (r: seq<Byte>)
  {
    seq(n, _ => 0)
  }

  function Ones(n: nat): (r: seq<Byte>)
  {
    seq(n, _ => ALL_ONES)
  }

  function And(a: seq<Byte>, b: seq<Byte>): (r: seq<Byte>)
    requires |a| == |b|
  {
    seq(|a|, i requires 0 <= i < |a| => a[i] & b[i])
  }

  ghost function Members(data: seq<Byte>): set<nat>
  {
    set i: nat | i < 8 * |data| && GetBit(data, i)
  }

  // ---------- one byte ----------

  lemma ByteOr(b: Byte, j: nat, k: nat)
    requires j < 8 && k < 8
    ensures (b | Mask(k)) & Mask(j) != 0 <==> b & Mask(j) != 0 || j == k
  {
    if j != k {
      assert Mask(k) & Mask(j) == 0;
      assert (b | Mask(k)) & Mask(j) == (b & Mask(j)) | (Mask(k) & Mask(j));
    } else {
      assert (b | Mask(k)) & Mask(k) == Mask(k);
    }
  }

  lemma ByteAnd(a: Byte, b: Byte, k: nat)
    requires k < 8
    ensures a & b & Mask(k) != 0 <==> a & Mask(k) != 0 && b & Mask(k) != 0
  {
  }

  lemma ByteFull(b: Byte)
    ensures b == ALL_ONES <==> forall k: nat | k < 8 :: b & Mask(k) != 0
  {
    if forall k: nat | k < 8 :: b & Mask(k) != 0 {
      assert b & Mask(0) != 0 && b & Mask(1) != 0 && b & Mask(2) != 0 && b & Mask(3) != 0;
      assert b & Mask(4) != 0 && b & Mask(5) != 0 && b & Mask(6) != 0 && b & Mask(7) != 0;
    }
  }

  lemma BytesEqual(b: Byte, c: Byte)
    requires forall k: nat | k < 8 :: b & Mask(k) != 0 <==> c & Mask(k) != 0
    ensures b == c
  {
    forall k: nat | k < 8 ensures b & Mask(k) == c & Mask(k) {
      assert b & Mask(k) == 0 || b & Mask(k) == Mask(k);
      assert c & Mask(k) == 0 || c & Mask(k) == Mask(k);
    }
    assert b & Mask(0) == c & Mask(0) && b & Mask(1) == c & Mask(1) && b & Mask(2) == c & Mask(2);
    assert b & Mask(3) == c & Mask(3) && b & Mask(4) == c & Mask(4) && b & Mask(5) == c & Mask(5);
    assert b & Mask(6) == c & Mask(6) && b & Mask(7) == c & Mask(7);
  }

  // ---------- the whole array refines a set of packet numbers ----------

  lemma GetWithBit(data: seq<Byte>, i: nat, j: nat)
    requires i < 8 * |data| && j < 8 * |data|
    ensures GetBit(WithBit(data, i), j) <==> GetBit(data, j) || i == j
  {
    if i / 8 == j / 8 {
      ByteOr(data[i / 8], j % 8, i % 8);
    }
  }

  lemma MembersWithBit(data: seq<Byte>, i: nat)
    requires i < 8 * |data|
    ensures Members(WithBit(data, i)) == Members(data) + {i}
  {
    forall j: nat | j < 8 * |data|
      ensures j in Members(WithBit(data, i)) <==> j in Members(data) + {i}
    {
      GetWithBit(data, i, j);
    }
  }

  lemma MembersAnd(a: seq<Byte>, b: seq<Byte>)
    requires |a| == |b|
    ensures Members(And(a, b)) == Members(a) * Members(b)
  {
    forall j: nat | j < 8 * |a|
      ensures GetBit(And(a, b), j) <==> GetBit(a, j) && GetBit(b, j)
    {
      ByteAnd(a[j / 8], b[j / 8], j % 8);
    }
  }

  lemma MembersZeros(n: nat)
    ensures Members(Zeros(n)) == {}
  {
  }

  /** The scan for a byte other than 0xFF decides whether the set is full. */
  lemma FullIffAllOnes(data: seq<Byte>)
    ensures data == Ones(|data|) <==> forall j: nat | j < 8 * |data| :: j in Members(data)
  {
    if forall j: nat | j < 8 * |data| :: j in Members(data) {
      forall i | 0 <= i < |data| ensures data[i] == ALL_ONES {
        forall k: nat | k < 8 ensures data[i] & Mask(k) != 0 {
          assert 8 * i + k in Members(data);
        }
        ByteFull(data[i]);
      }
    }
    forall j: nat | data == Ones(|data|) && j < 8 * |data| ensures GetBit(data, j) {
      ByteFull(data[j / 8]);
    }
  }

  /** The set of packet numbers determines the array: no information besides `Members`. */
  lemma MembersDetermine(a: seq<Byte>, b: seq<Byte>)
    requires |a| == |b| && Members(a) == Members(b)
    ensures a == b
  {
    forall i | 0 <= i < |a| ensures a[i] == b[i] {
      forall k: nat | k < 8 ensures a[i] & Mask(k) != 0 <==> b[i] & Mask(k) != 0 {
        assert GetBit(a, 8 * i + k) <==> 8 * i + k in Members(a);
        assert GetBit(b, 8 * i + k) <==> 8 * i + k in Members(b);
      }
      BytesEqual(a[i], b[i]);
    }
  }

  // ---------- in place ----------

  /** MUPGRADE_SET_BITS */
  method SetBit(data: array<Byte>, i: nat)
    requires i < 8 * data.Length
    modifies data
    ensures data[..] == WithBit(old(data[..]), i)
    ensures Members(data[..]) == old(Members(data[..])) + {i}
  {
    MembersWithBit(data[..], i);
    data[i / 8] := data[i / 8] | Mask(i % 8);
  }

  /** memset of a whole bitmap. */
  method Fill(data: array<Byte>, value: Byte)
    modifies data
    ensures data[..] == seq(data.Length, _ => value)
  {
    for i := 0 to data.Length
      invariant forall k | 0 <= k < i :: data[k] == value
    {
      data[i] := value;
    }
  }

  /** progress_array[i] &= response_status->progress_array[i] */
  method AndInto(data: array<Byte>, other: seq<Byte>)
    requires |other| == data.Length
    modifies data
    ensures data[..] == And(old(data[..]), other)
    ensures Members(data[..]) == old(Members(data[..])) * Members(other)
  {
    MembersAnd(data[..], other);
    for i := 0 to data.Length
      invariant forall k | 0 <= k < i :: data[k] == old(data[k]) & other[k]
      invariant forall k | i <= k < data.Length :: data[k] == old(data[k])
    {
      data[i] := data[i] & other[i];
    }
    assert data[..] == And(old(data[..]), other);
  }

  /** The loop that looks for a byte other than 0xFF. */
  method IsFull(data: seq<Byte>) returns (full: bool)
    ensures full <==> forall j: nat | j < 8 * |data| :: j in Members(data)
    ensures full <==> data == Ones(|data|)
  {
    FullIffAllOnes(data);
    full := true;
    var i := 0;
    while i < |data|
      invariant i <= |data|
      invariant full
      invariant forall k | 0 <= k < i :: data[k] == ALL_ONES
    {
      if data[i] != ALL_ONES {
        full := false;
        break;
      }
      i := i + 1;
    }
  }
}
