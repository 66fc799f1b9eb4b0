/** The eight-bit candidate buckets of the vector index and the nine of them a query probes. */
module Buckets {

  const BITS: nat := 8

  type Bits = bv8

  function Mask(i: nat): Bits
    requires i < BITS
  {
    match i
    case 0 => 1
    case 1 => 2
    case 2 => 4
    case 3 => 8
    case 4 => 16
    case 5 => 32
    case 6 => 64
    case _ => 128
  }

  predicate Has(b: Bits, i: nat)
    requires i < BITS
  {
    b & Mask(i) != 0
  }

  lemma SettingOneBit(b: Bits, i: nat, j: nat)
    requires i < BITS && j < BITS
    ensures Has(b | Mask(i), j) <==> i == j || Has(b, j)
  {
  }

  /** The first `n` bits are the signs of the first `n` hyperplane sums, the others are clear. */
  ghost predicate AreSigns(bits: Bits, sums: seq<real>, n: nat)
    requires |sums| == BITS
  {
    forall j: nat :: j < BITS ==> (Has(bits, j) <==> j < n && sums[j] >= 0.0)
  }

  lemma SignsStep(bits: Bits, sums: seq<real>, n: nat)
    requires |sums| == BITS && n < BITS && AreSigns(bits, sums, n)
    ensures AreSigns(if sums[n] >= 0.0 then bits | Mask(n) else bits, sums, n + 1)
  {
    forall j: nat | j < BITS
      ensures Has(if sums[n] >= 0.0 then bits | Mask(n) else bits, j) <==> j < n + 1 && sums[j] >= 0.0
    {
      SettingOneBit(bits, n, j);
      assert Has(bits, j) <==> j < n && sums[j] >= 0.0;
      hide Has, Mask;
    }
  }

  method Bucket(sums: seq<real>) returns (bits: Bits)
    requires |sums| == BITS
    ensures AreSigns(bits, sums, BITS)
  {
    bits := 0;
    for bit := 0 to BITS
      invariant AreSigns(bits, sums, bit)
    {
      SignsStep(bits, sums, bit);
      hide *;
      if sums[bit] >= 0.0 {
        bits := bits | Mask(bit);
      }
    }
  }

  function Probes(center: Bits): seq<Bits> {
    [center, center ^ 1, center ^ 2, center ^ 4, center ^ 8, center ^ 16, center ^ 32, center ^ 64, center ^ 128]
  }

  /** At most one sign differs. */
  ghost predicate Near(a: Bits, b: Bits) {
    forall i: nat, j: nat :: i < BITS && j < BITS && Has(a, i) != Has(b, i) && Has(a, j) != Has(b, j) ==> i == j
  }

  lemma FlipDiffers(a: Bits, i: nat, j: nat)
    requires i < BITS && j < BITS
    ensures (Has(a ^ Mask(i), j) != Has(a, j)) <==> i == j
  {
  }

  lemma SameBits(a: Bits, b: Bits)
    requires forall i: nat :: i < BITS ==> Has(a, i) == Has(b, i)
    ensures a == b
  {
    assert Has(a, 0) == Has(b, 0) && Has(a, 1) == Has(b, 1) && Has(a, 2) == Has(b, 2) && Has(a, 3) == Has(b, 3);
    assert Has(a, 4) == Has(b, 4) && Has(a, 5) == Has(b, 5) && Has(a, 6) == Has(b, 6) && Has(a, 7) == Has(b, 7);
  }

  lemma ProbeAt(center: Bits, i: nat)
    requires i < BITS
    ensures Probes(center)[i + 1] == center ^ Mask(i) && center ^ Mask(i) in Probes(center)
  {
    assert Probes(center)[i + 1] == center ^ Mask(i);
  }

  lemma ProbeIsFlip(center: Bits, b: Bits)
    requires b in Probes(center) && b != center
    ensures exists i: nat :: i < BITS && b == center ^ Mask(i)
  {
    var k :| 0 <= k < |Probes(center)| && Probes(center)[k] == b;
    assert k > 0;
    ProbeAt(center, k - 1);
    hide Mask;
  }

  /** The probed buckets are exactly those whose signs differ from the query's in at most one place. */
  lemma ProbesAreNear(center: Bits, b: Bits)
    ensures b in Probes(center) <==> Near(center, b)
  {
    hide Has, Mask;
    if b == center {
      assert Probes(center)[0] == b;
    } else if b in Probes(center) {
      ProbeIsFlip(center, b);
      var i: nat :| i < BITS && b == center ^ Mask(i);
      forall j: nat | j < BITS
        ensures Has(center, j) != Has(b, j) <==> i == j
      {
        FlipDiffers(center, i, j);
      }
    } else if Near(center, b) {
      NearIsProbed(center, b);
    }
  }

  lemma NearIsProbed(center: Bits, b: Bits)
    requires Near(center, b) && b != center
    ensures b in Probes(center)
  {
    hide Has, Mask, Probes;
    if forall i: nat :: i < BITS ==> Has(center, i) == Has(b, i) {
      SameBits(center, b);
    }
    var i: nat :| i < BITS && Has(center, i) != Has(b, i);
    forall j: nat | j < BITS
      ensures Has(center ^ Mask(i), j) == Has(b, j)
    {
      FlipDiffers(center, i, j);
    }
    SameBits(center ^ Mask(i), b);
    ProbeAt(center, i);
  }
}
