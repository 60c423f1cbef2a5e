/**
  Packing bytes into the slots of the lattice scheme: pairs of bytes as signed 16-bit
  coefficients, chunked and zero-padded to the slot count. The scheme itself is ideal:
  it returns every slot reduced to the centred range modulo 65537.
*/
module SlotPacking {
  import opened Prelude
  import opened Bytes

  const MODULUS: nat := 65537

  // ------------------------------------------------------------------ coefficients

  /** Two little-endian bytes as a signed 16-bit integer. */
  function SignedPair(lo: byte, hi: byte): int {
    var v := lo + 256 * hi;
    if v >= 32768 then v - 65536 else v
  }

  function ToCoefficients(data: Bytes): (coeffs: seq<int>)
    ensures |coeffs| == (|data| + 1) / 2
  {
    if data == [] then []
    else if |data| == 1 then [data[0]]
    else [SignedPair(data[0], data[1])] + ToCoefficients(data[2..])
  }

  /** The low 16 bits of a coefficient, little-endian. */
  function PairBytes(c: int): Bytes {
    [c % 65536 % 256, c % 65536 / 256]
  }

  function AllPairs(coeffs: seq<int>): (b: Bytes)
    ensures |b| == 2 * |coeffs|
  {
    if coeffs == [] then [] else PairBytes(coeffs[0]) + AllPairs(coeffs[1..])
  }

  function Take(b: Bytes, n: nat): Bytes {
    if n <= |b| then b[..n] else b
  }

  function FromCoefficients(coeffs: seq<int>, originalLen: nat): Bytes {
    Take(AllPairs(coeffs), originalLen)
  }

  /** Reduction to [-32768, 32768] modulo 65537, which the scheme applies to every slot. */
  function Centre(x: int): int {
    var r := x % MODULUS;
    if r > 32768 then r - MODULUS else r
  }

  function CentreAll(xs: seq<int>): (ys: seq<int>)
    ensures |ys| == |xs|
  {
    seq(|xs|, i requires 0 <= i < |xs| => Centre(xs[i]))
  }

  predicate InSlotRange(c: int) { -32768 <= c <= 32767 }

  /** Every coefficient fits the slots, so reduction leaves it alone. */
  lemma {:induction false} CoefficientsFit(data: Bytes)
    ensures forall c :: c in ToCoefficients(data) ==> InSlotRange(c)
  {
    if |data| >= 2 {
      CoefficientsFit(data[2..]);
    }
  }

  /** Coefficient i holds bytes 2i and 2i + 1, the first as the low one, as a signed 16-bit integer; an odd last byte
      stands for itself. */
  lemma {:induction false} CoefficientAt(data: Bytes, i: nat)
    requires i < |ToCoefficients(data)|
    ensures 2 * i < |data|
    ensures var high: int := if 2 * i + 1 < |data| then data[2 * i + 1] else 0; var v: int := data[2 * i] as int + 256 * high;
            ToCoefficients(data)[i] == if v < 32768 then v else v - 65536
  {
    if |data| >= 2 && i > 0 {
      CoefficientAt(data[2..], i - 1);
    }
  }

  /** Reduction picks the representative modulo 65537 closest to zero. */
  lemma CentreExactly(x: int)
    ensures -32768 <= Centre(x) <= 32768 && (x - Centre(x)) % 65537 == 0
  {
  }

  lemma CentreIsIdentity(coeffs: seq<int>)
    requires forall c :: c in coeffs ==> InSlotRange(c)
    ensures CentreAll(coeffs) == coeffs
  {
    forall i | 0 <= i < |coeffs|
      ensures Centre(coeffs[i]) == coeffs[i]
    {
      assert InSlotRange(coeffs[i]);
    }
  }

  /** Unsigned pairs would not do: read as 16 bits, a centred slot is the pair that went in exactly up to 32768. */
  lemma UnsignedPairsFold(v: nat)
    requires v < 65536
    ensures Centre(v) % 65536 == v <==> v <= 32768
    ensures v > 32768 ==> Centre(v) % 65536 == v - 1
  {
    if v > 32768 {
      assert Centre(v) == v - 65537;
      assert (v - 65537) % 65536 == v - 1;
    }
  }

  lemma PairRoundTrip(lo: byte, hi: byte)
    ensures PairBytes(SignedPair(lo, hi)) == [lo, hi]
  {
  }

  /** The pairs of the coefficients spell the data, with a zero behind an odd last byte. */
  lemma {:induction false} PairsSpellData(data: Bytes)
    ensures data <= AllPairs(ToCoefficients(data))
  {
    if |data| == 1 {
      assert AllPairs([data[0] as int]) == PairBytes(data[0]) + AllPairs([]);
    } else if |data| >= 2 {
      PairsSpellData(data[2..]);
      PairRoundTrip(data[0], data[1]);
      var rest := ToCoefficients(data[2..]);
      assert ToCoefficients(data)[1..] == rest;
      assert AllPairs(ToCoefficients(data)) == [data[0], data[1]] + AllPairs(rest);
      assert data == [data[0], data[1]] + data[2..];
    }
  }

  lemma CoefficientsRoundTrip(data: Bytes)
    ensures FromCoefficients(ToCoefficients(data), |data|) == data
  {
    PairsSpellData(data);
  }

  // ------------------------------------------------------------------ the ideal scheme

  type KeyId = nat

  datatype SlotCiphertext = SlotCiphertext(owner: KeyId, slots: seq<int>)

  /** An ideal scheme: the owner reads the centred slots, a recryption key of the owner hands
      them over; anyone else gets arbitrary noise. */
  datatype Scheme = Scheme(slotCount: nat, noise: (KeyId, SlotCiphertext) -> seq<int>)

  function EncryptSlots(pk: KeyId, padded: seq<int>): SlotCiphertext {
    SlotCiphertext(pk, CentreAll(padded))
  }

  function DecryptSlots(s: Scheme, sk: KeyId, ct: SlotCiphertext): seq<int> {
    if sk == ct.owner then ct.slots else s.noise(sk, ct)
  }

  function RecryptSlots(s: Scheme, from: KeyId, to: KeyId, ct: SlotCiphertext): SlotCiphertext {
    SlotCiphertext(to, DecryptSlots(s, from, ct))
  }

  // ------------------------------------------------------------------ chunks

  function Pad(chunk: seq<int>, slotCount: nat): (padded: seq<int>)
    requires |chunk| <= slotCount
    ensures |padded| == slotCount
  {
    chunk + seq(slotCount - |chunk|, _ => 0)
  }

  function Pack(s: Scheme, pk: KeyId, coeffs: seq<int>): seq<SlotCiphertext>
    requires s.slotCount > 0
  {
    if coeffs == [] then []
    else
      var n := if |coeffs| < s.slotCount then |coeffs| else s.slotCount;
      [EncryptSlots(pk, Pad(coeffs[..n], s.slotCount))] + Pack(s, pk, coeffs[n..])
  }

  function Unpack(s: Scheme, sk: KeyId, cts: seq<SlotCiphertext>): seq<int> {
    if cts == [] then [] else DecryptSlots(s, sk, cts[0]) + Unpack(s, sk, cts[1..])
  }

  lemma {:induction false} UnpackAppend(s: Scheme, sk: KeyId, cts: seq<SlotCiphertext>, ct: SlotCiphertext)
    ensures Unpack(s, sk, cts + [ct]) == Unpack(s, sk, cts) + DecryptSlots(s, sk, ct)
  {
    if cts == [] {
      assert Unpack(s, sk, [ct]) == DecryptSlots(s, sk, ct) + Unpack(s, sk, []);
      assert cts + [ct] == [ct];
    } else {
      assert (cts + [ct])[1..] == cts[1..] + [ct];
      UnpackAppend(s, sk, cts[1..], ct);
    }
  }

  function RecryptAll(s: Scheme, from: KeyId, to: KeyId, cts: seq<SlotCiphertext>): (r: seq<SlotCiphertext>)
    ensures |r| == |cts|
  {
    seq(|cts|, i requires 0 <= i < |cts| => RecryptSlots(s, from, to, cts[i]))
  }

  function Recovered(s: Scheme, sk: KeyId, cts: seq<SlotCiphertext>, originalLen: nat): Bytes {
    var all := Unpack(s, sk, cts);
    var count := (originalLen + 1) / 2;
    FromCoefficients(if count <= |all| then all[..count] else all, originalLen)
  }

  // ------------------------------------------------------------------ the program's loops

  lemma PackStep(s: Scheme, pk: KeyId, coeffs: seq<int>, at: nat, end: nat)
    requires s.slotCount > 0 && at < |coeffs|
    requires end == if |coeffs| - at < s.slotCount then |coeffs| else at + s.slotCount
    ensures Pack(s, pk, coeffs[at..])
            == [EncryptSlots(pk, Pad(coeffs[at..end], s.slotCount))] + Pack(s, pk, coeffs[end..])
  {
    var rest := coeffs[at..];
    assert rest[..end - at] == coeffs[at..end] && rest[end - at..] == coeffs[end..];
  }

  method Encrypt(s: Scheme, pk: KeyId, data: Bytes) returns (cts: seq<SlotCiphertext>)
    requires s.slotCount > 0
    ensures cts == Pack(s, pk, ToCoefficients(data))
  {
    var coeffs := ToCoefficients(data);
    cts := [];
    var at := 0;
    while at < |coeffs|
      invariant at <= |coeffs|
      invariant cts + Pack(s, pk, coeffs[at..]) == Pack(s, pk, coeffs)
    {
      var end := if |coeffs| - at < s.slotCount then |coeffs| else at + s.slotCount;
      var padded := coeffs[at..end];
      padded := padded + seq(s.slotCount - |padded|, _ => 0);
      PackStep(s, pk, coeffs, at, end);
      Assoc(cts, [EncryptSlots(pk, padded)], Pack(s, pk, coeffs[end..]));
      cts := cts + [EncryptSlots(pk, padded)];
      at := end;
    }
    assert coeffs[at..] == [];
  }

  method Decrypt(s: Scheme, sk: KeyId, cts: seq<SlotCiphertext>, originalLen: nat) returns (data: Bytes)
    ensures data == Recovered(s, sk, cts, originalLen)
  {
    var all := [];
    for i := 0 to |cts|
      invariant all == Unpack(s, sk, cts[..i])
    {
      assert cts[..i + 1] == cts[..i] + [cts[i]];
      UnpackAppend(s, sk, cts[..i], cts[i]);
      all := all + DecryptSlots(s, sk, cts[i]);
    }
    assert cts[..|cts|] == cts;
    var count := (originalLen + 1) / 2;
    data := FromCoefficients(all[..if count <= |all| then count else |all|], originalLen);
    assert all[..|all|] == all;
  }

  method Recrypt(s: Scheme, from: KeyId, to: KeyId, cts: seq<SlotCiphertext>) returns (r: seq<SlotCiphertext>)
    ensures r == RecryptAll(s, from, to, cts)
  {
    r := [];
    for i := 0 to |cts|
      invariant r == RecryptAll(s, from, to, cts[..i])
    {
      r := r + [RecryptSlots(s, from, to, cts[i])];
      assert cts[..i + 1] == cts[..i] + [cts[i]];
    }
    assert cts[..|cts|] == cts;
  }

  lemma PlaceShifts(j: nat, n: nat)
    requires j > 0
    ensures j * n == (j - 1) * n + n
  {
  }

  /** Slot k of ciphertext j holds coefficient j * slotCount + k, reduced, or zero past the end; all ciphertexts are
      full and belong to the recipient, and none is without a coefficient. */
  lemma {:induction false} PackExactly(s: Scheme, pk: KeyId, coeffs: seq<int>, j: nat, k: nat)
    requires s.slotCount > 0 && j < |Pack(s, pk, coeffs)| && k < s.slotCount
    ensures var ct, at := Pack(s, pk, coeffs)[j], j * s.slotCount + k;
            && ct.owner == pk && |ct.slots| == s.slotCount && j * s.slotCount < |coeffs|
            && ct.slots[k] == if at < |coeffs| then Centre(coeffs[at]) else 0
    decreases j
  {
    var n := if |coeffs| < s.slotCount then |coeffs| else s.slotCount;
    if j > 0 {
      PackExactly(s, pk, coeffs[n..], j - 1, k);
      PlaceShifts(j, s.slotCount);
    }
  }

  // ------------------------------------------------------------------ exactness

  /** All ciphertexts belong to `owner` and hold, in order and up to padding, these coefficients. */
  ghost predicate Carries(s: Scheme, owner: KeyId, cts: seq<SlotCiphertext>, coeffs: seq<int>) {
    && (forall i :: 0 <= i < |cts| ==> cts[i].owner == owner)
    && coeffs <= Unpack(s, owner, cts)
  }

  lemma {:induction false} PackCarries(s: Scheme, pk: KeyId, coeffs: seq<int>)
    requires s.slotCount > 0 && forall c :: c in coeffs ==> InSlotRange(c)
    ensures Carries(s, pk, Pack(s, pk, coeffs), coeffs)
    decreases |coeffs|
  {
    if coeffs != [] {
      var n := if |coeffs| < s.slotCount then |coeffs| else s.slotCount;
      var padded := Pad(coeffs[..n], s.slotCount);
      forall c | c in padded
        ensures InSlotRange(c)
      {
        if c in coeffs[..n] { assert c in coeffs; }
      }
      CentreIsIdentity(padded);
      PackCarries(s, pk, coeffs[n..]);
      var rest := Pack(s, pk, coeffs[n..]);
      assert Unpack(s, pk, [EncryptSlots(pk, padded)] + rest) == padded + Unpack(s, pk, rest) by {
        assert ([EncryptSlots(pk, padded)] + rest)[1..] == rest;
      }
      assert coeffs == coeffs[..n] + coeffs[n..];
      if n < |coeffs| {
        assert padded == coeffs[..n];
      } else {
        assert coeffs[n..] == [] && coeffs[..n] == coeffs;
      }
    }
  }

  lemma {:induction false} RecryptKeepsSlots(s: Scheme, from: KeyId, to: KeyId, cts: seq<SlotCiphertext>)
    requires forall i :: 0 <= i < |cts| ==> cts[i].owner == from
    ensures Unpack(s, to, RecryptAll(s, from, to, cts)) == Unpack(s, from, cts)
  {
    if cts != [] {
      RecryptKeepsSlots(s, from, to, cts[1..]);
      assert RecryptAll(s, from, to, cts)[1..] == RecryptAll(s, from, to, cts[1..]);
    }
  }

  lemma RecryptCarries(s: Scheme, from: KeyId, to: KeyId, cts: seq<SlotCiphertext>, coeffs: seq<int>)
    requires Carries(s, from, cts, coeffs)
    ensures Carries(s, to, RecryptAll(s, from, to, cts), coeffs)
  {
    RecryptKeepsSlots(s, from, to, cts);
  }

  lemma PrefixIsTake(a: seq<int>, b: seq<int>)
    requires a <= b
    ensures |a| <= |b| && b[..|a|] == a
  {
  }

  lemma CarriedIsRecovered(s: Scheme, owner: KeyId, cts: seq<SlotCiphertext>, data: Bytes)
    requires Carries(s, owner, cts, ToCoefficients(data))
    ensures Recovered(s, owner, cts, |data|) == data
  {
    var coeffs, all := ToCoefficients(data), Unpack(s, owner, cts);
    PrefixIsTake(coeffs, all);
    CoefficientsRoundTrip(data);
  }

  /** Packing is exact for every byte string and every positive slot count. */
  lemma PackingIsExact(s: Scheme, pk: KeyId, data: Bytes)
    requires s.slotCount > 0
    ensures Recovered(s, pk, Pack(s, pk, ToCoefficients(data)), |data|) == data
  {
    CoefficientsFit(data);
    PackCarries(s, pk, ToCoefficients(data));
    CarriedIsRecovered(s, pk, Pack(s, pk, ToCoefficients(data)), data);
  }
}
