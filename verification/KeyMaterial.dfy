/** The 96-byte bundle a file's wrapped key protects: cipher key, nonce, plaintext hash and size. */
module KeyMaterial {
  import opened Prelude
  import opened Bytes
  import opened PreKeys

  type Bytes24 = b: Bytes | |b| == 24 witness seq(24, _ => 0)

  const SERIALIZED_SIZE: nat := 96
  const CURRENT_VERSION: byte := 1
  const MAX_PLAINTEXT_SIZE: nat := 0x100_0000_0000_0000 - 1

  datatype Material = Material(symmetricKey: Bytes32, nonce: Bytes24, plaintextHash: Bytes32, plaintextSize: u64)

  function MaterialLayout(m: Material): (b: Bytes)
    ensures |b| == SERIALIZED_SIZE
  {
    [CURRENT_VERSION] + m.symmetricKey + m.nonce + m.plaintextHash + LittleEndian(m.plaintextSize, 7)
  }

  function MaterialBytes(m: Material): Result<Bytes, PreError> {
    if m.plaintextSize > MAX_PLAINTEXT_SIZE then Err(Serialization) else Ok(MaterialLayout(m))
  }

  function ParseMaterial(b: Bytes): Result<Material, PreError> {
    if |b| != SERIALIZED_SIZE then Err(Deserialization)
    else if b[0] != CURRENT_VERSION then Err(Deserialization)
    else
      LittleEndianWrite(b[89..96]);
      Pow256Values();
      Ok(Material(b[1..33], b[33..57], b[57..89], FromLittleEndian(b[89..96])))
  }

  /** Writing and reading are inverse on everything either accepts: bundles below 2^56 bytes. */
  lemma MaterialCodec(b: Bytes, m: Material)
    ensures ParseMaterial(b) == Ok(m) <==> MaterialBytes(m) == Ok(b)
  {
    Pow256Values();
    if ParseMaterial(b) == Ok(m) {
      LittleEndianWrite(b[89..96]);
      assert b == [b[0]] + b[1..33] + b[33..57] + b[57..89] + b[89..96];
    }
    if MaterialBytes(m) == Ok(b) {
      LittleEndianRead(m.plaintextSize, 7);
      assert b[1..33] == m.symmetricKey && b[33..57] == m.nonce && b[57..89] == m.plaintextHash;
      assert b[89..96] == LittleEndian(m.plaintextSize, 7);
    }
  }

  /** The 96 bytes: version 1, key, nonce, hash, and the size in seven bytes; larger sizes are refused. */
  lemma MaterialForm(m: Material)
    ensures MaterialBytes(m).Ok? <==> m.plaintextSize < 0x100_0000_0000_0000
    ensures MaterialBytes(m).Err? ==> MaterialBytes(m) == Err(Serialization)
    ensures MaterialBytes(m).Ok? ==>
              var b := MaterialBytes(m).value;
              && |b| == 96 && b[0] == 1 && b[1..33] == m.symmetricKey && b[33..57] == m.nonce
              && b[57..89] == m.plaintextHash && b[89..96] == LittleEndian(m.plaintextSize, 7)
  {
  }

  lemma ParseFailures(b: Bytes)
    ensures ParseMaterial(b).Err? <==> |b| != 96 || b[0] != 1
    ensures ParseMaterial(b).Err? ==> ParseMaterial(b) == Err(Deserialization)
  {
  }

  method CopyFromSlice(out: array<byte>, at: nat, src: Bytes)
    requires at + |src| <= out.Length
    modifies out
    ensures out[..] == old(out[..at]) + src + old(out[at + |src|..])
  {
    for i := 0 to |src|
      invariant out[..at] == old(out[..at])
      invariant out[at..at + i] == src[..i]
      invariant out[at + |src|..] == old(out[at + |src|..])
    {
      out[at + i] := src[i];
    }
    assert out[..] == out[..at] + out[at..at + |src|] + out[at + |src|..];
  }

  lemma LowSevenBytes(n: nat)
    ensures LittleEndian(n, 8)[..7] == LittleEndian(n, 7)
  {
    LowBytes(n, 7);
  }

  lemma {:induction false} LowBytes(n: nat, width: nat)
    ensures LittleEndian(n, width + 1)[..width] == LittleEndian(n, width)
  {
    if width > 0 {
      LowBytes(n / 256, width - 1);
      assert LittleEndian(n, width + 1)[..width] == [n % 256] + LittleEndian(n / 256, width)[..width - 1];
    }
  }

  /** Fills a fixed buffer slice by slice, the size in its low seven bytes. */
  method MaterialToBytes(m: Material) returns (r: Result<Bytes, PreError>)
    ensures r == MaterialBytes(m)
  {
    if m.plaintextSize > MAX_PLAINTEXT_SIZE {
      return Err(Serialization);
    }
    var out := new byte[SERIALIZED_SIZE](_ => 0);
    out[0] := CURRENT_VERSION;
    CopyFromSlice(out, 1, m.symmetricKey);
    assert out[..33] == [CURRENT_VERSION] + m.symmetricKey;
    CopyFromSlice(out, 33, m.nonce);
    assert out[..57] == [CURRENT_VERSION] + m.symmetricKey + m.nonce;
    CopyFromSlice(out, 57, m.plaintextHash);
    assert out[..89] == [CURRENT_VERSION] + m.symmetricKey + m.nonce + m.plaintextHash;
    var sizeBytes := LittleEndian(m.plaintextSize, 8);
    LowSevenBytes(m.plaintextSize);
    ghost var head := out[..89];
    CopyFromSlice(out, 89, sizeBytes[..7]);
    assert out[..] == head + sizeBytes[..7];
    r := Ok(out[..]);
  }

  lemma {:induction false} ZeroExtend(b: Bytes)
    ensures FromLittleEndian(b + [0]) == FromLittleEndian(b)
  {
    if b == [] {
      assert FromLittleEndian([0]) == 0 + 256 * FromLittleEndian([]);
      assert b + [0] == [0];
    } else {
      assert (b + [0])[1..] == b[1..] + [0];
      ZeroExtend(b[1..]);
    }
  }

  /** Reads the size back through an eight-byte buffer whose top byte stays zero. */
  method MaterialFromBytes(bytes: Bytes) returns (r: Result<Material, PreError>)
    ensures r == ParseMaterial(bytes)
  {
    if |bytes| != SERIALIZED_SIZE {
      return Err(Deserialization);
    }
    if bytes[0] != CURRENT_VERSION {
      return Err(Deserialization);
    }
    var sizeBytes := new byte[8](_ => 0);
    CopyFromSlice(sizeBytes, 0, bytes[89..96]);
    assert sizeBytes[..] == bytes[89..96] + [0];
    ZeroExtend(bytes[89..96]);
    LittleEndianWrite(bytes[89..96]);
    Pow256Values();
    var plaintextSize := FromLittleEndian(sizeBytes[..]);
    r := Ok(Material(bytes[1..33], bytes[33..57], bytes[57..89], plaintextSize));
  }
}
