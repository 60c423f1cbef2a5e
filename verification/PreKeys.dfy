/** Proxy-recryption keys and ciphertexts, and their byte codecs. */
module PreKeys {
  import opened Prelude
  import opened Bytes

  datatype BackendId = Lattice | EcPairing | EcSecp256k1 | Mock

  datatype PublicKey = PublicKey(backend: BackendId, bytes: Bytes)
  datatype SecretKey = SecretKey(backend: BackendId, bytes: Bytes)
  datatype RecryptKey = RecryptKey(backend: BackendId, fromPublic: PublicKey, toPublic: PublicKey, bytes: Bytes)
  datatype Ciphertext = Ciphertext(backend: BackendId, level: byte, bytes: Bytes)

  /** `Panics` stands for an out-of-bounds slice or index in the program. */
  datatype PreError = InvalidKey | Deserialization | Serialization | Encryption | Decryption | Recryption | KeyGeneration | Panics

  function IdByte(id: BackendId): byte {
    match id
    case Lattice => 0
    case EcPairing => 1
    case EcSecp256k1 => 2
    case Mock => 255
  }

  function IdFromByte(b: byte): Result<BackendId, PreError> {
    if b == 0 then Ok(Lattice)
    else if b == 1 then Ok(EcPairing)
    else if b == 2 then Ok(EcSecp256k1)
    else if b == 255 then Ok(Mock)
    else Err(InvalidKey)
  }

  function PublicKeyBytes(k: PublicKey): Bytes {
    [IdByte(k.backend)] + k.bytes
  }

  function ParsePublicKey(b: Bytes): Result<PublicKey, PreError> {
    if b == [] then Err(InvalidKey)
    else match IdFromByte(b[0])
      case Err(e) => Err(e)
      case Ok(id) => Ok(PublicKey(id, b[1..]))
  }

  function CiphertextBytes(c: Ciphertext): Bytes {
    [IdByte(c.backend), c.level] + c.bytes
  }

  function ParseCiphertext(b: Bytes): Result<Ciphertext, PreError> {
    if |b| < 2 then Err(Deserialization)
    else match IdFromByte(b[0])
      case Err(e) => Err(e)
      case Ok(id) => Ok(Ciphertext(id, b[1], b[2..]))
  }

  /** Parsing accepts exactly the written forms, each as the key it was written from. */
  lemma PublicKeyCodec(b: Bytes, k: PublicKey)
    ensures ParsePublicKey(b) == Ok(k) <==> b == PublicKeyBytes(k)
  {
    if ParsePublicKey(b) == Ok(k) {
      assert b == [b[0]] + b[1..];
    }
  }

  lemma CiphertextCodec(b: Bytes, c: Ciphertext)
    ensures ParseCiphertext(b) == Ok(c) <==> b == CiphertextBytes(c)
  {
    if ParseCiphertext(b) == Ok(c) {
      assert b == [b[0], b[1]] + b[2..];
    }
  }

  // ------------------------------------------------------------------ recryption keys

  function RecryptKeyBytes(k: RecryptKey): Bytes {
    [IdByte(k.backend)] + (Frame(PublicKeyBytes(k.fromPublic)) + (Frame(PublicKeyBytes(k.toPublic)) + k.bytes))
  }

  /** Both public keys fit their 32-bit length prefix. */
  predicate KeysFit(k: RecryptKey) {
    |k.fromPublic.bytes| + 1 < U32 && |k.toPublic.bytes| + 1 < U32
  }

  /** A length-prefixed public key and what follows it. */
  function ReadPublicKey(b: Bytes): Result<(PublicKey, Bytes), PreError> {
    if |b| < 4 then Err(Deserialization)
    else
      var n := FromLittleEndian(b[..4]);
      if 4 + n > |b| then Err(Deserialization)
      else match ParsePublicKey(b[4..4 + n])
        case Err(e) => Err(e)
        case Ok(k) => Ok((k, b[4 + n..]))
  }

  function ParseRecryptKey(b: Bytes): Result<RecryptKey, PreError> {
    if |b| < 9 then Err(Deserialization)
    else match IdFromByte(b[0])
      case Err(e) => Err(e)
      case Ok(id) =>
        match ReadPublicKey(b[1..])
        case Err(e) => Err(e)
        case Ok((fromPublic, rest)) =>
          match ReadPublicKey(rest)
          case Err(e) => Err(e)
          case Ok((toPublic, keyBytes)) => Ok(RecryptKey(id, fromPublic, toPublic, keyBytes))
  }

  method RecryptKeyToBytes(k: RecryptKey) returns (out: Bytes)
    ensures out == RecryptKeyBytes(k)
  {
    out := [IdByte(k.backend)];
    var fromBytes := PublicKeyBytes(k.fromPublic);
    out := WriteFrame(out, fromBytes);
    var toBytes := PublicKeyBytes(k.toPublic);
    out := WriteFrame(out, toBytes);
    out := out + k.bytes;
    Assoc([IdByte(k.backend)] + Frame(fromBytes), Frame(toBytes), k.bytes);
    Assoc([IdByte(k.backend)], Frame(fromBytes), Frame(toBytes) + k.bytes);
  }

  /** The cursor walk; every slice it takes is in bounds, for every input. */
  method RecryptKeyFromBytes(bytes: Bytes) returns (r: Result<RecryptKey, PreError>)
    ensures r == ParseRecryptKey(bytes)
  {
    if |bytes| < 9 {
      return Err(Deserialization);
    }
    var id := IdFromByte(bytes[0]);
    if id.Err? {
      return Err(id.error);
    }
    var pos := 1;

    ghost var start := bytes[pos..];
    var fromLen := FromLittleEndian(bytes[pos..pos + 4]);
    assert start[..4] == bytes[pos..pos + 4];
    pos := pos + 4;
    if pos + fromLen > |bytes| {
      return Err(Deserialization);
    }
    DropSlice(bytes, 1, 4, 4 + fromLen);
    var fromPublic := ParsePublicKey(bytes[pos..pos + fromLen]);
    if fromPublic.Err? {
      return Err(fromPublic.error);
    }
    pos := pos + fromLen;
    ghost var rest := bytes[pos..];
    assert start[4 + fromLen..] == rest;

    if pos + 4 > |bytes| {
      return Err(Deserialization);
    }
    var toLen := FromLittleEndian(bytes[pos..pos + 4]);
    assert rest[..4] == bytes[pos..pos + 4];
    pos := pos + 4;
    if pos + toLen > |bytes| {
      return Err(Deserialization);
    }
    assert rest[4..4 + toLen] == bytes[pos..pos + toLen];
    var toPublic := ParsePublicKey(bytes[pos..pos + toLen]);
    if toPublic.Err? {
      return Err(toPublic.error);
    }
    pos := pos + toLen;
    assert rest[4 + toLen..] == bytes[pos..];
    r := Ok(RecryptKey(id.value, fromPublic.value, toPublic.value, bytes[pos..]));
  }

  lemma ReadPublicKeyExact(b: Bytes, k: PublicKey, rest: Bytes)
    ensures ReadPublicKey(b) == Ok((k, rest)) <==> |k.bytes| + 1 < U32 && b == Frame(PublicKeyBytes(k)) + rest
  {
    Pow256Values();
    var body := PublicKeyBytes(k);
    if |body| < U32 && b == Frame(body) + rest {
      LittleEndianRead(|body|, 4);
      assert b[..4] == LittleEndian(|body|, 4);
      assert b[4..4 + |body|] == body && b[4 + |body|..] == rest;
      PublicKeyCodec(body, k);
    }
    if ReadPublicKey(b) == Ok((k, rest)) {
      LittleEndianWrite(b[..4]);
      var n := FromLittleEndian(b[..4]);
      PublicKeyCodec(b[4..4 + n], k);
      assert b == b[..4] + b[4..4 + n] + b[4 + n..];
    }
  }

  /** The codec is a bijection between the keys that fit and the byte strings it accepts. */
  lemma RecryptKeyCodec(b: Bytes, k: RecryptKey)
    ensures ParseRecryptKey(b) == Ok(k) <==> KeysFit(k) && b == RecryptKeyBytes(k)
  {
    var tail := Frame(PublicKeyBytes(k.toPublic)) + k.bytes;
    if b != [] {
      ReadPublicKeyExact(b[1..], k.fromPublic, tail);
      ReadPublicKeyExact(tail, k.toPublic, k.bytes);
      assert b == [b[0]] + b[1..];
    }
    if ParseRecryptKey(b) == Ok(k) {
      var rest := ReadPublicKey(b[1..]).value.1;
      ReadPublicKeyExact(rest, k.toPublic, k.bytes);
      ReadPublicKeyExact(b[1..], k.fromPublic, rest);
    }
    if KeysFit(k) && b == RecryptKeyBytes(k) {
      assert b[0] == IdByte(k.backend) && b[1..] == Frame(PublicKeyBytes(k.fromPublic)) + tail;
      assert |b| >= 9;
    }
  }

  /** The backend bytes, and the layouts: a key is its backend and its bytes, a ciphertext its backend, level and
      bytes, a recryption key its backend, the sender's key, the recipient's key, each behind its length, and
      its bytes. */
  lemma Layouts(k: PublicKey, c: Ciphertext, rk: RecryptKey)
    ensures IdByte(Lattice) == 0 && IdByte(EcPairing) == 1 && IdByte(EcSecp256k1) == 2 && IdByte(Mock) == 255
    ensures PublicKeyBytes(k) == [IdByte(k.backend)] + k.bytes
    ensures CiphertextBytes(c) == [IdByte(c.backend), c.level] + c.bytes
    ensures var from, to := [IdByte(rk.fromPublic.backend)] + rk.fromPublic.bytes, [IdByte(rk.toPublic.backend)] + rk.toPublic.bytes;
            RecryptKeyBytes(rk)
            == [IdByte(rk.backend)] + ((LittleEndian(|from|, 4) + from) + ((LittleEndian(|to|, 4) + to) + rk.bytes))
  {
  }

  /** Why parsing fails: unknown backend bytes and empty public keys are invalid keys, everything else that is too
      short is a malformed message. */
  lemma ParseFailures(b: Bytes)
    ensures ParsePublicKey(b).Err? <==> b == [] || b[0] !in {0, 1, 2, 255}
    ensures ParsePublicKey(b).Err? ==> ParsePublicKey(b) == Err(InvalidKey)
    ensures ParseCiphertext(b) == Err(Deserialization) <==> |b| < 2
    ensures ParseCiphertext(b) == Err(InvalidKey) <==> |b| >= 2 && b[0] !in {0, 1, 2, 255}
    ensures |b| < 9 ==> ParseRecryptKey(b) == Err(Deserialization)
    ensures |b| >= 9 && b[0] !in {0, 1, 2, 255} ==> ParseRecryptKey(b) == Err(InvalidKey)
    ensures |b| >= 9 && b[0] in {0, 1, 2, 255} && ReadPublicKey(b[1..]).Err? ==>
              ParseRecryptKey(b) == Err(ReadPublicKey(b[1..]).error)
    ensures |b| >= 9 && b[0] in {0, 1, 2, 255} && ReadPublicKey(b[1..]).Ok? && ReadPublicKey(ReadPublicKey(b[1..]).value.1).Err? ==>
              ParseRecryptKey(b) == Err(ReadPublicKey(ReadPublicKey(b[1..]).value.1).error)
  {
  }

  lemma ReadFailures(b: Bytes)
    ensures ReadPublicKey(b) == Err(Deserialization) <==> |b| < 4 || 4 + FromLittleEndian(b[..4]) > |b|
    ensures ReadPublicKey(b).Err? ==> ReadPublicKey(b).error in {Deserialization, InvalidKey}
  {
  }
}
