/** The lattice backend: one packed ciphertext behind the 32-bit length of its plaintext. */
module LatticePre {
  import opened Prelude
  import opened Bytes
  import opened PreKeys
  import opened SlotPacking
  import H = Hybrid
  import KM = KeyMaterial
  import MP = MockPre
  import SC = StreamCipher

  const MAX_PLAINTEXT: nat := 96

  /** The scheme's own ciphertext serialization. */
  datatype Serial = Serial(write: SlotCiphertext -> Bytes, read: Bytes -> Option<SlotCiphertext>)

  ghost predicate Lossless(f: Serial) {
    forall ct :: f.read(f.write(ct)) == Some(ct)
  }

  function LatticeEncrypt(s: Scheme, f: Serial, pk: KeyId, plaintext: Bytes): Result<Ciphertext, PreError>
    requires s.slotCount > 0
  {
    if |plaintext| > MAX_PLAINTEXT then Err(PreError.Encryption)
    else
      var cts := Pack(s, pk, ToCoefficients(plaintext));
      if |cts| != 1 then Err(PreError.Encryption)
      else Ok(Ciphertext(Lattice, 0, LittleEndian(|plaintext|, 4) + f.write(cts[0])))
  }

  function LatticeDecrypt(s: Scheme, f: Serial, sk: KeyId, ct: Ciphertext): Result<Bytes, PreError> {
    if |ct.bytes| < 4 then Err(PreError.Decryption)
    else match f.read(ct.bytes[4..])
      case None => Err(PreError.Decryption)
      case Some(inner) => Ok(Recovered(s, sk, [inner], FromLittleEndian(ct.bytes[..4])))
  }

  /** Keeps the length prefix, hands over the inner ciphertext, counts the hop in a wrapping byte. */
  function LatticeRecrypt(s: Scheme, f: Serial, from: KeyId, to: KeyId, ct: Ciphertext): Result<Ciphertext, PreError> {
    if |ct.bytes| < 4 then Err(PreError.Recryption)
    else match f.read(ct.bytes[4..])
      case None => Err(PreError.Recryption)
      case Some(inner) =>
        Ok(Ciphertext(Lattice, (ct.level + 1) % 256, ct.bytes[..4] + f.write(RecryptSlots(s, from, to, inner))))
  }

  lemma {:induction false} PackSize(s: Scheme, pk: KeyId, coeffs: seq<int>)
    requires s.slotCount > 0
    ensures |Pack(s, pk, coeffs)| == 1 <==> 1 <= |coeffs| <= s.slotCount
    ensures Pack(s, pk, coeffs) == [] <==> coeffs == []
  {
    if coeffs != [] {
      var n := if |coeffs| < s.slotCount then |coeffs| else s.slotCount;
      if n < |coeffs| {
        var next := coeffs[n..];
        assert next != [];
      }
    }
  }

  /** Encryption succeeds exactly for plaintexts of 1 to 96 bytes that fit one ciphertext. */
  lemma EncryptAccepts(s: Scheme, f: Serial, pk: KeyId, plaintext: Bytes)
    requires s.slotCount > 0
    ensures LatticeEncrypt(s, f, pk, plaintext).Ok? <==>
            1 <= |plaintext| <= 96 && (|plaintext| + 1) / 2 <= s.slotCount
    ensures LatticeEncrypt(s, f, pk, plaintext).Err? ==> LatticeEncrypt(s, f, pk, plaintext) == Err(PreError.Encryption)
  {
    PackSize(s, pk, ToCoefficients(plaintext));
  }

  /** The form of what the backend makes: level 0 and a four-byte length on encryption; the same four bytes and one
      level more, wrapping at 256, on recryption. What is too short or does not parse fails. */
  lemma FormsAndFailures(s: Scheme, f: Serial, from: KeyId, to: KeyId, plaintext: Bytes, ct: Ciphertext)
    requires s.slotCount > 0
    ensures var sent := LatticeEncrypt(s, f, from, plaintext);
            sent.Ok? ==> sent.value.backend == Lattice && sent.value.level == 0 && |sent.value.bytes| >= 4
                         && sent.value.bytes[..4] == LittleEndian(|plaintext|, 4)
    ensures var r := LatticeRecrypt(s, f, from, to, ct);
            && (r.Ok? <==> |ct.bytes| >= 4 && f.read(ct.bytes[4..]).Some?) && (r.Err? ==> r == Err(PreError.Recryption))
            && (r.Ok? ==> r.value.backend == Lattice && r.value.level == (ct.level + 1) % 256
                          && |r.value.bytes| >= 4 && r.value.bytes[..4] == ct.bytes[..4])
    ensures var r := LatticeDecrypt(s, f, from, ct);
            (r.Ok? <==> |ct.bytes| >= 4 && f.read(ct.bytes[4..]).Some?) && (r.Err? ==> r == Err(PreError.Decryption))
  {
  }

  /** Unreadable keys fail with the operation's own error. */
  lemma KeyFailures(s: Scheme, f: Serial, k: KeySerial, rk: RecryptKey, secret: SecretKey, to: PublicKey, ct: Ciphertext)
    requires s.slotCount > 0
    ensures k.readPublic(to.bytes).None? ==> EncryptTo(s, f, k, to, []) == Err(PreError.Encryption)
    ensures k.readSecret(secret.bytes).None? ==> DecryptWith(s, f, k, secret, ct) == Err(PreError.Decryption)
    ensures k.readRecrypt(rk.bytes).None? ==> RecryptWith(s, f, k, rk, ct) == Err(PreError.Recryption)
    ensures LatticeRecryptKey(k, secret, to).Ok? <==> k.readSecret(secret.bytes).Some? && k.readPublic(to.bytes).Some?
    ensures LatticeRecryptKey(k, secret, to).Err? ==> LatticeRecryptKey(k, secret, to) == Err(KeyGeneration)
    ensures LatticeRecryptKey(k, secret, to).Ok? ==>
              var made := LatticeRecryptKey(k, secret, to).value;
              made == RecryptKey(Lattice, PublicKey(Lattice, []), to,
                                 k.writeRecrypt(k.readSecret(secret.bytes).value, k.readPublic(to.bytes).value))
  {
  }

  /** The ciphertext carries `message` for this owner behind its true length. */
  ghost predicate Wraps(s: Scheme, f: Serial, ct: Ciphertext, owner: KeyId, message: Bytes) {
    && |message| <= MAX_PLAINTEXT && |ct.bytes| >= 4 && ct.bytes[..4] == LittleEndian(|message|, 4)
    && f.read(ct.bytes[4..]).Some?
    && Carries(s, owner, [f.read(ct.bytes[4..]).value], ToCoefficients(message))
  }

  lemma EncryptWraps(s: Scheme, f: Serial, pk: KeyId, plaintext: Bytes)
    requires s.slotCount > 0 && Lossless(f) && LatticeEncrypt(s, f, pk, plaintext).Ok?
    ensures Wraps(s, f, LatticeEncrypt(s, f, pk, plaintext).value, pk, plaintext)
    ensures LatticeEncrypt(s, f, pk, plaintext).value.level == 0
  {
    CoefficientsFit(plaintext);
    PackCarries(s, pk, ToCoefficients(plaintext));
    var cts, bytes := Pack(s, pk, ToCoefficients(plaintext)), LatticeEncrypt(s, f, pk, plaintext).value.bytes;
    assert cts == [cts[0]];
    assert bytes[..4] == LittleEndian(|plaintext|, 4) && bytes[4..] == f.write(cts[0]);
  }

  lemma PrefixReads(n: nat)
    requires n <= MAX_PLAINTEXT
    ensures FromLittleEndian(LittleEndian(n, 4)) == n
  {
    Pow256Values();
    LittleEndianRead(n, 4);
  }

  lemma WrappedDecrypts(s: Scheme, f: Serial, ct: Ciphertext, owner: KeyId, message: Bytes)
    requires Wraps(s, f, ct, owner, message)
    ensures LatticeDecrypt(s, f, owner, ct) == Ok(message)
  {
    PrefixReads(|message|);
    var inner := f.read(ct.bytes[4..]).value;
    CarriedIsRecovered(s, owner, [inner], message);
    assert FromLittleEndian(ct.bytes[..4]) == |message|;
  }

  lemma RecryptWraps(s: Scheme, f: Serial, ct: Ciphertext, from: KeyId, to: KeyId, message: Bytes)
    requires Lossless(f) && Wraps(s, f, ct, from, message)
    ensures var r := LatticeRecrypt(s, f, from, to, ct);
            r.Ok? && Wraps(s, f, r.value, to, message) && r.value.level == (ct.level + 1) % 256
  {
    var inner := f.read(ct.bytes[4..]).value;
    RecryptCarries(s, from, to, [inner], ToCoefficients(message));
    assert RecryptAll(s, from, to, [inner]) == [RecryptSlots(s, from, to, inner)];
    var bytes := LatticeRecrypt(s, f, from, to, ct).value.bytes;
    assert bytes[..4] == ct.bytes[..4] && bytes[4..] == f.write(RecryptSlots(s, from, to, inner));
  }

  function LatticeHops(s: Scheme, f: Serial, ct: Ciphertext, owners: seq<KeyId>): Result<Ciphertext, PreError>
    requires owners != []
    decreases |owners|
  {
    if |owners| == 1 then Ok(ct)
    else match LatticeRecrypt(s, f, owners[0], owners[1], ct)
      case Err(e) => Err(e)
      case Ok(ct') => LatticeHops(s, f, ct', owners[1..])
  }

  lemma OneHopMore(s: Scheme, f: Serial, ct: Ciphertext, owners: seq<KeyId>, ct': Ciphertext)
    requires |owners| > 1 && LatticeRecrypt(s, f, owners[0], owners[1], ct) == Ok(ct')
    ensures LatticeHops(s, f, ct, owners) == LatticeHops(s, f, ct', owners[1..])
  {
  }

  lemma {:induction false} HopsWrap(s: Scheme, f: Serial, ct: Ciphertext, owners: seq<KeyId>, message: Bytes)
    requires Lossless(f) && owners != [] && Wraps(s, f, ct, owners[0], message)
    ensures var r := LatticeHops(s, f, ct, owners);
            r.Ok? && Wraps(s, f, r.value, owners[|owners| - 1], message)
            && r.value.level == (ct.level + |owners| - 1) % 256
    decreases |owners|
  {
    if |owners| > 1 {
      RecryptWraps(s, f, ct, owners[0], owners[1], message);
      var ct' := LatticeRecrypt(s, f, owners[0], owners[1], ct).value;
      OneHopMore(s, f, ct, owners, ct');
      HopsWrap(s, f, ct', owners[1..], message);
      MP.LevelAdds(ct.level, |owners| - 2);
    }
  }

  lemma HopsDecrypt(s: Scheme, f: Serial, ct: Ciphertext, owners: seq<KeyId>, message: Bytes)
    requires Lossless(f) && owners != [] && Wraps(s, f, ct, owners[0], message) && ct.level == 0
    ensures var r := LatticeHops(s, f, ct, owners);
            r.Ok? && LatticeDecrypt(s, f, owners[|owners| - 1], r.value) == Ok(message)
            && r.value.level == (|owners| - 1) % 256
  {
    HopsWrap(s, f, ct, owners, message);
    WrappedDecrypts(s, f, LatticeHops(s, f, ct, owners).value, owners[|owners| - 1], message);
  }

  /** What the backend encrypts to owners[0] decrypts, after any number of recryptions, for the last
      owner; the level is the hop count up to 255 (and wraps beyond). */
  lemma LatticeHopsDecrypt(s: Scheme, f: Serial, owners: seq<KeyId>, plaintext: Bytes)
    requires s.slotCount > 0 && Lossless(f) && owners != []
    requires 1 <= |plaintext| <= MAX_PLAINTEXT && (|plaintext| + 1) / 2 <= s.slotCount
    ensures var sent := LatticeEncrypt(s, f, owners[0], plaintext);
            && sent.Ok?
            && var r := LatticeHops(s, f, sent.value, owners);
               && r.Ok?
               && LatticeDecrypt(s, f, owners[|owners| - 1], r.value) == Ok(plaintext)
               && r.value.level == (|owners| - 1) % 256
  {
    EncryptAccepts(s, f, owners[0], plaintext);
    EncryptWraps(s, f, owners[0], plaintext);
    HopsDecrypt(s, f, LatticeEncrypt(s, f, owners[0], plaintext).value, owners, plaintext);
  }

  function LatticeUnwrap(s: Scheme, f: Serial, sk: KeyId): H.Unwrap {
    (ct: Ciphertext) => LatticeDecrypt(s, f, sk, ct)
  }

  function LatticeWrap(s: Scheme, f: Serial, pk: KeyId): H.WrapKey
    requires s.slotCount > 0
  {
    (bundle: Bytes) => LatticeEncrypt(s, f, pk, bundle)
  }

  /** The 96-byte key bundle is exactly what the backend can carry, so whole files survive any
      number of lattice recryptions of their wrapped key. */
  lemma LatticeFilesSurviveHops(
      s: Scheme, f: Serial, owners: seq<KeyId>, hash: Hash, ks: SC.Keystream,
      key: Bytes32, nonce: KM.Bytes24, plaintext: Bytes)
    requires s.slotCount >= 48 && Lossless(f) && owners != [] && |plaintext| <= KM.MAX_PLAINTEXT_SIZE
    ensures var sent := H.EncryptFile(hash, ks, LatticeWrap(s, f, owners[0]), key, nonce, plaintext);
            && sent.Ok?
            && var r := LatticeHops(s, f, sent.value.wrappedKey, owners);
               && r.Ok?
               && H.DecryptFile(hash, ks, LatticeUnwrap(s, f, owners[|owners| - 1]),
                                sent.value.(wrappedKey := r.value)) == Ok(plaintext)
  {
    var m := H.MaterialFor(hash, key, nonce, plaintext);
    var wrap, unwrap := LatticeWrap(s, f, owners[0]), LatticeUnwrap(s, f, owners[|owners| - 1]);
    LatticeHopsDecrypt(s, f, owners, KM.MaterialLayout(m));
    assert wrap(KM.MaterialLayout(m)).Ok?;
    var last := LatticeHops(s, f, wrap(KM.MaterialLayout(m)).value, owners).value;
    assert unwrap(last) == Ok(KM.MaterialLayout(m));
    H.EncryptProtects(hash, ks, wrap, key, nonce, plaintext, last);
    var sent := H.EncryptFile(hash, ks, wrap, key, nonce, plaintext).value;
    H.ProtectedDecrypts(hash, ks, unwrap, sent.(wrappedKey := last), m, plaintext);
  }

  // ------------------------------------------------------------------ keys as bytes

  /** The scheme's key deserialization, and the serialization of recryption keys. */
  datatype KeySerial = KeySerial(
    readPublic: Bytes -> Option<KeyId>,
    readSecret: Bytes -> Option<KeyId>,
    writeRecrypt: (KeyId, KeyId) -> Bytes,
    readRecrypt: Bytes -> Option<(KeyId, KeyId)>)

  ghost predicate LosslessKeys(k: KeySerial) {
    forall a: KeyId, b: KeyId :: k.readRecrypt(k.writeRecrypt(a, b)) == Some((a, b))
  }

  /** The sender's public key cannot be derived from the secret one; an empty placeholder stands for it. */
  function LatticeRecryptKey(k: KeySerial, from: SecretKey, to: PublicKey): Result<RecryptKey, PreError> {
    match (k.readSecret(from.bytes), k.readPublic(to.bytes))
    case (Some(a), Some(b)) => Ok(RecryptKey(Lattice, PublicKey(Lattice, []), to, k.writeRecrypt(a, b)))
    case _ => Err(KeyGeneration)
  }

  function EncryptTo(s: Scheme, f: Serial, k: KeySerial, recipient: PublicKey, plaintext: Bytes): Result<Ciphertext, PreError>
    requires s.slotCount > 0
  {
    match k.readPublic(recipient.bytes)
    case None => Err(PreError.Encryption)
    case Some(pk) => LatticeEncrypt(s, f, pk, plaintext)
  }

  function DecryptWith(s: Scheme, f: Serial, k: KeySerial, secret: SecretKey, ct: Ciphertext): Result<Bytes, PreError> {
    match k.readSecret(secret.bytes)
    case None => Err(PreError.Decryption)
    case Some(sk) => LatticeDecrypt(s, f, sk, ct)
  }

  function RecryptWith(s: Scheme, f: Serial, k: KeySerial, rk: RecryptKey, ct: Ciphertext): Result<Ciphertext, PreError> {
    match k.readRecrypt(rk.bytes)
    case None => Err(PreError.Recryption)
    case Some((from, to)) => LatticeRecrypt(s, f, from, to, ct)
  }

  /** A generated key moves what the sender can open to the recipient, and counts the hop. */
  lemma GeneratedKeyRecrypts(
      s: Scheme, f: Serial, k: KeySerial, ct: Ciphertext, from: SecretKey, toPublic: PublicKey, toSecret: SecretKey,
      owner: KeyId, recipient: KeyId, message: Bytes)
    requires Lossless(f) && LosslessKeys(k)
    requires k.readSecret(from.bytes) == Some(owner)
    requires k.readPublic(toPublic.bytes) == Some(recipient) && k.readSecret(toSecret.bytes) == Some(recipient)
    requires Wraps(s, f, ct, owner, message)
    ensures var rk := LatticeRecryptKey(k, from, toPublic);
            && rk.Ok?
            && var r := RecryptWith(s, f, k, rk.value, ct);
               && r.Ok? && DecryptWith(s, f, k, toSecret, r.value) == Ok(message) && r.value.level == (ct.level + 1) % 256
  {
    RecryptWraps(s, f, ct, owner, recipient, message);
    WrappedDecrypts(s, f, LatticeRecrypt(s, f, owner, recipient, ct).value, recipient, message);
  }

  // ------------------------------------------------------------------ the backend's own steps

  method GenerateRecryptKey(k: KeySerial, from: SecretKey, to: PublicKey) returns (r: Result<RecryptKey, PreError>)
    ensures r == LatticeRecryptKey(k, from, to)
  {
    var fromKey := k.readSecret(from.bytes);
    if fromKey.None? {
      return Err(KeyGeneration);
    }
    var toKey := k.readPublic(to.bytes);
    if toKey.None? {
      return Err(KeyGeneration);
    }
    r := Ok(RecryptKey(Lattice, PublicKey(Lattice, []), to, k.writeRecrypt(fromKey.value, toKey.value)));
  }

  method EncryptToBytes(s: Scheme, f: Serial, k: KeySerial, recipient: PublicKey, plaintext: Bytes)
    returns (r: Result<Ciphertext, PreError>)
    requires s.slotCount > 0
    ensures r == EncryptTo(s, f, k, recipient, plaintext)
  {
    if |plaintext| > MAX_PLAINTEXT {
      return Err(PreError.Encryption);
    }
    var pk := k.readPublic(recipient.bytes);
    if pk.None? {
      return Err(PreError.Encryption);
    }
    var cts := SlotPacking.Encrypt(s, pk.value, plaintext);
    if |cts| != 1 {
      return Err(PreError.Encryption);
    }
    var bytes := LittleEndian(|plaintext|, 4);
    bytes := bytes + f.write(cts[0]);
    r := Ok(Ciphertext(Lattice, 0, bytes));
  }

  method DecryptFromBytes(s: Scheme, f: Serial, k: KeySerial, secret: SecretKey, ct: Ciphertext)
    returns (r: Result<Bytes, PreError>)
    ensures r == DecryptWith(s, f, k, secret, ct)
  {
    if |ct.bytes| < 4 {
      return Err(PreError.Decryption);
    }
    var originalLen := FromLittleEndian(ct.bytes[..4]);
    var sk := k.readSecret(secret.bytes);
    if sk.None? {
      return Err(PreError.Decryption);
    }
    var inner := f.read(ct.bytes[4..]);
    if inner.None? {
      return Err(PreError.Decryption);
    }
    var data := SlotPacking.Decrypt(s, sk.value, [inner.value], originalLen);
    r := Ok(data);
  }

  method RecryptBytes(s: Scheme, f: Serial, k: KeySerial, rk: RecryptKey, ct: Ciphertext) returns (r: Result<Ciphertext, PreError>)
    ensures r == RecryptWith(s, f, k, rk, ct)
  {
    if |ct.bytes| < 4 {
      return Err(PreError.Recryption);
    }
    var lengthPrefix := ct.bytes[..4];
    var keys := k.readRecrypt(rk.bytes);
    if keys.None? {
      return Err(PreError.Recryption);
    }
    var inner := f.read(ct.bytes[4..]);
    if inner.None? {
      return Err(PreError.Recryption);
    }
    var (from, to) := keys.value;
    var moved := SlotPacking.Recrypt(s, from, to, [inner.value]);
    assert RecryptAll(s, from, to, [inner.value]) == [RecryptSlots(s, from, to, inner.value)];
    var bytes := lengthPrefix;
    bytes := bytes + f.write(moved[0]);
    r := Ok(Ciphertext(Lattice, (ct.level + 1) % 256, bytes));
  }
}
