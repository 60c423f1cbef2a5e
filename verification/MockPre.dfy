/** The mock proxy-recryption backend: public key = secret key, recryption key = XOR of the two. */
module MockPre {
  import opened Prelude
  import opened Bytes
  import opened PreKeys
  import opened KeyMaterial
  import opened StreamCipher

  const NONCE_SIZE: nat := 24
  const KEY_SIZE: nat := 32

  function MockEncrypt(ks: Keystream, recipient: PublicKey, plaintext: Bytes, nonce: Bytes24): Result<Ciphertext, PreError> {
    if |recipient.bytes| < KEY_SIZE then Err(Panics)
    else Ok(Ciphertext(Mock, 0, nonce + Stream(ks, recipient.bytes[..KEY_SIZE], nonce, 0, plaintext)))
  }

  function MockDecrypt(ks: Keystream, secret: SecretKey, ct: Ciphertext): Result<Bytes, PreError> {
    if |ct.bytes| < NONCE_SIZE then Err(Decryption)
    else if |secret.bytes| < KEY_SIZE then Err(Panics)
    else Ok(Stream(ks, secret.bytes[..KEY_SIZE], ct.bytes[..NONCE_SIZE], 0, ct.bytes[NONCE_SIZE..]))
  }

  function MockRecryptKey(from: SecretKey, to: PublicKey): Result<RecryptKey, PreError> {
    if |from.bytes| < KEY_SIZE || |to.bytes| < KEY_SIZE then Err(Panics)
    else Ok(RecryptKey(Mock, PublicKey(Mock, from.bytes), to, XorAll(from.bytes[..KEY_SIZE], to.bytes)))
  }

  function ZipXor(a: Bytes, b: Bytes): Bytes {
    if |a| <= |b| then XorAll(a, b) else XorAll(a[..|b|], b)
  }

  /** Undo the old wrapping, wrap for the new recipient, count the hop in a wrapping byte. */
  function MockRecrypt(ks: Keystream, rk: RecryptKey, ct: Ciphertext, nonce: Bytes24): Result<Ciphertext, PreError> {
    var temp := SecretKey(Mock, ZipXor(rk.bytes, rk.toPublic.bytes));
    match MockDecrypt(ks, temp, ct)
    case Err(e) => Err(e)
    case Ok(plaintext) =>
      match MockEncrypt(ks, rk.toPublic, plaintext, nonce)
      case Err(e) => Err(e)
      case Ok(ct') => Ok(ct'.(level := (ct.level + 1) % 256))
  }

  // ------------------------------------------------------------------ the program's steps

  method GenerateRecryptKey(from: SecretKey, to: PublicKey) returns (r: Result<RecryptKey, PreError>)
    ensures r == MockRecryptKey(from, to)
  {
    if |from.bytes| < KEY_SIZE || |to.bytes| < KEY_SIZE {
      return Err(Panics);
    }
    var rkBytes := new byte[KEY_SIZE](_ => 0);
    for i := 0 to KEY_SIZE
      invariant forall k :: 0 <= k < i ==> rkBytes[k] == Xor(from.bytes[k], to.bytes[k])
    {
      rkBytes[i] := Xor(from.bytes[i], to.bytes[i]);
    }
    assert rkBytes[..] == XorAll(from.bytes[..KEY_SIZE], to.bytes);
    r := Ok(RecryptKey(Mock, PublicKey(Mock, from.bytes), to, rkBytes[..]));
  }

  method Encrypt(ks: Keystream, recipient: PublicKey, plaintext: Bytes, nonce: Bytes24)
    returns (r: Result<Ciphertext, PreError>)
    ensures r == MockEncrypt(ks, recipient, plaintext, nonce)
  {
    if |recipient.bytes| < KEY_SIZE {
      return Err(Panics);
    }
    var ct := StreamOnce(ks, recipient.bytes[..KEY_SIZE], nonce, plaintext);
    var bytes: Bytes := nonce;
    bytes := bytes + ct;
    r := Ok(Ciphertext(Mock, 0, bytes));
  }

  method Decrypt(ks: Keystream, secret: SecretKey, ct: Ciphertext) returns (r: Result<Bytes, PreError>)
    ensures r == MockDecrypt(ks, secret, ct)
  {
    if |ct.bytes| < NONCE_SIZE {
      return Err(Decryption);
    }
    if |secret.bytes| < KEY_SIZE {
      return Err(Panics);
    }
    var pt := StreamOnce(ks, secret.bytes[..KEY_SIZE], ct.bytes[..NONCE_SIZE], ct.bytes[NONCE_SIZE..]);
    r := Ok(pt);
  }

  method Recrypt(ks: Keystream, rk: RecryptKey, ct: Ciphertext, nonce: Bytes24) returns (r: Result<Ciphertext, PreError>)
    ensures r == MockRecrypt(ks, rk, ct, nonce)
  {
    var temp := SecretKey(Mock, ZipXor(rk.bytes, rk.toPublic.bytes));
    var plaintext := Decrypt(ks, temp, ct);
    if plaintext.Err? {
      return Err(plaintext.error);
    }
    var newCt := Encrypt(ks, rk.toPublic, plaintext.value, nonce);
    if newCt.Err? {
      return newCt;
    }
    r := Ok(newCt.value.(level := (ct.level + 1) % 256));
  }

  // ------------------------------------------------------------------ meaning

  /** The ciphertext is a wrapping of `message` for the holder of these key bytes. */
  predicate Holds(ks: Keystream, ct: Ciphertext, key: Bytes, message: Bytes) {
    MockDecrypt(ks, SecretKey(Mock, key), ct) == Ok(message)
  }

  /** A mock ciphertext is level 0 and the 24-byte nonce followed, byte for byte, by the plaintext under exclusive or
      with the keystream of the recipient's first 32 key bytes; shorter keys panic. */
  lemma MockBodyIsKeystreamXor(ks: Keystream, recipient: PublicKey, plaintext: Bytes, nonce: Bytes24)
    ensures var r := MockEncrypt(ks, recipient, plaintext, nonce);
            && (r.Ok? <==> |recipient.bytes| >= 32) && (r.Err? ==> r == Err(Panics))
            && (r.Ok? ==>
                  && r.value.backend == Mock && r.value.level == 0
                  && |r.value.bytes| == 24 + |plaintext| && r.value.bytes[..24] == nonce
                  && forall i :: 0 <= i < |plaintext| ==>
                       XorBits(r.value.bytes[24 + i], ks(recipient.bytes[..32], nonce, i), 8) == plaintext[i])
  {
    if |recipient.bytes| >= 32 {
      var body := Stream(ks, recipient.bytes[..32], nonce, 0, plaintext);
      forall i | 0 <= i < |plaintext|
        ensures XorBits((nonce + body)[24 + i], ks(recipient.bytes[..32], nonce, i), 8) == plaintext[i]
      {
        StreamIsKeystreamXor(ks, recipient.bytes[..32], nonce, 0, plaintext, i);
      }
    }
  }

  /** Decryption takes the nonce off the front and undoes exactly that; what is too short or opened with a short
      key fails. */
  lemma MockOpensKeystreamXor(ks: Keystream, secret: SecretKey, ct: Ciphertext)
    ensures var r := MockDecrypt(ks, secret, ct);
            && (r == Err(PreError.Decryption) <==> |ct.bytes| < 24)
            && (r == Err(Panics) <==> |ct.bytes| >= 24 && |secret.bytes| < 32)
            && (r.Ok? ==>
                  && |r.value| == |ct.bytes| - 24
                  && forall i :: 0 <= i < |r.value| ==>
                       XorBits(r.value[i], ks(secret.bytes[..32], ct.bytes[..24], i), 8) == ct.bytes[24 + i])
  {
    if |ct.bytes| >= 24 && |secret.bytes| >= 32 {
      var data := ct.bytes[24..];
      forall i | 0 <= i < |data|
        ensures XorBits(Stream(ks, secret.bytes[..32], ct.bytes[..24], 0, data)[i],
                        ks(secret.bytes[..32], ct.bytes[..24], i), 8) == ct.bytes[24 + i]
      {
        StreamIsKeystreamXor(ks, secret.bytes[..32], ct.bytes[..24], 0, data, i);
      }
    }
  }

  /** A recryption key is, byte for byte, the exclusive or of the first 32 bytes of both keys. */
  lemma RecryptKeyIsXor(from: SecretKey, to: PublicKey)
    ensures var r := MockRecryptKey(from, to);
            && (r.Ok? <==> |from.bytes| >= 32 && |to.bytes| >= 32) && (r.Err? ==> r == Err(Panics))
            && (r.Ok? ==>
                  && r.value.backend == Mock && r.value.fromPublic == PublicKey(Mock, from.bytes) && r.value.toPublic == to
                  && |r.value.bytes| == 32
                  && forall i :: 0 <= i < 32 ==> XorBits(r.value.bytes[i], to.bytes[i], 8) == from.bytes[i])
  {
  }

  /** Whatever the recryption key holds: the wrapping is undone under the exclusive or of its bytes and the
      recipient's, as far as both reach, and done anew for the recipient, one level up. */
  lemma RecryptExactly(ks: Keystream, rk: RecryptKey, ct: Ciphertext, nonce: Bytes24, opener: Bytes)
    requires |opener| == if |rk.bytes| <= |rk.toPublic.bytes| then |rk.bytes| else |rk.toPublic.bytes|
    requires forall i :: 0 <= i < |opener| ==> XorBits(rk.bytes[i], rk.toPublic.bytes[i], 8) == opener[i]
    ensures var r, undone := MockRecrypt(ks, rk, ct, nonce), MockDecrypt(ks, SecretKey(Mock, opener), ct);
            && (undone.Err? ==> r == Err(undone.error))
            && (undone.Ok? ==>
                  var sent := MockEncrypt(ks, rk.toPublic, undone.value, nonce);
                  && (sent.Err? ==> r == Err(sent.error))
                  && (sent.Ok? ==> r == Ok(Ciphertext(Mock, (ct.level + 1) % 256, sent.value.bytes))))
  {
    assert opener == ZipXor(rk.bytes, rk.toPublic.bytes);
  }

  lemma EncryptHolds(ks: Keystream, key: Bytes, plaintext: Bytes, nonce: Bytes24)
    requires |key| >= KEY_SIZE
    ensures MockEncrypt(ks, PublicKey(Mock, key), plaintext, nonce).Ok?
    ensures Holds(ks, MockEncrypt(ks, PublicKey(Mock, key), plaintext, nonce).value, key, plaintext)
  {
    var ct := MockEncrypt(ks, PublicKey(Mock, key), plaintext, nonce).value;
    assert ct.bytes[..NONCE_SIZE] == nonce;
    assert ct.bytes[NONCE_SIZE..] == Stream(ks, key[..KEY_SIZE], nonce, 0, plaintext);
    StreamTwice(ks, key[..KEY_SIZE], nonce, 0, plaintext);
  }

  /** An honest recryption key undoes itself: it yields the sender's key from the recipient's. */
  lemma RecryptKeyReveals(from: Bytes, to: Bytes)
    requires |from| >= KEY_SIZE && |to| >= KEY_SIZE
    ensures var rk := MockRecryptKey(SecretKey(Mock, from), PublicKey(Mock, to));
            rk.Ok? && ZipXor(rk.value.bytes, to) == from[..KEY_SIZE]
  {
    var x := XorAll(from[..KEY_SIZE], to);
    forall i | 0 <= i < KEY_SIZE
      ensures XorAll(x, to)[i] == from[i]
    {
      XorCancels(from[i], to[i]);
    }
    assert XorAll(x, to) == from[..KEY_SIZE];
  }

  /** One hop moves the message to the new recipient and counts itself. */
  lemma RecryptHolds(ks: Keystream, ct: Ciphertext, from: Bytes, to: Bytes, message: Bytes, nonce: Bytes24)
    requires |from| >= KEY_SIZE && |to| >= KEY_SIZE && Holds(ks, ct, from, message)
    ensures var rk := MockRecryptKey(SecretKey(Mock, from), PublicKey(Mock, to)).value;
            var ct' := MockRecrypt(ks, rk, ct, nonce);
            ct'.Ok? && Holds(ks, ct'.value, to, message) && ct'.value.level == (ct.level + 1) % 256
  {
    var rk := MockRecryptKey(SecretKey(Mock, from), PublicKey(Mock, to)).value;
    RecryptKeyReveals(from, to);
    var temp := SecretKey(Mock, ZipXor(rk.bytes, to));
    assert temp.bytes[..KEY_SIZE] == from[..KEY_SIZE];
    assert MockDecrypt(ks, temp, ct) == Ok(message);
    EncryptHolds(ks, to, message, nonce);
    var fresh' := MockEncrypt(ks, PublicKey(Mock, to), message, nonce).value;
    assert MockRecrypt(ks, rk, ct, nonce) == Ok(fresh'.(level := (ct.level + 1) % 256));
  }

  /** Recrypts along `keys`, from keys[0] to the last, one fresh nonce a hop. */
  function Hops(ks: Keystream, ct: Ciphertext, keys: seq<Bytes>, nonces: seq<Bytes24>): Result<Ciphertext, PreError>
    requires |keys| == |nonces| + 1
    decreases |nonces|
  {
    if nonces == [] then Ok(ct)
    else match MockRecryptKey(SecretKey(Mock, keys[0]), PublicKey(Mock, keys[1]))
      case Err(e) => Err(e)
      case Ok(rk) =>
        match MockRecrypt(ks, rk, ct, nonces[0])
        case Err(e) => Err(e)
        case Ok(ct') => Hops(ks, ct', keys[1..], nonces[1..])
  }

  ghost predicate LongEnough(keys: seq<Bytes>) {
    forall i :: 0 <= i < |keys| ==> |keys[i]| >= KEY_SIZE
  }

  lemma OneHopMore(ks: Keystream, ct: Ciphertext, keys: seq<Bytes>, nonces: seq<Bytes24>, rk: RecryptKey, ct': Ciphertext)
    requires |keys| == |nonces| + 1 && nonces != []
    requires MockRecryptKey(SecretKey(Mock, keys[0]), PublicKey(Mock, keys[1])) == Ok(rk)
    requires MockRecrypt(ks, rk, ct, nonces[0]) == Ok(ct')
    ensures Hops(ks, ct, keys, nonces) == Hops(ks, ct', keys[1..], nonces[1..])
  {
  }

  lemma LevelAdds(level: nat, hops: nat)
    ensures ((level + 1) % 256 + hops) % 256 == (level + 1 + hops) % 256
  {
    var q := (level + 1) / 256;
    ModUnique(level + 1 + hops, 256, q + ((level + 1) % 256 + hops) / 256, ((level + 1) % 256 + hops) % 256);
  }

  /** Any number of hops keeps the message; the level is the hop count modulo 256. */
  lemma {:induction false} HopsHold(ks: Keystream, ct: Ciphertext, keys: seq<Bytes>, nonces: seq<Bytes24>, message: Bytes)
    requires |keys| == |nonces| + 1 && LongEnough(keys) && Holds(ks, ct, keys[0], message)
    ensures var r := Hops(ks, ct, keys, nonces);
            r.Ok? && Holds(ks, r.value, keys[|nonces|], message)
            && r.value.level == (ct.level + |nonces|) % 256
    decreases |nonces|
  {
    if nonces != [] {
      RecryptHolds(ks, ct, keys[0], keys[1], message, nonces[0]);
      var rk := MockRecryptKey(SecretKey(Mock, keys[0]), PublicKey(Mock, keys[1])).value;
      var ct' := MockRecrypt(ks, rk, ct, nonces[0]).value;
      OneHopMore(ks, ct, keys, nonces, rk, ct');
      HopsHold(ks, ct', keys[1..], nonces[1..], message);
      LevelAdds(ct.level, |nonces| - 1);
    }
  }
}
