/**
  Hybrid file encryption: a stream-ciphered body, its hash, and a wrapped key bundle.
  The hash, the keystream and the wrapping backend are arbitrary; random choices are
  parameters. The verified Merkle decoder is a source of items; its only law used is
  that leaves arrive in order.
*/
module Hybrid {
  import opened Prelude
  import opened Bytes
  import opened PreKeys
  import opened KeyMaterial
  import opened StreamCipher
  import opened MockPre

  datatype EncryptedFile = EncryptedFile(
    wrappedKey: Ciphertext,
    baoHash: Bytes32,
    ciphertext: Bytes,
    signature: Option<Bytes>)

  datatype CoreError =
    | CorruptCiphertext
    | Pre(e: PreError)
    | BadMaterial(e: PreError)
    | SizeMismatch
    | HashMismatch
    | IntegrityCheckFailed
    | RangeOutOfBounds

  /** A backend's decryption under one secret key, and its encryption to one recipient. */
  type Unwrap = Ciphertext -> Result<Bytes, PreError>
  type WrapKey = Bytes -> Result<Ciphertext, PreError>

  // ------------------------------------------------------------------ one shot

  function MaterialFor(hash: Hash, key: Bytes32, nonce: Bytes24, plaintext: Bytes): Material
    requires |plaintext| < U64
  {
    Material(key, nonce, hash(plaintext), |plaintext|)
  }

  function EncryptFile(hash: Hash, ks: Keystream, wrap: WrapKey, key: Bytes32, nonce: Bytes24, plaintext: Bytes)
    : Result<EncryptedFile, CoreError>
    requires |plaintext| < U64
  {
    var body := Stream(ks, key, nonce, 0, plaintext);
    match MaterialBytes(MaterialFor(hash, key, nonce, plaintext))
    case Err(e) => Err(Pre(e))
    case Ok(bundle) =>
      match wrap(bundle)
      case Err(e) => Err(Pre(e))
      case Ok(wrapped) => Ok(EncryptedFile(wrapped, hash(body), body, None))
  }

  function OpenBundle(unwrap: Unwrap, wrapped: Ciphertext): Result<Material, CoreError> {
    match unwrap(wrapped)
    case Err(e) => Err(Pre(e))
    case Ok(bundle) =>
      match ParseMaterial(bundle)
      case Err(e) => Err(BadMaterial(e))
      case Ok(m) => Ok(m)
  }

  function DecryptFile(hash: Hash, ks: Keystream, unwrap: Unwrap, file: EncryptedFile): Result<Bytes, CoreError> {
    if hash(file.ciphertext) != file.baoHash then Err(CorruptCiphertext)
    else match OpenBundle(unwrap, file.wrappedKey)
      case Err(e) => Err(e)
      case Ok(m) =>
        var plaintext := Stream(ks, m.symmetricKey, m.nonce, 0, file.ciphertext);
        if |plaintext| != m.plaintextSize then Err(SizeMismatch)
        else if hash(plaintext) != m.plaintextHash then Err(HashMismatch)
        else Ok(plaintext)
  }

  method EncryptBytes(hash: Hash, ks: Keystream, wrap: WrapKey, key: Bytes32, nonce: Bytes24, plaintext: Bytes)
    returns (r: Result<EncryptedFile, CoreError>)
    requires |plaintext| < U64
    ensures r == EncryptFile(hash, ks, wrap, key, nonce, plaintext)
  {
    var body := StreamOnce(ks, key, nonce, plaintext);
    var bundle := MaterialToBytes(Material(key, nonce, hash(plaintext), |plaintext|));
    if bundle.Err? {
      return Err(Pre(bundle.error));
    }
    var wrapped := wrap(bundle.value);
    if wrapped.Err? {
      return Err(Pre(wrapped.error));
    }
    r := Ok(EncryptedFile(wrapped.value, hash(body), body, None));
  }

  method DecryptBytes(hash: Hash, ks: Keystream, unwrap: Unwrap, file: EncryptedFile)
    returns (r: Result<Bytes, CoreError>)
    ensures r == DecryptFile(hash, ks, unwrap, file)
  {
    if hash(file.ciphertext) != file.baoHash {
      return Err(CorruptCiphertext);
    }
    var bundle := unwrap(file.wrappedKey);
    if bundle.Err? {
      return Err(Pre(bundle.error));
    }
    var material := MaterialFromBytes(bundle.value);
    if material.Err? {
      return Err(BadMaterial(material.error));
    }
    var m := material.value;
    var plaintext := StreamOnce(ks, m.symmetricKey, m.nonce, file.ciphertext);
    if |plaintext| != m.plaintextSize {
      return Err(SizeMismatch);
    }
    if hash(plaintext) != m.plaintextHash {
      return Err(HashMismatch);
    }
    r := Ok(plaintext);
  }

  /** Decryption succeeds with `plaintext` exactly when it re-encrypts to the stored body, which
      matches the stored hash, and the opened bundle names its size and hash. */
  lemma DecryptExact(hash: Hash, ks: Keystream, unwrap: Unwrap, file: EncryptedFile, plaintext: Bytes)
    ensures DecryptFile(hash, ks, unwrap, file) == Ok(plaintext) <==>
            && hash(file.ciphertext) == file.baoHash
            && OpenBundle(unwrap, file.wrappedKey).Ok?
            && var m := OpenBundle(unwrap, file.wrappedKey).value;
               && file.ciphertext == Stream(ks, m.symmetricKey, m.nonce, 0, plaintext)
               && m.plaintextSize == |plaintext| && m.plaintextHash == hash(plaintext)
  {
    if OpenBundle(unwrap, file.wrappedKey).Ok? {
      var m := OpenBundle(unwrap, file.wrappedKey).value;
      StreamTwice(ks, m.symmetricKey, m.nonce, 0, file.ciphertext);
      StreamTwice(ks, m.symmetricKey, m.nonce, 0, plaintext);
    }
  }

  /** Why decryption fails, in the order of its checks. */
  lemma DecryptFails(hash: Hash, ks: Keystream, unwrap: Unwrap, file: EncryptedFile)
    ensures var r := DecryptFile(hash, ks, unwrap, file);
            && (hash(file.ciphertext) != file.baoHash ==> r == Err(CorruptCiphertext))
            && (hash(file.ciphertext) == file.baoHash ==>
                  var bundle := unwrap(file.wrappedKey);
                  && (bundle.Err? ==> r == Err(Pre(bundle.error)))
                  && (bundle.Ok? && ParseMaterial(bundle.value).Err? ==> r == Err(BadMaterial(ParseMaterial(bundle.value).error)))
                  && (bundle.Ok? && ParseMaterial(bundle.value).Ok? ==>
                        var m := ParseMaterial(bundle.value).value;
                        && (m.plaintextSize != |file.ciphertext| ==> r == Err(SizeMismatch))
                        && (m.plaintextSize == |file.ciphertext|
                            && hash(Stream(ks, m.symmetricKey, m.nonce, 0, file.ciphertext)) != m.plaintextHash
                            ==> r == Err(HashMismatch))))
  {
  }

  /** What encryption yields beside the body: the backend's wrapping of key, nonce, hash and size, the body's hash, no
      signature; or the size or the backend is at fault. */
  lemma EncryptExactly(hash: Hash, ks: Keystream, wrap: WrapKey, key: Bytes32, nonce: Bytes24, plaintext: Bytes)
    requires |plaintext| < U64
    ensures var r, m := EncryptFile(hash, ks, wrap, key, nonce, plaintext), Material(key, nonce, hash(plaintext), |plaintext|);
            && (|plaintext| >= 0x100_0000_0000_0000 ==> r == Err(Pre(Serialization)))
            && (|plaintext| < 0x100_0000_0000_0000 ==>
                  var wrapped := wrap(MaterialLayout(m));
                  && (wrapped.Err? ==> r == Err(Pre(wrapped.error)))
                  && (wrapped.Ok? ==>
                        r.Ok? && r.value.wrappedKey == wrapped.value && r.value.signature == None
                        && r.value.baoHash == hash(r.value.ciphertext)))
  {
  }

  /** The body, its hash and the wrapped bundle belong to `plaintext`, for whoever unwraps the bundle. */
  ghost predicate Protects(hash: Hash, ks: Keystream, file: EncryptedFile, m: Material, plaintext: Bytes) {
    && |plaintext| <= MAX_PLAINTEXT_SIZE
    && m == MaterialFor(hash, m.symmetricKey, m.nonce, plaintext)
    && file.ciphertext == Stream(ks, m.symmetricKey, m.nonce, 0, plaintext)
    && file.baoHash == hash(file.ciphertext)
  }

  /** Encryption succeeds when the backend wraps the bundle, and its file protects the plaintext,
      whatever wrapped key later replaces the first. */
  lemma EncryptProtects(
      hash: Hash, ks: Keystream, wrap: WrapKey, key: Bytes32, nonce: Bytes24, plaintext: Bytes, later: Ciphertext)
    requires |plaintext| <= MAX_PLAINTEXT_SIZE
    requires wrap(MaterialLayout(MaterialFor(hash, key, nonce, plaintext))).Ok?
    ensures var sent, m := EncryptFile(hash, ks, wrap, key, nonce, plaintext), MaterialFor(hash, key, nonce, plaintext);
            && sent.Ok? && wrap(MaterialLayout(m)) == Ok(sent.value.wrappedKey)
            && Protects(hash, ks, sent.value.(wrappedKey := later), m, plaintext)
  {
  }

  /** Under any backend, whoever unwraps the bundle recovers the plaintext. */
  lemma ProtectedDecrypts(hash: Hash, ks: Keystream, unwrap: Unwrap, file: EncryptedFile, m: Material, plaintext: Bytes)
    requires Protects(hash, ks, file, m, plaintext)
    requires unwrap(file.wrappedKey) == Ok(MaterialLayout(m))
    ensures DecryptFile(hash, ks, unwrap, file) == Ok(plaintext)
  {
    MaterialCodec(MaterialLayout(m), m);
    DecryptExact(hash, ks, unwrap, file, plaintext);
  }

  /** The body of an encrypted file is, byte for byte, the plaintext under exclusive or with the keystream of the
      file's key and nonce from position 0. */
  lemma BodyIsKeystreamXor(hash: Hash, ks: Keystream, wrap: WrapKey, key: Bytes32, nonce: Bytes24, plaintext: Bytes)
    requires |plaintext| < U64 && EncryptFile(hash, ks, wrap, key, nonce, plaintext).Ok?
    ensures var body := EncryptFile(hash, ks, wrap, key, nonce, plaintext).value.ciphertext;
            && |body| == |plaintext|
            && forall i :: 0 <= i < |plaintext| ==> XorBits(body[i], ks(key, nonce, i), 8) == plaintext[i]
  {
    forall i | 0 <= i < |plaintext|
      ensures XorBits(Stream(ks, key, nonce, 0, plaintext)[i], ks(key, nonce, i), 8) == plaintext[i]
    {
      StreamIsKeystreamXor(ks, key, nonce, 0, plaintext, i);
    }
  }

  /** The keystream that turns one text into another. */
  function PadBetween(from: Bytes, to: Bytes): Keystream
    requires |from| == |to|
  {
    (key: Bytes32, nonce: Bytes24, i: nat) => if i < |from| then Xor(to[i], from[i]) else 0
  }

  lemma PadTurns(from: Bytes, to: Bytes, key: Bytes32, nonce: Bytes24)
    requires |from| == |to|
    ensures Stream(PadBetween(from, to), key, nonce, 0, from) == to
  {
    forall i | 0 <= i < |from|
      ensures Stream(PadBetween(from, to), key, nonce, 0, from)[i] == to[i]
    {
      XorBetween(from[i], to[i]);
    }
  }

  /** The body alone tells nothing but its length: any body of the plaintext's length comes out under some
      keystream. */
  lemma AnyBodyIsPossible(hash: Hash, wrap: WrapKey, key: Bytes32, nonce: Bytes24, plaintext: Bytes, body: Bytes)
    requires |body| == |plaintext| <= MAX_PLAINTEXT_SIZE
    requires wrap(MaterialLayout(MaterialFor(hash, key, nonce, plaintext))).Ok?
    ensures exists ks :: EncryptFile(hash, ks, wrap, key, nonce, plaintext).Ok?
                         && EncryptFile(hash, ks, wrap, key, nonce, plaintext).value.ciphertext == body
  {
    PadTurns(plaintext, body, key, nonce);
    var sent := EncryptFile(hash, PadBetween(plaintext, body), wrap, key, nonce, plaintext);
    assert sent.Ok? && sent.value.ciphertext == body;
  }

  /** Nor does a mock wrapping, beyond its length and nonce. */
  lemma AnyMockBodyIsPossible(recipient: PublicKey, plaintext: Bytes, nonce: Bytes24, body: Bytes)
    requires |body| == |plaintext| && |recipient.bytes| >= 32
    ensures exists ks :: MockEncrypt(ks, recipient, plaintext, nonce) == Ok(Ciphertext(Mock, 0, nonce + body))
  {
    PadTurns(plaintext, body, recipient.bytes[..32], nonce);
    assert MockEncrypt(PadBetween(plaintext, body), recipient, plaintext, nonce) == Ok(Ciphertext(Mock, 0, nonce + body));
  }

  // ------------------------------------------------------------------ recryption of files

  /** Only the wrapped key changes hands. */
  function RecryptFile(ks: Keystream, rk: RecryptKey, file: EncryptedFile, nonce: Bytes24)
    : Result<EncryptedFile, CoreError>
  {
    match MockRecrypt(ks, rk, file.wrappedKey, nonce)
    case Err(e) => Err(Pre(e))
    case Ok(wrapped) => Ok(EncryptedFile(wrapped, file.baoHash, file.ciphertext, file.signature))
  }

  function FileHops(ks: Keystream, file: EncryptedFile, keys: seq<Bytes>, nonces: seq<Bytes24>)
    : Result<EncryptedFile, CoreError>
    requires |keys| == |nonces| + 1
    decreases |nonces|
  {
    if nonces == [] then Ok(file)
    else match MockRecryptKey(SecretKey(Mock, keys[0]), PublicKey(Mock, keys[1]))
      case Err(e) => Err(Pre(e))
      case Ok(rk) =>
        match RecryptFile(ks, rk, file, nonces[0])
        case Err(e) => Err(e)
        case Ok(file') => FileHops(ks, file', keys[1..], nonces[1..])
  }

  lemma {:induction false} FileHopsAreKeyHops(ks: Keystream, file: EncryptedFile, keys: seq<Bytes>, nonces: seq<Bytes24>)
    requires |keys| == |nonces| + 1 && Hops(ks, file.wrappedKey, keys, nonces).Ok?
    ensures FileHops(ks, file, keys, nonces) == Ok(file.(wrappedKey := Hops(ks, file.wrappedKey, keys, nonces).value))
    decreases |nonces|
  {
    if nonces != [] {
      var rk := MockRecryptKey(SecretKey(Mock, keys[0]), PublicKey(Mock, keys[1])).value;
      FileHopsAreKeyHops(ks, RecryptFile(ks, rk, file, nonces[0]).value, keys[1..], nonces[1..]);
    }
  }

  function MockUnwrap(ks: Keystream, key: Bytes): Unwrap {
    (ct: Ciphertext) => MockDecrypt(ks, SecretKey(Mock, key), ct)
  }

  function MockWrap(ks: Keystream, key: Bytes, wrapNonce: Bytes24): WrapKey {
    (bundle: Bytes) => MockEncrypt(ks, PublicKey(Mock, key), bundle, wrapNonce)
  }

  /** A file encrypted to keys[0] and passed along any chain of recryptions decrypts, for the last
      recipient, to the original plaintext. Ciphertext, hash and signature are untouched, and the
      level is the hop count up to 255 (and wraps beyond). */
  lemma AnyHopsDecrypt(
      hash: Hash, ks: Keystream, key: Bytes32, nonce: Bytes24, wrapNonce: Bytes24, plaintext: Bytes,
      keys: seq<Bytes>, nonces: seq<Bytes24>)
    requires |plaintext| <= MAX_PLAINTEXT_SIZE
    requires |keys| == |nonces| + 1 && LongEnough(keys)
    ensures var sent := EncryptFile(hash, ks, MockWrap(ks, keys[0], wrapNonce), key, nonce, plaintext);
            && sent.Ok?
            && var r := FileHops(ks, sent.value, keys, nonces);
               && r.Ok?
               && DecryptFile(hash, ks, MockUnwrap(ks, keys[|nonces|]), r.value) == Ok(plaintext)
               && r.value == sent.value.(wrappedKey := r.value.wrappedKey)
               && r.value.wrappedKey.level == |nonces| % 256
  {
    var m := MaterialFor(hash, key, nonce, plaintext);
    var wrap := MockWrap(ks, keys[0], wrapNonce);
    EncryptHolds(ks, keys[0], MaterialLayout(m), wrapNonce);
    var wrapped := wrap(MaterialLayout(m)).value;
    HopsHold(ks, wrapped, keys, nonces, MaterialLayout(m));
    EncryptProtects(hash, ks, wrap, key, nonce, plaintext, Hops(ks, wrapped, keys, nonces).value);
    var sent := EncryptFile(hash, ks, wrap, key, nonce, plaintext).value;
    FileHopsAreKeyHops(ks, sent, keys, nonces);
    var got := FileHops(ks, sent, keys, nonces).value;
    ProtectedDecrypts(hash, ks, MockUnwrap(ks, keys[|nonces|]), got, m, plaintext);
  }

  // ------------------------------------------------------------------ streaming and ranges

  /** What the decoder hands out: inner nodes, and verified stretches of ciphertext. */
  datatype Item = Parent | Leaf(offset: nat, data: Bytes)

  function LeafBytes(items: seq<Item>): Bytes {
    if items == [] then []
    else LeafBytes(items[..|items| - 1]) + (if items[|items| - 1].Leaf? then items[|items| - 1].data else [])
  }

  /** Leaves arrive in order and without gaps, from the first byte on. */
  ghost predicate Consecutive(items: seq<Item>) {
    forall i :: 0 <= i < |items| && items[i].Leaf? ==> items[i].offset == |LeafBytes(items[..i])|
  }

  /** What streaming writes under an opened bundle. */
  function Streamed(ks: Keystream, m: Material, items: seq<Item>): Bytes {
    Stream(ks, m.symmetricKey, m.nonce, 0, LeafBytes(items))
  }

  /** Streaming these items to their end reports success. */
  predicate StreamAccepts(hash: Hash, ks: Keystream, unwrap: Unwrap, wrapped: Ciphertext, items: seq<Item>) {
    var bundle := OpenBundle(unwrap, wrapped);
    bundle.Ok? && hash(Streamed(ks, bundle.value, items)) == bundle.value.plaintextHash
  }

  /** Decrypts leaf after leaf. `read` is the error, if any, of reading the inputs, which comes first; `stop` is the
      one that ended the walk after the given items: a failed encoding, a leaf that does not verify or a
      failed write. */
  method DecryptStreaming(hash: Hash, ks: Keystream, unwrap: Unwrap, wrapped: Ciphertext, read: Option<CoreError>,
                          items: seq<Item>, stop: Option<CoreError>)
    returns (out: Bytes, r: Result<(), CoreError>)
    ensures r.Ok? <==> read.None? && stop.None? && StreamAccepts(hash, ks, unwrap, wrapped, items)
    ensures var bundle := OpenBundle(unwrap, wrapped);
            if read.Some? then out == [] && r == Err(read.value)
            else if bundle.Err? then out == [] && r == Err(bundle.error)
            else out == Streamed(ks, bundle.value, items)
                 && (r.Err? ==> r.error == if stop.Some? then stop.value else IntegrityCheckFailed)
  {
    out := [];
    if read.Some? {
      return out, Err(read.value);
    }
    var bundle := OpenBundle(unwrap, wrapped);
    if bundle.Err? {
      return out, Err(bundle.error);
    }
    var m := bundle.value;
    var cipher := new XChaCha20(ks, m.symmetricKey, m.nonce);
    var hashed: Bytes := [];
    for i := 0 to |items|
      invariant cipher.pos == |LeafBytes(items[..i])|
      invariant out == hashed == Streamed(ks, m, items[..i])
    {
      assert items[..i + 1][..i] == items[..i];
      if items[i].Leaf? {
        var chunk := ToArray(items[i].data);
        cipher.ApplyKeystream(chunk);
        StreamAppend(ks, m.symmetricKey, m.nonce, LeafBytes(items[..i]), items[i].data);
        hashed := hashed + chunk[..];
        out := out + chunk[..];
      } else {
        assert LeafBytes(items[..i + 1]) == LeafBytes(items[..i]);
      }
    }
    assert items[..|items|] == items;
    if stop.Some? {
      return out, Err(stop.value);
    }
    if hash(hashed) != m.plaintextHash {
      return out, Err(IntegrityCheckFailed);
    }
    r := Ok(());
  }

  /** The part of `s` between two byte positions, as far as `s` reaches. */
  function Clip(s: Bytes, from: nat, to: nat): Bytes {
    var end := if to <= |s| then to else |s|;
    if from < end then s[from..end] else []
  }

  function Max(a: nat, b: nat): nat { if a >= b then a else b }
  function Min(a: nat, b: nat): nat { if a <= b then a else b }

  /** The part of a stretch starting at `offset` that lies between two byte positions. */
  function Overlap(data: Bytes, offset: nat, from: nat, to: nat): Bytes {
    var start, end := Max(from, offset), Min(to, offset + |data|);
    if start < end then data[start - offset..end - offset] else []
  }

  /** Seeks to the leaf, decrypts it whole and keeps the overlap, if there is one. */
  method DecryptOverlap(cipher: XChaCha20, leaf: Item, from: nat, to: nat) returns (part: Bytes)
    requires leaf.Leaf?
    modifies cipher
    ensures part == Overlap(Stream(cipher.ks, cipher.key, cipher.nonce, leaf.offset, leaf.data), leaf.offset, from, to)
  {
    var chunkStart := leaf.offset;
    var chunkEnd := chunkStart + |leaf.data|;
    var overlapStart := Max(from, chunkStart);
    var overlapEnd := Min(to, chunkEnd);
    part := [];
    if overlapStart < overlapEnd {
      cipher.Seek(leaf.offset);
      var chunk := ToArray(leaf.data);
      cipher.ApplyKeystream(chunk);
      part := chunk[overlapStart - chunkStart..overlapEnd - chunkStart];
    }
  }

  function RangeOf(ks: Keystream, m: Material, items: seq<Item>, from: nat, to: nat): Bytes {
    Clip(Streamed(ks, m, items), from, to)
  }

  /** Walks the leaves, writing what each contributes to the range; the inputs are read after the range was found
      to be in bounds. */
  method DecryptRange(ks: Keystream, unwrap: Unwrap, wrapped: Ciphertext, read: Option<CoreError>, items: seq<Item>, stop: Option<CoreError>,
                      from: nat, to: nat)
    returns (out: Bytes, r: Result<(), CoreError>)
    requires Consecutive(items)
    ensures OpenBundle(unwrap, wrapped).Err? ==> out == [] && r == Err(OpenBundle(unwrap, wrapped).error)
    ensures OpenBundle(unwrap, wrapped).Ok? ==>
              var m := OpenBundle(unwrap, wrapped).value;
              if to > m.plaintextSize then out == [] && r == Err(RangeOutOfBounds)
              else if read.Some? then out == [] && r == Err(read.value)
              else out == RangeOf(ks, m, items, from, to)
                   && r == if stop.Some? then Err(stop.value) else Ok(())
  {
    out := [];
    var bundle := OpenBundle(unwrap, wrapped);
    if bundle.Err? {
      return out, Err(bundle.error);
    }
    var m := bundle.value;
    if to > m.plaintextSize {
      return out, Err(RangeOutOfBounds);
    }
    if read.Some? {
      return out, Err(read.value);
    }
    var cipher := new XChaCha20(ks, m.symmetricKey, m.nonce);
    for i := 0 to |items|
      invariant out == RangeOf(ks, m, items[..i], from, to)
    {
      RangeStep(ks, m, items, i, from, to);
      if items[i].Leaf? {
        var part := DecryptOverlap(cipher, items[i], from, to);
        out := out + part;
      }
    }
    assert items[..|items|] == items;
    r := if stop.Some? then Err(stop.value) else Ok(());
  }

  lemma RangeStep(ks: Keystream, m: Material, items: seq<Item>, i: nat, from: nat, to: nat)
    requires Consecutive(items) && i < |items|
    ensures RangeOf(ks, m, items[..i + 1], from, to) == RangeOf(ks, m, items[..i], from, to) +
              (if items[i].Leaf?
               then Overlap(Stream(ks, m.symmetricKey, m.nonce, items[i].offset, items[i].data), items[i].offset, from, to)
               else [])
  {
    assert items[..i + 1][..i] == items[..i];
    var done := LeafBytes(items[..i]);
    if items[i].Leaf? {
      StreamAppend(ks, m.symmetricKey, m.nonce, done, items[i].data);
      ClipAppend(Stream(ks, m.symmetricKey, m.nonce, 0, done),
                 Stream(ks, m.symmetricKey, m.nonce, |done|, items[i].data), from, to);
    } else {
      assert LeafBytes(items[..i + 1]) == done;
    }
  }

  lemma ClipWithinFirst(a: Bytes, b: Bytes, from: nat, to: nat)
    requires to <= |a|
    ensures Clip(a + b, from, to) == Clip(a, from, to) && Overlap(b, |a|, from, to) == []
  {
  }

  lemma ClipWithinSecond(a: Bytes, b: Bytes, from: nat, to: nat)
    requires |a| <= from
    ensures Clip(a + b, from, to) == Overlap(b, |a|, from, to) && Clip(a, from, to) == []
  {
    var end := Min(to, |a| + |b|);
    if from < end {
      assert (a + b)[from..end] == b[from - |a|..end - |a|];
    }
  }

  lemma ClipAcross(a: Bytes, b: Bytes, from: nat, to: nat)
    requires from < |a| < to
    ensures Clip(a + b, from, to) == Clip(a, from, to) + Overlap(b, |a|, from, to)
  {
    var end := Min(to, |a| + |b|);
    assert (a + b)[from..end] == a[from..] + b[..end - |a|];
  }

  /** A range of a concatenation is the range of each part, shifted into it. */
  lemma ClipAppend(a: Bytes, b: Bytes, from: nat, to: nat)
    ensures Clip(a + b, from, to) == Clip(a, from, to) + Overlap(b, |a|, from, to)
  {
    if to <= |a| {
      ClipWithinFirst(a, b, from, to);
    } else if |a| <= from {
      ClipWithinSecond(a, b, from, to);
    } else {
      ClipAcross(a, b, from, to);
    }
  }

  /** What the leaves carry is their data one after the other; inner nodes carry nothing. */
  lemma {:induction false} LeafBytesConcat(items: seq<Item>, more: seq<Item>, offset: nat, data: Bytes)
    ensures LeafBytes([]) == [] && LeafBytes([Parent]) == [] && LeafBytes([Leaf(offset, data)]) == data
    ensures LeafBytes(items + more) == LeafBytes(items) + LeafBytes(more)
    decreases |more|
  {
    assert [Parent][..0] == [] && [Leaf(offset, data)][..0] == [];
    if more == [] {
      assert items + more == items;
    } else {
      var n := |more| - 1;
      assert (items + more)[..|items + more| - 1] == items + more[..n];
      LeafBytesConcat(items, more[..n], offset, data);
    }
  }

  /** A range read is, byte for byte, what the leaves carry there under exclusive or with the keystream there. */
  lemma RangeIsKeystreamXor(ks: Keystream, m: Material, items: seq<Item>, from: nat, to: nat)
    requires from <= to <= |LeafBytes(items)|
    ensures |RangeOf(ks, m, items, from, to)| == to - from
    ensures forall at: nat :: from <= at < to ==>
              XorBits(RangeOf(ks, m, items, from, to)[at - from], ks(m.symmetricKey, m.nonce, at), 8) == LeafBytes(items)[at]
  {
    forall at: nat | from <= at < to
      ensures XorBits(Streamed(ks, m, items)[at], ks(m.symmetricKey, m.nonce, at), 8) == LeafBytes(items)[at]
    {
      StreamIsKeystreamXor(ks, m.symmetricKey, m.nonce, 0, LeafBytes(items), at);
    }
  }

  lemma {:induction false} LeafBytesGrow(items: seq<Item>, more: seq<Item>)
    ensures LeafBytes(items) <= LeafBytes(items + more)
  {
    if more == [] {
      assert items + more == items;
    } else {
      assert (items + more)[..|items + more| - 1] == items + more[..|more| - 1];
      LeafBytesGrow(items, more[..|more| - 1]);
    }
  }

  /** If the decoder fails part-way, what was written is a prefix of the full answer. */
  lemma CutOutputIsPrefix(ks: Keystream, m: Material, items: seq<Item>, more: seq<Item>, from: nat, to: nat)
    ensures RangeOf(ks, m, items, from, to) <= RangeOf(ks, m, items + more, from, to)
  {
    LeafBytesGrow(items, more);
    var a, all := LeafBytes(items), LeafBytes(items + more);
    assert all == a + all[|a|..];
    StreamAppend(ks, m.symmetricKey, m.nonce, a, all[|a|..]);
    ClipAppend(Stream(ks, m.symmetricKey, m.nonce, 0, a), Stream(ks, m.symmetricKey, m.nonce, |a|, all[|a|..]), from, to);
  }

  /** For an honest file, split into leaves in any way: streaming writes the plaintext, a range writes
      exactly that range of it, and one-shot decryption returns the same. */
  lemma AllPathsAgree(hash: Hash, ks: Keystream, unwrap: Unwrap, file: EncryptedFile, m: Material, plaintext: Bytes,
                      items: seq<Item>, from: nat, to: nat)
    requires Protects(hash, ks, file, m, plaintext)
    requires unwrap(file.wrappedKey) == Ok(MaterialLayout(m))
    requires Consecutive(items) && LeafBytes(items) == file.ciphertext
    requires from <= to <= |plaintext|
    ensures OpenBundle(unwrap, file.wrappedKey) == Ok(m) && to <= m.plaintextSize
    ensures StreamAccepts(hash, ks, unwrap, file.wrappedKey, items)
    ensures var streamed := Streamed(ks, m, items);
            && streamed == plaintext
            && RangeOf(ks, m, items, from, to) == plaintext[from..to]
            && DecryptFile(hash, ks, unwrap, file) == Ok(streamed)
  {
    MaterialCodec(MaterialLayout(m), m);
    ProtectedDecrypts(hash, ks, unwrap, file, m, plaintext);
    StreamTwice(ks, m.symmetricKey, m.nonce, 0, plaintext);
  }

  /** For every file whose body matches its hash, and every split of the body into leaves: one-shot decryption
      succeeds if and only if streaming does and the bundle names the body's length; they then agree, and
      the wrong length is what one-shot reports otherwise. */
  lemma OneShotIsStreamingAndSize(hash: Hash, ks: Keystream, unwrap: Unwrap, file: EncryptedFile, items: seq<Item>)
    requires LeafBytes(items) == file.ciphertext && hash(file.ciphertext) == file.baoHash
    ensures var one, streams := DecryptFile(hash, ks, unwrap, file), StreamAccepts(hash, ks, unwrap, file.wrappedKey, items);
            && (one.Ok? <==> streams && OpenBundle(unwrap, file.wrappedKey).value.plaintextSize == |file.ciphertext|)
            && (one.Ok? ==> one.value == Streamed(ks, OpenBundle(unwrap, file.wrappedKey).value, items))
            && (streams && one.Err? ==> one == Err(SizeMismatch))
  {
  }

  /** A file that streaming accepts and one-shot decryption refuses, for every plaintext, cipher and hash: its
      bundle names another size. */
  lemma StreamingIgnoresSize(hash: Hash, ks: Keystream, key: Bytes32, nonce: Bytes24, plaintext: Bytes, size: u64)
    requires size <= MAX_PLAINTEXT_SIZE && size != |plaintext|
    ensures var m, body := Material(key, nonce, hash(plaintext), size), Stream(ks, key, nonce, 0, plaintext);
            var unwrap: Unwrap := (ct: Ciphertext) => Ok(MaterialLayout(m));
            var file := EncryptedFile(Ciphertext(Mock, 0, []), hash(body), body, None);
            && StreamAccepts(hash, ks, unwrap, file.wrappedKey, [Leaf(0, body)])
            && Streamed(ks, m, [Leaf(0, body)]) == plaintext
            && DecryptFile(hash, ks, unwrap, file) == Err(SizeMismatch)
  {
    var m, body := Material(key, nonce, hash(plaintext), size), Stream(ks, key, nonce, 0, plaintext);
    MaterialCodec(MaterialLayout(m), m);
    StreamTwice(ks, key, nonce, 0, plaintext);
    var items := [Leaf(0, body)];
    assert items[..0] == [] && LeafBytes(items[..0]) == [];
    assert LeafBytes(items) == [] + body == body;
  }

  /** Every range the bundle's size allows comes out at full length exactly when that size does not exceed what
      the decoder delivers; beyond it, ranges are cut short without an error. */
  lemma RangesAreWholeExactly(ks: Keystream, m: Material, items: seq<Item>)
    ensures (forall from: nat, to: nat :: from <= to <= m.plaintextSize ==> |RangeOf(ks, m, items, from, to)| == to - from)
            <==> m.plaintextSize <= |LeafBytes(items)|
  {
    if m.plaintextSize > |LeafBytes(items)| {
      assert |RangeOf(ks, m, items, 0, m.plaintextSize)| < m.plaintextSize - 0;
    }
  }
}
