/** A seekable stream cipher: exclusive or with an arbitrary keystream. */
module StreamCipher {
  import opened Bytes
  import opened KeyMaterial

  /** The keystream byte at a position, under a key and a nonce. */
  type Keystream = (Bytes32, Bytes24, nat) -> byte

  function Stream(ks: Keystream, key: Bytes32, nonce: Bytes24, pos: nat, data: Bytes): (out: Bytes)
    ensures |out| == |data|
  {
    seq(|data|, i requires 0 <= i < |data| => Xor(data[i], ks(key, nonce, pos + i)))
  }

  /** Each byte that comes out is the keystream byte at its position, exclusive or the byte that went in. */
  lemma StreamIsKeystreamXor(ks: Keystream, key: Bytes32, nonce: Bytes24, pos: nat, data: Bytes, i: nat)
    requires i < |data|
    ensures XorBits(Stream(ks, key, nonce, pos, data)[i], ks(key, nonce, pos + i), 8) == data[i]
  {
  }

  lemma XorCancels(a: byte, b: byte)
    ensures Xor(Xor(a, b), b) == a
  {
  }

  /** Decryption is encryption. */
  lemma StreamTwice(ks: Keystream, key: Bytes32, nonce: Bytes24, pos: nat, data: Bytes)
    ensures Stream(ks, key, nonce, pos, Stream(ks, key, nonce, pos, data)) == data
  {
    forall i | 0 <= i < |data|
      ensures Stream(ks, key, nonce, pos, Stream(ks, key, nonce, pos, data))[i] == data[i]
    {
      XorCancels(data[i], ks(key, nonce, pos + i));
    }
  }

  lemma StreamAppend(ks: Keystream, key: Bytes32, nonce: Bytes24, a: Bytes, b: Bytes)
    ensures Stream(ks, key, nonce, 0, a + b) == Stream(ks, key, nonce, 0, a) + Stream(ks, key, nonce, |a|, b)
  {
    var whole := Stream(ks, key, nonce, 0, a + b);
    assert forall i :: 0 <= i < |a| ==> (a + b)[i] == a[i];
    assert forall i :: 0 <= i < |b| ==> (a + b)[|a| + i] == b[i];
    assert whole[..|a|] == Stream(ks, key, nonce, 0, a);
    assert whole[|a|..] == Stream(ks, key, nonce, |a|, b);
  }

  class XChaCha20 {
    const ks: Keystream
    const key: Bytes32
    const nonce: Bytes24
    var pos: nat

    constructor (ks: Keystream, key: Bytes32, nonce: Bytes24)
      ensures this.ks == ks && this.key == key && this.nonce == nonce && pos == 0
    {
      this.ks, this.key, this.nonce, pos := ks, key, nonce, 0;
    }

    method Seek(to: nat)
      modifies this
      ensures pos == to
    {
      pos := to;
    }

    /** Transforms the buffer in place and moves past it. */
    method ApplyKeystream(buf: array<byte>)
      modifies this, buf
      ensures buf[..] == Stream(ks, key, nonce, old(pos), old(buf[..]))
      ensures pos == old(pos) + buf.Length
    {
      for i := 0 to buf.Length
        invariant pos == old(pos) + i
        invariant forall k :: 0 <= k < i ==> buf[k] == Xor(old(buf[k]), ks(key, nonce, old(pos) + k))
        invariant forall k :: i <= k < buf.Length ==> buf[k] == old(buf[k])
      {
        buf[i] := Xor(buf[i], ks(key, nonce, pos));
        pos := pos + 1;
      }
    }
  }

  method ToArray(data: Bytes) returns (buf: array<byte>)
    ensures fresh(buf) && buf[..] == data
  {
    buf := new byte[|data|](i requires 0 <= i < |data| => data[i]);
  }

  /** A fresh cipher over a copy of the data, as every one-shot use does it. */
  method StreamOnce(ks: Keystream, key: Bytes32, nonce: Bytes24, data: Bytes) returns (out: Bytes)
    ensures out == Stream(ks, key, nonce, 0, data)
  {
    var buf := ToArray(data);
    var cipher := new XChaCha20(ks, key, nonce);
    cipher.ApplyKeystream(buf);
    out := buf[..];
  }
}
