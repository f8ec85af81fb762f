/**
 * The authenticated cipher under one key, kept abstract: a keystream per nonce,
 * applied byte by byte with XOR, and a tag over nonce, associated data and
 * ciphertext.
 */
module AeadCipher {
  import opened Io
  import opened NonceSchedule

  const TAG_LENGTH := 16

  type Tag = t: Bytes | |t| == TAG_LENGTH witness seq(16, _ => 0)

  datatype Aead = Aead(keystream: (Nonce, nat) -> byte, tag: (Nonce, Bytes, Bytes) -> Tag)

  /** `buf` combined with the keystream from offset `at` on; encrypts and decrypts. */
  function Apply(g: Aead, n: Nonce, at: nat, buf: Bytes): (r: Bytes)
    ensures |r| == |buf|
  {
    seq(|buf|, i requires 0 <= i < |buf| => Xor(buf[i], g.keystream(n, at + i)))
  }

  lemma ApplyTwice(g: Aead, n: Nonce, at: nat, buf: Bytes)
    ensures Apply(g, n, at, Apply(g, n, at, buf)) == buf
  {
    forall i | 0 <= i < |buf|
      ensures Apply(g, n, at, Apply(g, n, at, buf))[i] == buf[i]
    {
      XorInvolution(buf[i], g.keystream(n, at + i));
    }
  }

  /** Encrypting in pieces is encrypting the concatenation. */
  lemma ApplyConcat(g: Aead, n: Nonce, a: Bytes, b: Bytes)
    ensures Apply(g, n, 0, a + b) == Apply(g, n, 0, a) + Apply(g, n, |a|, b)
  {
    assert forall i :: 0 <= i < |a + b| ==>
      Apply(g, n, 0, a + b)[i] == (Apply(g, n, 0, a) + Apply(g, n, |a|, b))[i];
  }

  /** A cipher context: its nonce and associated data, and the ciphertext it produced so far. */
  datatype Cipher = Cipher(nonce: Nonce, aad: Bytes, done: Bytes) {
    function IntoTag(g: Aead): Tag {
      g.tag(nonce, aad, done)
    }
  }
}
