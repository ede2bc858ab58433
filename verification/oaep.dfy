/**
 * The asymmetric primitives the core calls but does not implement: loading
 * the PEM private key and RSA-OAEP decryption with MGF1(SHA-256), SHA-256
 * and no label, followed by UTF-8 decoding of the plaintext.
 */
module Oaep {
  import opened Wrappers
  import opened Bits

  /** A loaded private key, seen as what the core does with it: decrypt a
      ciphertext and decode the plaintext as UTF-8 text, or fail (`None`)
      for a wrong key, a corrupted ciphertext, a wrong padding scheme or
      plaintext that is not UTF-8. A key file that cannot be read or parsed
      is passed to the operations as `None` in place of a key. */
  type PrivateKey = seq<byte> -> Option<string>
}
