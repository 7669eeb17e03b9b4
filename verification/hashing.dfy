/** The digest type produced by `hashlib.sha256(text.encode()).hexdigest()`.
    SHA-256 itself (FIPS 180-4) is not modelled: every operation that hashes
    takes the hash function as a parameter, and the properties proved here
    hold for any deterministic function with this result type. */
module Hashing {

  /** A lower-case hexadecimal digit, as `hexdigest()` writes them. */
  predicate IsHexDigit(c: char) {
    '0' <= c <= '9' || 'a' <= c <= 'f'
  }

  /** Sixty-four lower-case hexadecimal digits: the text of a 256-bit digest. */
  predicate IsHexDigest(s: string) {
    |s| == 64 && forall i :: 0 <= i < |s| ==> IsHexDigit(s[i])
  }

  type Digest = s: string | IsHexDigest(s)
    witness seq(64, _ => '0')

  /** UTF-8 encoding followed by SHA-256 and hex formatting. */
  type Hasher = string -> Digest
}
