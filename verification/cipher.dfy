/** The toy public-key cryptosystem of 3.py:101-123: key derivation with the
    fixed public exponent 65537, per-character modular-exponentiation
    encryption, whitespace-token decryption, and hash-then-encrypt signing. */
module Cipher {
  import opened Outcomes
  import opened Hashing
  import opened Text
  import opened NumberTheory

  /** One half of a key pair: `(n, e)` or `(n, d)`. */
  datatype Key = Key(modulus: int, exponent: nat)

  const PublicExponent: nat := 65537

  /** With both primes drawn from 2..100, phi lies in [1, 65537). */
  lemma PhiBounds(p: int, q: int)
    requires 2 <= p <= 100 && 2 <= q <= 100
    ensures 1 <= (p - 1) * (q - 1) < PublicExponent
    ensures 4 <= p * q <= 10000
  {
    MulLe(p - 1, 1, q - 1);
    MulLe(p - 1, q - 1, 99);
    MulLe(p, 2, q);
    MulLe(p, q, 100);
  }

  /** 65537 is prime, so it is coprime to every phi in [1, 65537). */
  lemma PublicExponentCoprime(phi: nat)
    requires 1 <= phi < PublicExponent
    ensures Gcd(PublicExponent, phi) == 1
  {
    Prime65537();
    GcdDivides(PublicExponent, phi);
    var g := Gcd(PublicExponent, phi);
    assert !Divides(g, PublicExponent) || g < 2;
  }

  /** `generate_key_pair()` with its two `generate_prime_number()` draws
      passed in: `n = p * q`, `phi = (p - 1) * (q - 1)`, `e = 65537` and
      `d = mod_inverse(e, phi)`.  For every p, q in 2..100 the inverse
      exists, so d is a genuine inverse of e modulo phi and the halves share n. */
  method GenerateKeyPair(p: int, q: int) returns (pub: Key, priv: Key)
    requires 2 <= p <= 100 && 2 <= q <= 100
    ensures pub == Key(p * q, PublicExponent)
    ensures priv.modulus == p * q && 4 <= p * q <= 10000
    ensures var phi := (p - 1) * (q - 1);
            1 <= phi < PublicExponent && priv.exponent < phi
            && (PublicExponent * priv.exponent) % phi == 1 % phi
  {
    var n := p * q;
    var phi := (p - 1) * (q - 1);
    PhiBounds(p, q);
    PublicExponentCoprime(phi);
    var d := ModInverse(PublicExponent, phi);
    pub := Key(n, PublicExponent);
    priv := Key(n, d.value);
  }

  /** `map(str, numbers)`. */
  function Decimals(values: seq<nat>): (words: seq<string>)
    ensures |words| == |values|
    ensures forall i :: 0 <= i < |values| ==> IsWord(words[i]) && AllDigits(words[i])
  {
    seq(|values|, i requires 0 <= i < |values| => NatToDecimal(values[i]))
  }

  /** `[pow(ord(c), e, n) for c in message]`: each value lies in [0, n). */
  function CipherValues(m: string, k: Key): (values: seq<nat>)
    requires k.modulus >= 1
  {
    seq(|m|, i requires 0 <= i < |m| => PowMod(m[i] as int, k.exponent, k.modulus))
  }

  /** `encrypt(message, key)`: the decimal texts of the per-character values,
      joined with the empty separator.  The result is all digits, at least
      one per character, and empty only for the empty message. */
  function Encrypt(m: string, k: Key): (c: string)
    requires k.modulus >= 1
    ensures AllDigits(c) && |m| <= |c|
    ensures m == [] ==> c == []
  {
    JoinDigits(Decimals(CipherValues(m, k)));
    JoinWith(Decimals(CipherValues(m, k)), "")
  }

  /** Encryption works character by character: it maps concatenation of
      messages to concatenation of ciphertexts. */
  lemma EncryptAppend(a: string, b: string, k: Key)
    requires k.modulus >= 1
    ensures Encrypt(a + b, k) == Encrypt(a, k) + Encrypt(b, k)
  {
    assert Decimals(CipherValues(a + b, k))
        == Decimals(CipherValues(a, k)) + Decimals(CipherValues(b, k));
    JoinAppend(Decimals(CipherValues(a, k)), Decimals(CipherValues(b, k)));
  }

  /** A single character encrypts to the decimal text of `ord(c)^e mod n`,
      a number in [0, n). */
  lemma EncryptChar(ch: char, k: Key)
    requires k.modulus >= 1
    ensures Encrypt([ch], k) == NatToDecimal(PowMod(ch as int, k.exponent, k.modulus))
    ensures 0 <= PowMod(ch as int, k.exponent, k.modulus) < k.modulus
  {
  }

  /** For a modulus of at most 10000 every value has at most four digits,
      so a ciphertext has at most four digits per character. */
  lemma {:induction false} EncryptLength(m: string, k: Key)
    requires 1 <= k.modulus <= 10000
    ensures |Encrypt(m, k)| <= 4 * |m|
    decreases |m|
  {
    if m != [] {
      assert m == [m[0]] + m[1..];
      EncryptAppend([m[0]], m[1..], k);
      EncryptChar(m[0], k);
      assert Pow10(4) == 10000;
      DecimalLength(PowMod(m[0] as int, k.exponent, k.modulus), 4);
      EncryptLength(m[1..], k);
    }
  }

  /** `chr(v)` succeeds and yields a Dafny character for these code points. */
  predicate IsScalarValue(v: int) {
    0 <= v < 0xD800 || 0xE000 <= v < 0x11_0000
  }

  /** `int(w)` succeeds and `chr` accepts `pow(int(w), d, n)`. */
  predicate WordDecrypts(w: string, k: Key)
    requires k.modulus >= 1
  {
    ParseInt(w).Some? && IsScalarValue(PowMod(ParseInt(w).value, k.exponent, k.modulus))
  }

  /** The character a decryptable word stands for. */
  function WordChar(w: string, k: Key): char
    requires k.modulus >= 1 && WordDecrypts(w, k)
  {
    PowMod(ParseInt(w).value, k.exponent, k.modulus) as char
  }

  /** The error a word that does not decrypt raises. */
  function WordError(w: string, k: Key): Error
    requires k.modulus >= 1
  {
    match ParseInt(w)
    case None => InvalidLiteral(w)
    case Some(v) => NotACharacter(PowMod(v, k.exponent, k.modulus))
  }

  /** `[chr(pow(int(w), d, n)) for w in words]`, joined: it succeeds exactly
      when every word decrypts, giving one character per word; otherwise
      the first word that does not decrypt raises. */
  function DecryptWords(words: seq<string>, k: Key): (r: Result<string>)
    requires k.modulus >= 1
    ensures r.Success? <==> forall i :: 0 <= i < |words| ==> WordDecrypts(words[i], k)
    ensures r.Success? ==> |r.value| == |words|
    ensures r.Success? ==> forall i :: 0 <= i < |words| ==> r.value[i] == WordChar(words[i], k)
    ensures r.Failure? ==> exists i :: 0 <= i < |words| && FirstFailure(words, k, i) && r.error == WordError(words[i], k)
    decreases |words|
  {
    if words == [] then Success("")
    else match ParseInt(words[0])
      case None => Failure(InvalidLiteral(words[0]))
      case Some(v) =>
        var code := PowMod(v, k.exponent, k.modulus);
        if !IsScalarValue(code) then Failure(NotACharacter(code))
        else match DecryptWords(words[1..], k)
          case Failure(e) =>
            var j :| 0 <= j < |words| - 1 && FirstFailure(words[1..], k, j) && e == WordError(words[1..][j], k);
            assert FirstFailure(words, k, j + 1);
            Failure(e)
          case Success(rest) => Success([code as char] + rest)
  }

  /** Word `i` is the first one that does not decrypt. */
  predicate FirstFailure(words: seq<string>, k: Key, i: nat)
    requires k.modulus >= 1 && i < |words|
  {
    !WordDecrypts(words[i], k) && forall j :: 0 <= j < i ==> WordDecrypts(words[j], k)
  }

  /** `decrypt(ciphertext, key)`: one character per white-space separated
      word, or the error of the first word that does not decrypt. */
  function Decrypt(c: string, k: Key): (r: Result<string>)
    requires k.modulus >= 1
    ensures var words := Split(c);
            r.Success? <==> forall i :: 0 <= i < |words| ==> WordDecrypts(words[i], k)
    ensures var words := Split(c);
            r.Success? ==> |r.value| == |words| && forall i :: 0 <= i < |words| ==> r.value[i] == WordChar(words[i], k)
    ensures var words := Split(c);
            r.Failure? ==> exists i :: 0 <= i < |words| && FirstFailure(words, k, i) && r.error == WordError(words[i], k)
  {
    DecryptWords(Split(c), k)
  }

  /** `chr(v^d mod n)` for each value, for a modulus at most 0xD800. */
  function PlainChars(values: seq<nat>, k: Key): (r: string)
    requires 1 <= k.modulus <= 0xD800
    ensures |r| == |values|
  {
    seq(|values|, i requires 0 <= i < |values| => PowMod(values[i], k.exponent, k.modulus) as char)
  }

  /** The decimal text of a value decrypts to `chr(v^d mod n)`. */
  lemma DecryptDecimalWord(v: nat, k: Key)
    requires 1 <= k.modulus <= 0xD800
    requires |NatToDecimal(v)| <= MaxStrDigits
    ensures WordDecrypts(NatToDecimal(v), k)
    ensures WordChar(NatToDecimal(v), k) == PowMod(v, k.exponent, k.modulus) as char
  {
    ParseIntDecimal(v);
  }

  /** Words that are decimal texts of at most 4300 digits (the most `int()`
      accepts) decrypt one by one to `chr(v^d mod n)`. */
  lemma DecryptDecimalWords(values: seq<nat>, k: Key)
    requires 1 <= k.modulus <= 0xD800
    requires forall i :: 0 <= i < |values| ==> |NatToDecimal(values[i])| <= MaxStrDigits
    ensures DecryptWords(Decimals(values), k) == Success(PlainChars(values, k))
  {
    var words := Decimals(values);
    forall i | 0 <= i < |values|
      ensures WordDecrypts(words[i], k)
      ensures WordChar(words[i], k) == PowMod(values[i], k.exponent, k.modulus) as char
    {
      DecryptDecimalWord(values[i], k);
    }
    assert DecryptWords(words, k).value == PlainChars(values, k);
  }

  /** `decrypt` inverts the space-separated rendering of cipher values:
      `decrypt(" ".join(map(str, vs)))` yields `chr(v^d mod n)` for each v
      whose decimal text `int()` accepts. */
  lemma DecryptSpaced(values: seq<nat>, k: Key)
    requires 1 <= k.modulus <= 0xD800
    requires forall i :: 0 <= i < |values| ==> |NatToDecimal(values[i])| <= MaxStrDigits
    ensures Decrypt(JoinWith(Decimals(values), " "), k) == Success(PlainChars(values, k))
  {
    SplitJoin(Decimals(values));
    DecryptDecimalWords(values, k);
  }

  /** `encrypt` joins with `''` but `decrypt` splits on white space, so a
      ciphertext is one word.  A successful decryption gives the empty
      string for the empty message and a single character otherwise, never
      the message itself once it has two or more characters.  For a key
      whose modulus is at most 0xD800, as every generated key has, every
      value is a valid `chr` argument, so decryption succeeds exactly when
      the word is short enough for `int()` (at most 4300 digits). */
  lemma DecryptEncryptCollapses(m: string, pub: Key, priv: Key)
    requires pub.modulus >= 1 && priv.modulus >= 1
    ensures priv.modulus <= 0xD800 ==>
              (Decrypt(Encrypt(m, pub), priv).Success? <==> |Encrypt(m, pub)| <= MaxStrDigits)
    ensures Decrypt(Encrypt(m, pub), priv).Success? ==>
              |Decrypt(Encrypt(m, pub), priv).value| == if m == [] then 0 else 1
    ensures |m| >= 2 ==> Decrypt(Encrypt(m, pub), priv) != Success(m)
  {
    var c := Encrypt(m, pub);
    if c != [] {
      DigitsAreNotSpace(c);
      SplitJoin([c]);
      assert Split(c) == [c];
      assert IsDigit(c[0]);
      if |c| <= MaxStrDigits {
        assert ParseInt(c) == Some(DecimalValue(c));
        var words: seq<string> := [c];
        assert words[1..] == [];
        assert DecryptWords(words[1..], priv) == Success("");
      } else {
        assert ParseInt(c) == None;
      }
    } else {
      assert Split(c) == [];
    }
  }

  /** `sign_message(message, key)`: the hex SHA-256 digest of the message,
      encrypted.  A signature is all digits, at least 64 of them. */
  function SignMessage(sha: Hasher, message: string, k: Key): (signature: string)
    requires k.modulus >= 1
    ensures AllDigits(signature) && 64 <= |signature|
  {
    Encrypt(sha(message), k)
  }

  /** There is no `verify`; the natural one, decrypting the signature with
      the signer's public key and comparing with the digest, always fails:
      the decryption is at most a single character, never the 64-digit
      digest, or it raises.  With a verifying modulus of at most 0xD800 it
      raises only when `int()` rejects a signature longer than 4300 digits,
      and with a signing modulus of at most 10000, as every generated key
      has, the signature is short enough and decryption succeeds. */
  lemma SignatureNeverVerifies(sha: Hasher, message: string, priv: Key, pub: Key)
    requires priv.modulus >= 1 && pub.modulus >= 1
    ensures pub.modulus <= 0xD800 ==>
              (Decrypt(SignMessage(sha, message, priv), pub).Success? <==>
               |SignMessage(sha, message, priv)| <= MaxStrDigits)
    ensures pub.modulus <= 0xD800 && priv.modulus <= 10000 ==>
              Decrypt(SignMessage(sha, message, priv), pub).Success?
    ensures Decrypt(SignMessage(sha, message, priv), pub) != Success(sha(message))
  {
    DecryptEncryptCollapses(sha(message), priv, pub);
    if priv.modulus <= 10000 {
      EncryptLength(sha(message), priv);
    }
  }
}
