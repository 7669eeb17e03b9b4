# Toy ledger: cipher, Merkle root and proof-of-work chain

A Dafny model of `3.py`, a single-file illustrative ledger. It has three parts.

- **The cipher.** A tiny RSA-like cryptosystem. Primes come from `random.randint(2, 100)` and are filtered by `is_prime`. The private exponent is `mod_inverse(65537, phi)`, computed by an extended Euclidean loop. `encrypt` raises each character's code point to the exponent modulo `n` and glues the decimal texts together. `decrypt` reads whitespace-separated decimal tokens. `sign_message` encrypts the SHA-256 hex digest of the message with the private key.
- **The Merkle root.** `MerkleTree.build_tree` reduces a list to a single hex digest. It pairs adjacent digests, and an odd digest at the end is paired with itself.
- **The chain.** A `Block` hashes its time stamp, its transaction list, its nonce and the previous hash. `Blockchain` starts with a genesis block. `add_transaction` encrypts and signs a transaction and puts it in the pool. `add_block` seals the pool into a block: `proof_of_work` raises the nonce until the hash starts with `0000`.

Modules, each in its own file:

- `Outcomes` (`outcomes.dfy`): `Option`, and `Result` with the errors Python would raise.
- `Hashing` (`hashing.dfy`): `Digest` is a 64-character lower-case hex string. `Hasher` is a function from strings to digests, standing in for `hashlib.sha256(...).hexdigest()`.
- `Text` (`text.dfy`): the Python built-ins the program leans on: `str(int)`, `int(token)`, `str.split()` and `sep.join`.
- `NumberTheory` (`number_theory.dfy`): primality, `is_prime`, `generate_prime_number`, gcd, integer square root and `mod_inverse`.
- `Cipher` (`cipher.dfy`): keys, `generate_key_pair`, `encrypt`, `decrypt` and `sign_message`.
- `Merkle` (`merkle.dfy`): `build_tree`.
- `Ledger` (`ledger.dfy`): `Transaction`, `Block`, `calculate_hash`, `Blockchain`, `proof_of_work`, `add_transaction` and `add_block`.

Parameters stand in for the outside world:

- **Hashing.** SHA-256 is a `Hasher` parameter. The properties hold for every function with 64-hex-digit outputs. Where a property needs the hash to be collision-free, the lemma instead produces the collision.
- **Clock.** `datetime.now()` readings are `Timestamp` parameters.
- **`str`.** `str(datetime)` and `str(transaction)` are fields of an `Env` parameter. For a `Transaction` object, `str` is its default, address-based representation.
- **Random draws.** The draws of `random.randint` are a sequence passed to `GeneratePrime`. `GenerateKeyPair` takes the two primes directly.

Facts about the code that shape the model:

- **Merkle root.** `Block` hashes `str(self.transactions)` and never uses `MerkleTree` (3.py:21-23). `Merkle.BuildTree` is therefore modelled on its own, and `Ledger` does not use it.
- **Key generation.** For primes in 2..100, 65537 always has an inverse modulo phi: phi is below 65537, and 65537 is prime (`Cipher.PublicExponentCoprime`). The only failure `ModInverse` models is the `a // 0` that Python hits on other inputs.
- **Large code points.** `encrypt` reduces code points at or above `n` modulo `n` (`Cipher.EncryptChar`).
- **Decryption round trip.** `encrypt` joins with `''` while `decrypt` splits on white space, so `split()` yields at most one token. Decrypting an encryption therefore gives at most one character (`Cipher.DecryptEncryptCollapses`), and a signature never decrypts to the digest (`Cipher.SignatureNeverVerifies`). Decryption of space-separated tokens is also modelled (`Cipher.DecryptSpaced`).
- **Length of integer texts.** CPython's `int()` rejects a decimal text of more than 4300 digits (the default of `sys.int_max_str_digits`). `Text.ParseInt` models that limit, so a ciphertext longer than 4300 digits fails to decrypt with `InvalidLiteral`.

## Model

| member | source | states |
|---|---|---|
| Text.DecimalRoundTrip | 3.py:113 | Reading back the decimal text that `str` gives for a non-negative integer yields that integer. |
| Text.ParseIntDecimal | 3.py:117 | `int(str(x)) == x` for every integer of at most 4300 digits, negative ones included. |
| Text.SplitJoin | 3.py:117 | `split()` of words joined by single spaces returns exactly those words, in order. |
| Text.JoinAppend | 3.py:113 | `''.join` of two concatenated part lists is the concatenation of the two joins. |
| Text.ParseInt | 3.py:117 | `int(token)` succeeds exactly when the token, after at most one leading `+` or `-`, is 1 to 4300 ASCII digits. The value is that decimal number, negated after a `-`. |
| Text.Split | 3.py:117 | Every token `split()` returns is non-empty and free of white space. |
| NumberTheory.PowMod | 3.py:112 | Three-argument `pow` with modulus `n` lands in `[0, n)`. |
| NumberTheory.IsqrtBound | 3.py:81 | The integer square root `r` used as the trial bound satisfies `r*r <= n < (r+1)*(r+1)`. |
| NumberTheory.NoOddDivisorMeaning | 3.py:82-84 | The `range(3, max_div, 2)` loop finds no divisor exactly when no odd number in that range divides `n`. |
| NumberTheory.OddTrialCorrect | 3.py:81-85 | For odd `n >= 3`, trial division by the odd numbers from 3 up to `isqrt(n)` finds no divisor exactly when `n` is prime. |
| NumberTheory.IsPrimeTrial | 3.py:74-85 | `is_prime(n)` holds exactly when `n >= 2` and no number in `[2, n)` divides `n`; this covers negatives, 0, 1, 2 and even numbers. |
| NumberTheory.Prime65537 | 3.py:106 | The public exponent 65537 is prime. |
| NumberTheory.GeneratePrime | 3.py:87-91 | The first prime among the draws is returned, and it lies in 2..100. The result is `None` exactly when no draw is prime. |
| NumberTheory.GcdDivides | 3.py:93-99 | The gcd that decides whether `mod_inverse` succeeds is a positive divisor of both arguments. |
| NumberTheory.GcdGreatest | 3.py:93-99 | Every common divisor of the two arguments divides that gcd, so it is the greatest common divisor. |
| NumberTheory.ModInverse | 3.py:93-99 | For `a > 1` it fails (Python's `a // 0`) exactly when `gcd(a, m) != 1`. Otherwise the result `x` lies in `[0, m)` with `a*x ≡ 1 (mod m)`. For `a <= 1` the loop is skipped and the result is 1. |
| Cipher.PublicExponentCoprime | 3.py:106-107 | 65537 is coprime to every phi that key generation can produce, so the inverse always exists. |
| Cipher.GenerateKeyPair | 3.py:101-108 | Both halves share `n = p*q`, which lies in `[4, 10000]`, and the public exponent is 65537. phi lies in `[1, 65537)`. The private exponent `d` lies in `[0, phi)` and is an inverse of 65537 modulo phi. |
| Cipher.Encrypt | 3.py:110-113 | The ciphertext consists of decimal digits only, with at least one digit per character. The empty message encrypts to the empty text. |
| Cipher.EncryptAppend | 3.py:110-113 | Encryption is a homomorphism from message concatenation to ciphertext concatenation. |
| Cipher.EncryptChar | 3.py:112-113 | A single character encrypts to the decimal text of `pow(ord(c), e, n)`, a value in `[0, n)`. |
| Cipher.DecryptWords | 3.py:117 | Decryption succeeds exactly when every token is an integer literal whose `pow(int(w), d, n)` is a valid `chr` argument. It then yields, for each token in order, the character `chr(pow(int(w), d, n))`. Otherwise the error is that of the first failing token: `InvalidLiteral` for a non-integer, `NotACharacter` for a bad code point. |
| Cipher.Decrypt | 3.py:115-118 | The same for the whitespace-separated tokens of the ciphertext. Success comes exactly when every token decrypts. It yields the character `chr(pow(int(w), d, n))` for each token `w`, and otherwise gives the error of the first failing token. |
| Cipher.DecryptSpaced | 3.py:115-118 | For a modulus of at most 0xD800, decrypting space-separated decimal values, each of at most 4300 digits, always succeeds. It yields the character `pow(v, d, n)` for each value `v`, in order. |
| Cipher.DecryptEncryptCollapses | 3.py:110-118 | For every key, a successful decryption of an encryption yields at most one character, so no message of two or more characters survives the round trip. For a decrypting modulus of at most 0xD800, decryption succeeds exactly when the ciphertext has at most 4300 digits. |
| Cipher.SignMessage | 3.py:120-123 | A signature is all digits and at least 64 characters long, at least one digit per hex character of the digest. |
| Cipher.EncryptLength | 3.py:110-113 | With a modulus of at most 10000, as generated keys have, a ciphertext has at most four digits per character. |
| Cipher.SignatureNeverVerifies | 3.py:115-123 | For every pair of keys, decrypting a signature with the public key never gives back the message digest. For a public modulus of at most 0xD800, decryption succeeds exactly when the signature has at most 4300 digits, which always holds for a signing modulus of at most 10000. |
| Merkle.PairUp | 3.py:38-45 | One round maps `k` digests to `ceil(k/2)`. Digest `j` is the hash of pair `2j, 2j+1`, and the last one is doubled when `k` is odd. |
| Merkle.PairRound | 3.py:38-45 | The inner `for` loop computes exactly one round. |
| Merkle.BuildTree | 3.py:30-46 | The two nested loops compute the recursive root definition, including `None` for the empty list and the bare leaf digest for one item. |
| Merkle.MerkleSmallLists | 3.py:31-46 | The empty list has no root, and `[x]` has root `H(str x)` with no pairing round. `[x0, x1]` has root `H(H(x0) + H(x1))`. |
| Merkle.MerkleDuplicateLast | 3.py:40-43 | For an odd count of at least three, repeating the last item leaves the root unchanged. |
| Merkle.ReduceBinding | 3.py:37-46 | Two different equal-length digest lists that reduce to the same root yield two different strings with the same hash. |
| Merkle.MerkleBinding | 3.py:30-46 | Two different equal-length item lists with the same root give a collision of the hash function. This assumes the lists' texts differ where the items do. |
| Ledger.BlockText | 3.py:21-23 | The text `calculate_hash` hashes begins with the time stamp text and the `[` of the transaction list. It ends with the last digit of the nonce followed by the previous hash. |
| Ledger.NonceChangesText | 3.py:21-23 | Different nonces give different hashed texts, so each proof-of-work step hashes a new input. |
| Ledger.NewBlock | 3.py:14-19 | A new block starts with nonce 0, and its stored hash is `calculate_hash` of its fields. |
| Ledger.Genesis | 3.py:53-54 | The genesis block has no transactions, the previous hash `''` and nonce 0. Its hash is that of the time stamp text followed by `[]0`. |
| Ledger.ProofOfWork | 3.py:69-72 | The result is the first nonce, counting up from the block's, whose hash starts with `0000`. Only the nonce and the hash change, and the new hash is `calculate_hash` of the block. The argument `proof` does not influence the result. `None` means no nonce within the bound meets the target. |
| Ledger.NewBlockchain | 3.py:49-54 | A new blockchain holds only the genesis block and an empty pool, and it is valid. |
| Ledger.Signed | 3.py:56-59 | `add_transaction` keeps the transaction's fields and attaches a signature of digits, at least 64 long. |
| Ledger.AddTransaction | 3.py:56-60 | The chain is unchanged, and the pool gains exactly the signed transaction at its end: the transaction with the signature `sign_message(encrypt(message, recipient key), sender key)`. Validity is preserved. |
| Ledger.AddTransactions | 3.py:56-60 | After a run of `add_transaction` calls the chain is untouched and a valid blockchain stays valid. The pool is the old pool followed by each call's signed transaction, in call order. |
| Ledger.AddBlock | 3.py:62-72 | Exactly one block is appended. It holds the prior pool in order, is linked to the previous last hash, meets the target and matches its hash. Its nonce is the first from 0 that meets the target, so `proof` does not influence the result. The pool becomes empty and validity is preserved. It returns `None` exactly when no nonce within the bound meets the target. |

## Left out

- SHA-256 itself: it is the `Hasher` parameter, so no property depends on how it is computed.
- `datetime.now()`, `str(datetime)` and `str(Transaction)`: these are clock readings and `Env` functions. The default object text depends on memory addresses, which the model cannot see.
- `random.randint`: the draws, or the two primes, are parameters.
- `int(n**0.5)`: the model uses the exact integer square root. The two agree for every `n` below 2^52, which covers all draws from 2..100. For larger `n`, floating-point rounding is not modelled.
- NumberTheory.GeneratePrime: the endless `while True` is bounded by the given draws. `None` stands for "still drawing".
- Ledger.ProofOfWork: the unbounded search is bounded by a `fuel` count. `None` stands for "not finished after `fuel` increments"; the program would keep searching.
- Ledger.AddBlock: bounded in the same way, through its proof-of-work search. It requires a non-empty chain; every `Blockchain` starts with its genesis block.
- NumberTheory.ModInverse: it requires `a >= 0` and `m >= 1`. Key generation only calls it with `a = 65537` and `m = phi >= 1`.
- Cipher.Encrypt, Cipher.Decrypt, Cipher.SignMessage, Ledger.AddTransaction: they require key moduli of at least 1. Python's `pow` rejects 0, and a negative modulus (which Python accepts, giving non-positive results) is not modelled. Generated keys have `n >= 4`.
- Cipher.DecryptEncryptCollapses, Cipher.SignatureNeverVerifies: success is characterised only for a decrypting modulus of at most 0xD800, where every decrypted value is a valid `chr` argument. With a larger modulus `chr` can raise, for example `chr(1114112)`. Generated keys have `n <= 10000`.
- `int()` details: digit separators (`_`), surrounding white space inside a token, and non-ASCII digits. Tokens produced by `split()` of an encryption are ASCII digit runs only. Only the default 4300-digit limit is modelled; a limit changed through `sys.set_int_max_str_digits` is not.
- `str()` of an integer above 4300 digits: CPython raises, but `Text.IntToDecimal` always produces the text. `encrypt` and `sign_message` can reach this only with a modulus above 10^4300. `TransactionMessage` can reach it only with such an amount.
- Cipher.DecryptSpaced: it requires every value to have at most 4300 digits, because `int()` rejects longer tokens. It also requires a modulus of at most 0xD800: with a larger modulus, a decrypted value can be an invalid `chr` argument and decryption raises.
- Cipher.DecryptEncryptCollapses, Cipher.SignatureNeverVerifies: decryption succeeds only when the ciphertext has at most 4300 digits; beyond that `int()` raises and the result is `InvalidLiteral`.
- Ledger.TransactionMessage: amounts are integers and parties are strings. The f-string text of other values, such as a float amount, is not modelled.
- `chr` of a surrogate code point (0xD800-0xDFFF): Python accepts it but `char` cannot hold it, so `Decrypt` reports `NotACharacter` there as for values above 0x10FFFF.
- Correctness of RSA decryption (`pow(pow(m, e, n), d, n) == m` for distinct primes): not proved. `decrypt` is never called in 3.py.
- Object identity: `add_transaction` mutates the caller's `Transaction`, and a block shares the list object that was the pool. The model uses values, so this aliasing is invisible.
- The demo driver at 3.py:125-143: its keys, two transactions, one block and the printing.
