/**
 Password-based encryption of strings: padding to whole blocks as in section 6.1.1 of RFC 8018,
 cipher block chaining as in section 6.2 of NIST SP 800-38A, and Base64. The block cipher, the digest
 and the Base64 coding are parameters of which only the laws in `Lawful` are used.
 */
module PasswordEncryption {
  type Byte = bv8
  type Bytes = seq<Byte>

  const BLOCK: nat := 8

  const DIGEST: nat := 16

  datatype Primitives = Primitives(
    encipher: (Bytes, Bytes) -> Bytes,
    decipher: (Bytes, Bytes) -> Bytes,
    digest: Bytes -> Bytes,
    encode: Bytes -> string,
    decode: string -> Bytes)
  {
    /** Deciphering inverts enciphering on blocks, decoding inverts encoding, digests have their size. */
    ghost predicate Lawful() {
      && (forall k, b :: |b| == BLOCK ==> |encipher(k, b)| == BLOCK && decipher(k, encipher(k, b)) == b)
      && (forall k, b :: |b| == BLOCK ==> |decipher(k, b)| == BLOCK)
      && (forall s :: decode(encode(s)) == s)
      && (forall s :: |digest(s)| == DIGEST)
    }
  }

  datatype Result<T> = Ok(value: T) | SaltTooShort

  // ---------------------------------------------------------------------------------------------
  // Chaining
  // ---------------------------------------------------------------------------------------------

  function Xor(a: Bytes, b: Bytes): (c: Bytes)
    requires |a| == |b|
    ensures |c| == |a|
  {
    seq(|a|, i requires 0 <= i < |a| => a[i] ^ b[i])
  }

  lemma XorTwice(a: Bytes, b: Bytes)
    requires |a| == |b|
    ensures Xor(Xor(a, b), b) == a
  {
  }

  /** Each block is combined with the enciphered block before it, the first with `iv`. */
  function CbcEncrypt(p: Primitives, key: Bytes, iv: Bytes, data: Bytes): (r: Bytes)
    requires p.Lawful() && |iv| == BLOCK && |data| % BLOCK == 0
    ensures |r| == |data|
    decreases |data|
  {
    if data == [] then []
    else
      var block := p.encipher(key, Xor(data[..BLOCK], iv));
      block + CbcEncrypt(p, key, block, data[BLOCK..])
  }

  function CbcDecrypt(p: Primitives, key: Bytes, iv: Bytes, data: Bytes): (r: Bytes)
    requires p.Lawful() && |iv| == BLOCK && |data| % BLOCK == 0
    ensures |r| == |data|
    decreases |data|
  {
    if data == [] then []
    else Xor(p.decipher(key, data[..BLOCK]), iv) + CbcDecrypt(p, key, data[..BLOCK], data[BLOCK..])
  }

  lemma {:induction false} CbcRoundTrip(p: Primitives, key: Bytes, iv: Bytes, data: Bytes)
    requires p.Lawful() && |iv| == BLOCK && |data| % BLOCK == 0
    ensures CbcDecrypt(p, key, iv, CbcEncrypt(p, key, iv, data)) == data
    decreases |data|
  {
    if data != [] {
      var mixed := Xor(data[..BLOCK], iv);
      var block := p.encipher(key, mixed);
      var rest := CbcEncrypt(p, key, block, data[BLOCK..]);
      assert (block + rest)[..BLOCK] == block && (block + rest)[BLOCK..] == rest;
      XorTwice(data[..BLOCK], iv);
      CbcRoundTrip(p, key, block, data[BLOCK..]);
      assert data == data[..BLOCK] + data[BLOCK..];
    }
  }

  /** The `j`-th block. */
  function BlockAt(data: Bytes, j: nat): (block: Bytes)
    requires (j + 1) * BLOCK <= |data|
    ensures |block| == BLOCK
  {
    data[j * BLOCK..(j + 1) * BLOCK]
  }

  lemma NextBlock(first: Bytes, rest: Bytes, j: nat)
    requires |first| == BLOCK && (j + 1) * BLOCK <= |rest|
    ensures BlockAt(first + rest, j + 1) == BlockAt(rest, j)
  {
  }

  /** `mixed` is the bitwise exclusive or of `a` and `b`. */
  ghost predicate IsMix(a: Bytes, b: Bytes, mixed: Bytes) {
    |mixed| == |a| == |b| && forall i :: 0 <= i < |mixed| ==> mixed[i] == a[i] ^ b[i]
  }

  lemma EncryptedFirst(p: Primitives, key: Bytes, iv: Bytes, data: Bytes)
    requires p.Lawful() && |iv| == BLOCK && |data| % BLOCK == 0 && BLOCK <= |data|
    ensures var mixed := Xor(data[..BLOCK], iv);
            var block := p.encipher(key, mixed);
            && IsMix(BlockAt(data, 0), iv, mixed) && |block| == BLOCK
            && CbcEncrypt(p, key, iv, data) == block + CbcEncrypt(p, key, block, data[BLOCK..])
  {
  }

  lemma MixIsUnique(a: Bytes, b: Bytes, x: Bytes, y: Bytes)
    requires IsMix(a, b, x) && IsMix(a, b, y)
    ensures x == y
  {
  }

  /** `r` is `data` enciphered block by block, each mixed with the enciphered block before it. */
  ghost predicate IsChained(p: Primitives, key: Bytes, iv: Bytes, data: Bytes, r: Bytes, j: nat, mixed: Bytes)
    requires |r| == |data| && (j + 1) * BLOCK <= |data|
  {
    IsMix(BlockAt(data, j), if j == 0 then iv else BlockAt(r, j - 1), mixed) ==>
      BlockAt(r, j) == p.encipher(key, mixed)
  }

  lemma FirstBlock(first: Bytes, rest: Bytes)
    requires |first| == BLOCK
    ensures BlockAt(first + rest, 0) == first
  {
  }

  lemma ChainedNext(p: Primitives, key: Bytes, iv: Bytes, first: Bytes, block: Bytes, data: Bytes, r: Bytes, j: nat,
                    mixed: Bytes)
    requires |first| == |block| == BLOCK && |r| == |data| && (j + 1) * BLOCK <= |data|
    requires IsChained(p, key, block, data, r, j, mixed)
    ensures IsChained(p, key, iv, first + data, block + r, j + 1, mixed)
  {
    hide IsMix, BlockAt;
    NextBlock(first, data, j);
    NextBlock(block, r, j);
    if j == 0 {
      FirstBlock(block, r);
    } else {
      NextBlock(block, r, j - 1);
    }
  }

  /** Every enciphered block is that of its own plain block mixed with the enciphered block before it. */
  lemma {:induction false} EncryptedBlock(p: Primitives, key: Bytes, iv: Bytes, data: Bytes, j: nat, mixed: Bytes)
    requires p.Lawful() && |iv| == BLOCK && |data| % BLOCK == 0 && (j + 1) * BLOCK <= |data|
    ensures IsChained(p, key, iv, data, CbcEncrypt(p, key, iv, data), j, mixed)
    decreases j
  {
    hide CbcEncrypt, IsMix, BlockAt, Xor;
    var first, rest := data[..BLOCK], data[BLOCK..];
    var block := p.encipher(key, Xor(first, iv));
    var r := CbcEncrypt(p, key, block, rest);
    EncryptedFirst(p, key, iv, data);
    assert data == first + rest;
    if j == 0 {
      FirstBlock(first, rest);
      FirstBlock(block, r);
      if IsMix(BlockAt(data, 0), iv, mixed) {
        MixIsUnique(BlockAt(data, 0), iv, mixed, Xor(first, iv));
      }
    } else {
      EncryptedBlock(p, key, block, rest, j - 1, mixed);
      ChainedNext(p, key, iv, first, block, rest, r, j - 1, mixed);
    }
  }

  lemma DecryptedFirst(p: Primitives, key: Bytes, iv: Bytes, data: Bytes)
    requires p.Lawful() && |iv| == BLOCK && |data| % BLOCK == 0 && BLOCK <= |data|
    ensures var plain := Xor(p.decipher(key, data[..BLOCK]), iv);
            && IsMix(p.decipher(key, BlockAt(data, 0)), iv, plain)
            && CbcDecrypt(p, key, iv, data) == plain + CbcDecrypt(p, key, data[..BLOCK], data[BLOCK..])
  {
  }

  /** Every deciphered block is mixed with the enciphered block before it. */
  lemma {:induction false} DecryptedBlock(p: Primitives, key: Bytes, iv: Bytes, data: Bytes, j: nat)
    requires p.Lawful() && |iv| == BLOCK && |data| % BLOCK == 0 && (j + 1) * BLOCK <= |data|
    ensures IsMix(p.decipher(key, BlockAt(data, j)), if j == 0 then iv else BlockAt(data, j - 1),
                  BlockAt(CbcDecrypt(p, key, iv, data), j))
    decreases j
  {
    hide CbcDecrypt, IsMix, BlockAt, Xor;
    var first, rest := data[..BLOCK], data[BLOCK..];
    var plain, r := Xor(p.decipher(key, first), iv), CbcDecrypt(p, key, first, rest);
    DecryptedFirst(p, key, iv, data);
    assert data == first + rest;
    if j == 0 {
      FirstBlock(plain, r);
    } else {
      DecryptedBlock(p, key, first, rest, j - 1);
      NextBlock(first, rest, j - 1);
      NextBlock(plain, r, j - 1);
      if j == 1 {
        FirstBlock(first, rest);
      } else {
        NextBlock(first, rest, j - 2);
      }
    }
  }

  // ---------------------------------------------------------------------------------------------
  // Padding
  // ---------------------------------------------------------------------------------------------

  function PaddingOf(n: nat): (padding: nat)
    ensures 1 <= padding <= BLOCK && (n + padding) % BLOCK == 0
  {
    BLOCK - n % BLOCK
  }

  function Padded(text: Bytes): Bytes {
    var padding := PaddingOf(|text|);
    text + seq(padding, _ => padding as Byte)
  }

  /** The padded text is cut at what its last byte says, read as a signed character. */
  function SignedByte(b: Byte): int {
    if b as int < 128 then b as int else b as int - 256
  }

  /** `substr(0, n)` with an unsigned `n`: a length beyond the end, or below zero, keeps everything. */
  function Prefix(data: Bytes, n: int): Bytes {
    if 0 <= n <= |data| then data[..n] else data
  }

  function Unpadded(data: Bytes): Bytes
    requires data != []
  {
    Prefix(data, |data| - SignedByte(data[|data| - 1]))
  }

  lemma UnpadPadded(text: Bytes)
    ensures Unpadded(Padded(text)) == text
    ensures |Padded(text)| % BLOCK == 0 && 1 <= |Padded(text)| - |text| <= BLOCK
  {
  }

  /** `plain` is `text`, followed by one to eight bytes that all say how many they are. */
  ghost predicate IsPadded(text: Bytes, plain: Bytes) {
    && text <= plain
    && 1 <= |plain| - |text| <= BLOCK && |plain| % BLOCK == 0
    && forall i :: |text| <= i < |plain| ==> plain[i] as int == |plain| - |text|
  }

  lemma PaddedIsPadded(text: Bytes)
    ensures IsPadded(text, Padded(text))
  {
    UnpadPadded(text);
  }

  /** Padding leaves no choice. */
  lemma PaddingIsUnique(text: Bytes, a: Bytes, b: Bytes)
    requires IsPadded(text, a) && IsPadded(text, b)
    ensures a == b
  {
    assert |a| == |b|;
    forall i | 0 <= i < |a| ensures a[i] == b[i] {
      assert i < |text| ==> a[i] == text[i] == b[i];
    }
  }

  /** What is cut: as many bytes as the last one says, if that is at most 127 and there are as many. */
  lemma UnpaddedCuts(data: Bytes)
    requires data != []
    ensures var n := data[|data| - 1] as int;
            Unpadded(data) == if n <= 127 && n <= |data| then data[..|data| - n] else data
  {
  }

  // ---------------------------------------------------------------------------------------------
  // Key derivation
  // ---------------------------------------------------------------------------------------------

  /** The digest applied `n` times. */
  function Digested(p: Primitives, data: Bytes, n: nat): Bytes {
    if n == 0 then data else p.digest(Digested(p, data, n - 1))
  }

  /** One application of the digest, and applications one after the other. */
  lemma {:induction false} DigestedLaws(p: Primitives, data: Bytes, m: nat, n: nat)
    ensures Digested(p, data, 1) == p.digest(data)
    ensures Digested(p, Digested(p, data, m), n) == Digested(p, data, m + n)
    decreases n
  {
    assert Digested(p, data, 0) == data;
    if n > 0 {
      DigestedLaws(p, data, m, n - 1);
    }
  }

  const TWO_TO_THE_63: int := 0x8000_0000_0000_0000

  /** `long` on a 64-bit machine; counting below its least value is taken to wrap around. */
  type Long = i: int | -TWO_TO_THE_63 <= i < TWO_TO_THE_63

  function Decremented(i: Long): Long {
    if i == -TWO_TO_THE_63 then TWO_TO_THE_63 - 1 else i - 1
  }

  /** How many decrements lead from `i` to zero. */
  function StepsToZero(i: Long): nat {
    if i >= 0 then i else i + 2 * TWO_TO_THE_63
  }

  /** How often the digest is applied: a count below one runs through all the negative numbers. */
  function Rounds(iterations: Long): (n: nat)
    ensures n == if iterations >= 1 then iterations else iterations + 2 * TWO_TO_THE_63
  {
    1 + StepsToZero(Decremented(iterations))
  }

  /** Only the first eight bytes of the salt are used. */
  method GenerateDataHash(p: Primitives, data: Bytes, salt: Bytes, iterations: Long) returns (r: Result<Bytes>)
    requires p.Lawful()
    ensures r == if |salt| < BLOCK then SaltTooShort else Ok(Digested(p, data + salt[..BLOCK], Rounds(iterations)))
    ensures r.Ok? ==> |r.value| == DIGEST
  {
    if |salt| < BLOCK {
      return SaltTooShort;
    }
    var result := p.digest(data + salt[..BLOCK]);
    assert result == Digested(p, data + salt[..BLOCK], 1) by {
      assert Digested(p, data + salt[..BLOCK], 0) == data + salt[..BLOCK];
    }
    var left := Decremented(iterations);
    while left != 0
      invariant StepsToZero(left) < Rounds(iterations) && |result| == DIGEST
      invariant result == Digested(p, data + salt[..BLOCK], Rounds(iterations) - StepsToZero(left))
      decreases StepsToZero(left)
    {
      result := p.digest(result);
      left := Decremented(left);
    }
    return Ok(result);
  }

  datatype Key = Key(key: Bytes, ivec: Bytes)

  ghost function KeyOf(p: Primitives, password: Bytes, salt: Bytes, iterations: Long): (key: Key)
    requires p.Lawful() && |salt| >= BLOCK
    ensures |key.key| == |key.ivec| == BLOCK
    ensures key.key + key.ivec == Digested(p, password + salt[..BLOCK], Rounds(iterations))
  {
    var hash := Digested(p, password + salt[..BLOCK], Rounds(iterations));
    Key(hash[..BLOCK], hash[BLOCK..])
  }

  method GenerateKey(p: Primitives, password: Bytes, salt: Bytes, iterations: Long) returns (r: Result<Key>)
    requires p.Lawful()
    ensures r == if |salt| < BLOCK then SaltTooShort else Ok(KeyOf(p, password, salt, iterations))
  {
    var hash := GenerateDataHash(p, password, salt, iterations);
    if hash.SaltTooShort? {
      return SaltTooShort;
    }
    return Ok(Key(hash.value[..BLOCK], hash.value[BLOCK..]));
  }

  // ---------------------------------------------------------------------------------------------
  // Encryption and decryption
  // ---------------------------------------------------------------------------------------------

  ghost function Encrypted(p: Primitives, text: Bytes, key: Key): string
    requires p.Lawful() && |key.ivec| == BLOCK
  {
    UnpadPadded(text);
    p.encode(CbcEncrypt(p, key.key, key.ivec, Padded(text)))
  }

  lemma EncryptOne(p: Primitives, key: Bytes, iv: Bytes, input: Bytes, at: nat, done: Bytes)
    requires p.Lawful() && |iv| == BLOCK && at < |input| && (|input| - at) % BLOCK == 0
    ensures at + BLOCK <= |input| && (|input| - (at + BLOCK)) % BLOCK == 0
    ensures var block := p.encipher(key, Xor(input[at..at + BLOCK], iv));
            done + CbcEncrypt(p, key, iv, input[at..]) ==
            (done + block) + CbcEncrypt(p, key, block, input[at + BLOCK..])
  {
    var data := input[at..];
    assert data[..BLOCK] == input[at..at + BLOCK] && data[BLOCK..] == input[at + BLOCK..];
  }

  method WriteBlock(output: array<Byte>, at: nat, block: Bytes)
    requires at + |block| <= output.Length
    modifies output
    ensures output[..at] == old(output[..at])
    ensures output[..at + |block|] == old(output[..at]) + block
  {
    forall i | 0 <= i < |block| {
      output[at + i] := block[i];
    }
  }

  /** The chained cipher: writes block after block into the caller's buffer. */
  method NcbcEncrypt(p: Primitives, input: Bytes, output: array<Byte>, key: Bytes, iv: Bytes)
    requires p.Lawful() && |iv| == BLOCK && |input| == output.Length && |input| % BLOCK == 0
    modifies output
    ensures output[..] == CbcEncrypt(p, key, iv, input)
  {
    var ivec, at := iv, 0;
    assert input[0..] == input;
    while at < |input|
      invariant at <= |input| && (|input| - at) % BLOCK == 0 && |ivec| == BLOCK
      invariant output[..at] + CbcEncrypt(p, key, ivec, input[at..]) == CbcEncrypt(p, key, iv, input)
    {
      EncryptOne(p, key, ivec, input, at, output[..at]);
      ivec := p.encipher(key, Xor(input[at..at + BLOCK], ivec));
      WriteBlock(output, at, ivec);
      at := at + BLOCK;
    }
    assert output[..at] == output[..];
  }

  method Encrypt(p: Primitives, text: Bytes, password: Bytes, salt: Bytes, iterations: Long) returns (r: Result<string>)
    requires p.Lawful()
    ensures r == if |salt| < BLOCK then SaltTooShort
                 else Ok(Encrypted(p, text, KeyOf(p, password, salt, iterations)))
  {
    var padding := BLOCK - |text| % BLOCK;
    var pad := seq(padding, _ => padding as Byte);
    var toEncrypt := text + pad;
    assert toEncrypt == Padded(text);
    UnpadPadded(text);
    var key := GenerateKey(p, password, salt, iterations);
    if key.SaltTooShort? {
      return SaltTooShort;
    }
    var buffer := new Byte[|toEncrypt|];
    NcbcEncrypt(p, toEncrypt, buffer, key.value.key, key.value.ivec);
    return Ok(p.encode(buffer[..]));
  }

  lemma DecryptOne(p: Primitives, key: Bytes, iv: Bytes, input: Bytes, at: nat, done: Bytes)
    requires p.Lawful() && |iv| == BLOCK && at < |input| && (|input| - at) % BLOCK == 0
    ensures at + BLOCK <= |input| && (|input| - (at + BLOCK)) % BLOCK == 0
    ensures var block := input[at..at + BLOCK];
            done + CbcDecrypt(p, key, iv, input[at..]) ==
            (done + Xor(p.decipher(key, block), iv)) + CbcDecrypt(p, key, block, input[at + BLOCK..])
  {
    var data := input[at..];
    assert data[..BLOCK] == input[at..at + BLOCK] && data[BLOCK..] == input[at + BLOCK..];
  }

  method NcbcDecrypt(p: Primitives, input: Bytes, output: array<Byte>, key: Bytes, iv: Bytes)
    requires p.Lawful() && |iv| == BLOCK && |input| == output.Length && |input| % BLOCK == 0
    modifies output
    ensures output[..] == CbcDecrypt(p, key, iv, input)
  {
    var ivec, at := iv, 0;
    assert input[0..] == input;
    while at < |input|
      invariant at <= |input| && (|input| - at) % BLOCK == 0 && |ivec| == BLOCK
      invariant output[..at] + CbcDecrypt(p, key, ivec, input[at..]) == CbcDecrypt(p, key, iv, input)
    {
      DecryptOne(p, key, ivec, input, at, output[..at]);
      var block := input[at..at + BLOCK];
      WriteBlock(output, at, Xor(p.decipher(key, block), ivec));
      ivec, at := block, at + BLOCK;
    }
    assert output[..at] == output[..];
  }

  /** Once the salt is accepted, defined on whole, non-empty blocks: the source reads the last byte unchecked. */
  method Decrypt(p: Primitives, text: string, password: Bytes, salt: Bytes, iterations: Long) returns (r: Result<Bytes>)
    requires p.Lawful()
    requires |salt| >= BLOCK ==> |p.decode(text)| % BLOCK == 0 && p.decode(text) != []
    ensures r == if |salt| < BLOCK then SaltTooShort
                 else var key := KeyOf(p, password, salt, iterations);
                   Ok(Unpadded(CbcDecrypt(p, key.key, key.ivec, p.decode(text))))
  {
    var data := p.decode(text);
    var key := GenerateKey(p, password, salt, iterations);
    if key.SaltTooShort? {
      return SaltTooShort;
    }
    var buffer := new Byte[|data|];
    NcbcDecrypt(p, data, buffer, key.value.key, key.value.ivec);
    var decrypted := buffer[..];
    return Ok(Prefix(decrypted, |decrypted| - SignedByte(decrypted[|decrypted| - 1])));
  }

  /** Seen from the receiving side: what was encrypted is the text with its padding. */
  lemma EncryptedIsPadded(p: Primitives, text: Bytes, password: Bytes, salt: Bytes, iterations: Long)
    requires p.Lawful() && |salt| >= BLOCK
    ensures var key := KeyOf(p, password, salt, iterations);
            var data := p.decode(Encrypted(p, text, key));
            |data| % BLOCK == 0 && IsPadded(text, CbcDecrypt(p, key.key, key.ivec, data))
  {
    var key := KeyOf(p, password, salt, iterations);
    PaddedIsPadded(text);
    CbcRoundTrip(p, key.key, key.ivec, Padded(text));
  }

  /** Main result: `Decrypt` undoes `Encrypt` under the same password, salt and iterations. */
  lemma EncryptionRoundTrip(p: Primitives, text: Bytes, password: Bytes, salt: Bytes, iterations: Long)
    requires p.Lawful() && |salt| >= BLOCK
    ensures var key := KeyOf(p, password, salt, iterations);
            var data := p.decode(Encrypted(p, text, key));
            && data != [] && |data| % BLOCK == 0
            && Unpadded(CbcDecrypt(p, key.key, key.ivec, data)) == text
  {
    var key := KeyOf(p, password, salt, iterations);
    UnpadPadded(text);
    CbcRoundTrip(p, key.key, key.ivec, Padded(text));
  }
}
