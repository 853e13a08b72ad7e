/**
  The counter-mode stream cipher of crypto/crypto.cpp (NIST SP 800-38A,
  section 6.5): aes_ctr copies the caller's 16-byte IV into a local counter and
  lets the AES library's aes_ctr_crypt XOR the input with the encryptions of
  successive counter values, advancing the counter with counter_increment.
  The AES block function is a parameter.
 */
module Ctr {
  import opened ModArith
  import opened Ubin
  import opened Bytes

  /** BLOCK_SIZE: bytes per AES block, and so per counter. */
  const BlockSize: nat := 16

  /** Bytes of key material aes_encrypt_key256 reads. */
  const KeySize: nat := 32

  type Block = s: seq<bv8> | |s| == 16 witness [0, 0, 0, 0, 0, 0, 0, 0, 0, 0, 0, 0, 0, 0, 0, 0]

  /** AES-256 encryption of one block under a 32-byte key (aes/aes.h, not part of this model). */
  type BlockCipher = (seq<bv8>, Block) -> Block

  // ---------------------------------------------------------------------------
  // The counter
  // ---------------------------------------------------------------------------

  /**
    Big-endian increment of a counter: the last byte is incremented, and a
    byte that wraps to 0 carries into the byte before it (NIST SP 800-38A,
    Appendix B.1).
   */
  function Inc(c: seq<bv8>): (r: seq<bv8>)
    ensures |r| == |c|
    decreases |c|
  {
    if c == [] then []
    else if c[|c| - 1] == 0xFF then Inc(c[..|c| - 1]) + [0]
    else c[..|c| - 1] + [c[|c| - 1] + 1]
  }

  /** The counter after k increments of iv. */
  function Counter(iv: seq<bv8>, k: nat): (c: seq<bv8>)
    ensures |c| == |iv|
    decreases k
  {
    if k == 0 then iv else Inc(Counter(iv, k - 1))
  }

  /**
    The increment stops at the last byte that does not wrap: that byte goes
    up by one, every byte after it becomes 0, every byte before it is kept.
   */
  lemma {:induction false} IncStopsAtFirstNonWrap(c: seq<bv8>, i: nat)
    requires i < |c| && c[i] != 0xFF
    requires forall j :: i < j < |c| ==> c[j] == 0xFF
    ensures forall j :: 0 <= j < i ==> Inc(c)[j] == c[j]
    ensures Inc(c)[i] == c[i] + 1
    ensures forall j :: i < j < |c| ==> Inc(c)[j] == 0
    decreases |c|
  {
    if i < |c| - 1 {
      IncStopsAtFirstNonWrap(c[..|c| - 1], i);
    }
  }

  /** A counter of all 0xFF bytes wraps around to all zero bytes. */
  lemma {:induction false} IncAllWrap(c: seq<bv8>)
    requires forall j :: 0 <= j < |c| ==> c[j] == 0xFF
    ensures forall j :: 0 <= j < |c| ==> Inc(c)[j] == 0
    decreases |c|
  {
    if c != [] {
      IncAllWrap(c[..|c| - 1]);
    }
  }

  /** The increment adds one to the counter's big-endian value, modulo 256^|c|. */
  lemma {:induction false} IncValue(c: seq<bv8>)
    ensures UbinValue(Inc(c)) == (UbinValue(c) + 1) % Pow(256, |c|)
    decreases |c|
  {
    if c != [] {
      var t, x := c[..|c| - 1], c[|c| - 1];
      assert c == t + [x];
      if x == 0xFF {
        IncValue(t);
        IncValueWrapStep(t);
      } else {
        IncValueStep(t, x);
      }
    }
  }

  /** Incrementing a counter whose last byte wraps, given the claim for the rest. */
  lemma {:induction false} IncValueWrapStep(t: seq<bv8>)
    requires UbinValue(Inc(t)) == (UbinValue(t) + 1) % Pow(256, |t|)
    ensures UbinValue(Inc(t + [0xFF])) == (UbinValue(t + [0xFF]) + 1) % Pow(256, |t| + 1)
  {
    var c := t + [0xFF];
    assert Inc(c) == Inc(t) + [0] by {
      assert c[..|t|] == t;
    }
    UbinValueSnoc(t, 0xFF);
    UbinValueSnoc(Inc(t), 0);
    IncValueCarry(UbinValue(c), UbinValue(t), Pow(256, |t|), UbinValue(Inc(t)),
                  UbinValue(Inc(c)), Pow(256, |t| + 1));
  }

  /** Incrementing a counter whose last byte does not wrap. */
  lemma {:induction false} IncValueStep(t: seq<bv8>, x: bv8)
    requires x != 0xFF
    ensures UbinValue(Inc(t + [x])) == (UbinValue(t + [x]) + 1) % Pow(256, |t| + 1)
  {
    var c := t + [x];
    assert Inc(c) == t + [x + 1] by {
      assert c[..|t|] == t;
    }
    UbinValueSnoc(t, x);
    UbinValueSnoc(t, x + 1);
    ByteSucc(x);
    UbinValueBound(t);
    IncValueNoCarry(UbinValue(c), UbinValue(t), x as int, Pow(256, |t|),
                    UbinValue(Inc(c)), Pow(256, |t| + 1));
  }

  /** The arithmetic of a carry out of the last byte: u = 256v + 255 becomes 256((v + 1) mod p). */
  lemma {:induction false} IncValueCarry(u: int, v: int, p: int, w: int, r: int, q: int)
    requires u == v * 256 + 255 && v >= 0 && p > 0 && w == (v + 1) % p
    requires r == w * 256 && q == 256 * p
    ensures r == (u + 1) % q
  {
    var a := (v + 1) * 256;
    DivModUnique(a, 256, v + 1, 0);
    LastDigitMod(a, p);
  }

  /** The arithmetic of an increment that stays within the last byte. */
  lemma {:induction false} IncValueNoCarry(u: int, v: int, x: int, p: int, r: int, q: int)
    requires u == v * 256 + x && 0 <= x < 255 && 0 <= v < p
    requires r == v * 256 + (x + 1) && q == 256 * p
    ensures r == (u + 1) % q
  {
    assert u + 1 < q by {
      assert (v + 1) * 256 == v * 256 + 256;
      assert (v + 1) * 256 <= p * 256;
    }
    DivModUnique(u + 1, q, 0, u + 1);
  }

  /** Incrementing first and counting k more is counting k + 1. */
  lemma {:induction false} CounterShift(c: seq<bv8>, k: nat)
    ensures Counter(Inc(c), k) == Counter(c, k + 1)
    decreases k
  {
    if k > 0 {
      CounterShift(c, k - 1);
    }
  }

  /** After k increments the counter holds iv + k, modulo 256^|iv|. */
  lemma {:induction false} CounterValue(iv: seq<bv8>, k: nat)
    ensures UbinValue(Counter(iv, k)) == (UbinValue(iv) + k) % Pow(256, |iv|)
    decreases k
  {
    var p := Pow(256, |iv|);
    if k == 0 {
      UbinValueBound(iv);
      DivModUnique(UbinValue(iv), p, 0, UbinValue(iv));
    } else {
      CounterValue(iv, k - 1);
      IncValue(Counter(iv, k - 1));
      AddModLeft(UbinValue(iv) + k - 1, 1, p);
    }
  }

  /**
    No counter value repeats within 256^|iv| increments, so no two of that
    many blocks are encrypted under the same counter block.
   */
  lemma {:induction false} CountersDistinct(iv: seq<bv8>, i: nat, j: nat)
    requires i < j < Pow(256, |iv|)
    ensures Counter(iv, i) != Counter(iv, j)
  {
    CounterValue(iv, i);
    CounterValue(iv, j);
    ShiftChangesRemainder(UbinValue(iv) + i, j - i, Pow(256, |iv|));
  }

  /** Adding a positive amount below m always changes the remainder modulo m. */
  lemma {:induction false} ShiftChangesRemainder(a: nat, d: nat, m: nat)
    requires 0 < d < m
    ensures (a + d) % m != a % m
  {
    var q, r := a / m, a % m;
    assert a + d == q * m + (r + d);
    if r + d < m {
      DivModUnique(a + d, m, q, r + d);
    } else {
      assert a + d == (q + 1) * m + (r + d - m);
      DivModUnique(a + d, m, q + 1, r + d - m);
    }
  }

  /**
    counter_increment, with the loop running over the counter's own sixteen
    bytes, index 15 down to index 0, as the callback of aes_ctr_crypt is meant
    to; this is the increment the rest of the model uses.
   */
  method CounterIncrement(cbuf: array<bv8>)
    requires cbuf.Length == BlockSize
    modifies cbuf
    ensures cbuf[..] == Inc(old(cbuf[..]))
  {
    ghost var s := cbuf[..];
    var i := BlockSize;
    while i > 0
      invariant 0 <= i <= BlockSize
      invariant forall j :: 0 <= j < i ==> cbuf[j] == s[j]
      invariant forall j :: i <= j < BlockSize ==> s[j] == 0xFF && cbuf[j] == 0
      decreases i
    {
      i := i - 1;
      cbuf[i] := cbuf[i] + 1;
      if cbuf[i] != 0 {
        IncStopsAtFirstNonWrap(s, i);
        assert cbuf[..] == Inc(s);
        return;
      }
    }
    IncAllWrap(s);
    assert cbuf[..] == Inc(s);
  }

  /**
    The effect of counter_increment as written: the loop runs i = 16 down to
    1, so it increments the sixteen bytes at indices 1..16 as one big-endian
    number, never touches index 0, and leaves the rest alone.
   */
  function AsWrittenEffect(s: seq<bv8>): (r: seq<bv8>)
    requires |s| >= BlockSize + 1
    ensures |r| == |s|
  {
    s[..1] + Inc(s[1..BlockSize + 1]) + s[BlockSize + 1..]
  }

  /** Byte j of the as-written effect, read off the increment of bytes 1..16. */
  lemma {:induction false} AsWrittenAt(s: seq<bv8>, j: nat)
    requires |s| >= BlockSize + 1 && j < |s|
    ensures AsWrittenEffect(s)[j]
         == if 1 <= j <= BlockSize then Inc(s[1..BlockSize + 1])[j - 1] else s[j]
  {}

  /** The as-written effect when the carry stops at index i (1 <= i <= 16). */
  lemma {:induction false} AsWrittenStopsAt(s: seq<bv8>, i: nat)
    requires |s| >= BlockSize + 1 && 1 <= i <= BlockSize && s[i] != 0xFF
    requires forall j :: i < j <= BlockSize ==> s[j] == 0xFF
    ensures forall j :: 0 <= j < |s| ==>
              AsWrittenEffect(s)[j] == if j < i || j > BlockSize then s[j] else if j == i then s[i] + 1 else 0
  {
    var w := s[1..BlockSize + 1];
    IncStopsAtFirstNonWrap(w, i - 1);
    forall j | 0 <= j < |s|
      ensures AsWrittenEffect(s)[j]
           == if j < i || j > BlockSize then s[j] else if j == i then s[i] + 1 else 0
    {
      AsWrittenAt(s, j);
    }
  }

  /** The as-written effect when bytes 1..16 are all 0xFF. */
  lemma {:induction false} AsWrittenAllWrap(s: seq<bv8>)
    requires |s| >= BlockSize + 1
    requires forall j :: 1 <= j <= BlockSize ==> s[j] == 0xFF
    ensures forall j :: 0 <= j < |s| ==>
              AsWrittenEffect(s)[j] == if j < 1 || j > BlockSize then s[j] else 0
  {
    IncAllWrap(s[1..BlockSize + 1]);
    forall j | 0 <= j < |s|
      ensures AsWrittenEffect(s)[j] == if j < 1 || j > BlockSize then s[j] else 0
    {
      AsWrittenAt(s, j);
    }
  }

  /**
    counter_increment exactly as written. Its loop reads and writes cbuf[16],
    so it needs a buffer of at least 17 bytes; aes_ctr passes its 16-byte
    counter_buffer.
   */
  method CounterIncrementAsWritten(cbuf: array<bv8>)
    requires cbuf.Length >= BlockSize + 1
    modifies cbuf
    ensures cbuf[..] == AsWrittenEffect(old(cbuf[..]))
  {
    ghost var s := cbuf[..];
    var i := BlockSize;
    while i > 0
      invariant 0 <= i <= BlockSize
      invariant forall j :: 0 <= j <= i || BlockSize < j < cbuf.Length ==> cbuf[j] == s[j]
      invariant forall j :: i < j <= BlockSize ==> s[j] == 0xFF && cbuf[j] == 0
      decreases i
    {
      cbuf[i] := cbuf[i] + 1;
      if cbuf[i] != 0 {
        AsWrittenStopsAt(s, i);
        assert cbuf[..] == AsWrittenEffect(s);
        return;
      }
      i := i - 1;
    }
    AsWrittenAllWrap(s);
    assert cbuf[..] == AsWrittenEffect(s);
  }

  /**
    Against a 16-byte counter at indices 0..15, the as-written increment
    changes none of the counter's bytes unless the byte past its end is 0xFF,
    whereas the intended increment always changes the counter.
   */
  lemma {:induction false} AsWrittenStallsCounter(s: seq<bv8>)
    requires |s| == BlockSize + 1 && s[BlockSize] != 0xFF
    ensures AsWrittenEffect(s)[..BlockSize] == s[..BlockSize]
    ensures Inc(s[..BlockSize]) != s[..BlockSize]
  {
    AsWrittenStopsAt(s, BlockSize);
    assert AsWrittenEffect(s)[..BlockSize] == s[..BlockSize];
    var c := s[..BlockSize];
    IncValue(c);
    UbinValueBound(c);
    PowMonotone(256, 1, BlockSize);
    assert Pow(256, 1) == 256;
    if UbinValue(c) + 1 < Pow(256, BlockSize) {
      DivModUnique(UbinValue(c) + 1, Pow(256, BlockSize), 0, UbinValue(c) + 1);
    }
  }

  // ---------------------------------------------------------------------------
  // The keystream
  // ---------------------------------------------------------------------------

  function XorBytes(data: seq<bv8>, ks: seq<bv8>): (r: seq<bv8>)
    requires |data| <= |ks|
    ensures |r| == |data| && forall i :: 0 <= i < |data| ==> r[i] == data[i] ^ ks[i]
  {
    seq(|data|, i requires 0 <= i < |data| => data[i] ^ ks[i])
  }

  /**
    aes_ctr_crypt with a fresh context: each block of the input, the last one
    possibly partial, is XORed with the encryption of the current counter,
    and the counter is incremented between blocks.
   */
  function CtrCrypt(cipher: BlockCipher, key: seq<bv8>, ctr: Block, input: seq<bv8>): (out: seq<bv8>)
    ensures |out| == |input|
    decreases |input|
  {
    var ks := cipher(key, ctr);
    if |input| <= BlockSize then XorBytes(input, ks)
    else XorBytes(input[..BlockSize], ks) + CtrCrypt(cipher, key, Inc(ctr), input[BlockSize..])
  }

  /**
    Byte j of the output is byte j of the input XORed with byte j mod 16 of
    the encryption of the (j div 16)-th counter value, final partial block
    included.
   */
  lemma {:induction false} CtrCryptByte(cipher: BlockCipher, key: seq<bv8>, ctr: Block, input: seq<bv8>, j: nat)
    requires j < |input|
    ensures CtrCrypt(cipher, key, ctr, input)[j]
         == input[j] ^ cipher(key, Counter(ctr, j / BlockSize))[j % BlockSize]
    decreases |input|
  {
    var out := CtrCrypt(cipher, key, ctr, input);
    if |input| > BlockSize && j >= BlockSize {
      var rest, j' := input[BlockSize..], j - BlockSize;
      var q, r := j' / BlockSize, j' % BlockSize;
      CtrCryptByte(cipher, key, Inc(ctr), rest, j');
      CounterShift(ctr, q);
      DivModUnique(j, BlockSize, q + 1, r);
      assert out[j] == CtrCrypt(cipher, key, Inc(ctr), rest)[j'];
      assert rest[j'] == input[j];
    } else {
      DivModUnique(j, BlockSize, 0, j);
      var ks := cipher(key, ctr);
      if |input| <= BlockSize {
        assert out == XorBytes(input, ks);
      } else {
        assert out[j] == XorBytes(input[..BlockSize], ks)[j];
      }
    }
  }

  /** CTR mode is its own inverse: decrypting with the same key and IV restores the input. */
  lemma {:induction false} CtrCryptInvolution(cipher: BlockCipher, key: seq<bv8>, ctr: Block, m: seq<bv8>)
    ensures CtrCrypt(cipher, key, ctr, CtrCrypt(cipher, key, ctr, m)) == m
  {
    var c := CtrCrypt(cipher, key, ctr, m);
    var d := CtrCrypt(cipher, key, ctr, c);
    forall j | 0 <= j < |m|
      ensures d[j] == m[j]
    {
      CtrCryptByte(cipher, key, ctr, m, j);
      CtrCryptByte(cipher, key, ctr, c, j);
    }
  }

  // ---------------------------------------------------------------------------
  // aes_ctr
  // ---------------------------------------------------------------------------

  /** Byte j of the keystream: byte j mod 16 of the encryption of the (j div 16)-th counter. */
  function KeystreamByte(cipher: BlockCipher, key: seq<bv8>, iv: Block, j: nat): bv8
  {
    cipher(key, Counter(iv, j / BlockSize))[j % BlockSize]
  }

  /**
    The inner loop of aes_ctr_crypt for one block: XORs the n input bytes at
    pos with the keystream block ks, the encryption of the blk-th counter,
    into the output buffer, extending the prefix already encrypted.
   */
  method XorBlock(outBuf: array<bv8>, input: seq<bv8>, pos: nat, n: nat, ks: Block,
                  ghost cipher: BlockCipher, ghost k: seq<bv8>, ghost iv: Block, ghost blk: nat)
    requires outBuf.Length == |input| && pos + n <= |input| && n <= BlockSize
    requires pos == blk * BlockSize && ks == cipher(k, Counter(iv, blk))
    requires forall j :: 0 <= j < pos ==> outBuf[j] == input[j] ^ KeystreamByte(cipher, k, iv, j)
    modifies outBuf
    ensures forall j :: 0 <= j < pos + n ==> outBuf[j] == input[j] ^ KeystreamByte(cipher, k, iv, j)
    ensures forall j :: pos + n <= j < outBuf.Length ==> outBuf[j] == old(outBuf[j])
  {
    var b := 0;
    while b < n
      invariant 0 <= b <= n
      invariant forall j :: 0 <= j < pos + b ==> outBuf[j] == input[j] ^ KeystreamByte(cipher, k, iv, j)
      invariant forall j :: pos + b <= j < outBuf.Length ==> outBuf[j] == old(outBuf[j])
    {
      DivModUnique(pos + b, BlockSize, blk, b);
      outBuf[pos + b] := input[pos + b] ^ ks[b];
      b := b + 1;
    }
  }

  /**
    aes_ctr: schedules the first 32 bytes of the key, copies the 16-byte IV
    into a local counter, and fills a fresh output buffer block by block,
    incrementing the local counter after every full block. The IV is only
    read.
   */
  method AesCtr(input: seq<bv8>, key: seq<bv8>, iv: array<bv8>, cipher: BlockCipher) returns (output: seq<bv8>)
    requires |key| >= KeySize && iv.Length >= BlockSize
    ensures output == CtrCrypt(cipher, key[..KeySize], iv[..BlockSize], input)
  {
    var size := |input|;
    var outBuf := new bv8[size];
    var k := key[..KeySize];
    var counter := new bv8[BlockSize];
    var i := 0;
    while i < BlockSize
      invariant 0 <= i <= BlockSize
      invariant counter[..i] == iv[..i]
    {
      counter[i] := iv[i];
      i := i + 1;
    }
    ghost var iv0: Block := iv[..BlockSize];
    var pos := 0;
    ghost var blk := 0;
    while pos < size
      invariant 0 <= pos <= size
      invariant pos < size ==> pos == blk * BlockSize && counter[..] == Counter(iv0, blk)
      invariant forall j :: 0 <= j < pos ==> outBuf[j] == input[j] ^ KeystreamByte(cipher, k, iv0, j)
      decreases size - pos
    {
      var ks := cipher(k, counter[..]);
      var n := if size - pos < BlockSize then size - pos else BlockSize;
      XorBlock(outBuf, input, pos, n, ks, cipher, k, iv0, blk);
      if n == BlockSize {
        CounterIncrement(counter);
      }
      pos, blk := pos + n, blk + 1;
    }
    output := outBuf[..];
    forall j | 0 <= j < size
      ensures output[j] == CtrCrypt(cipher, k, iv0, input)[j]
    {
      CtrCryptByte(cipher, k, iv0, input, j);
    }
  }

  /**
    Encrypting with aes_ctr and then decrypting the result with the same key
    and the same IV buffer gives back the input: aes_ctr only reads the IV, so
    the second call starts from the same counter as the first.
   */
  method AesCtrRoundTrip(m: seq<bv8>, key: seq<bv8>, iv: array<bv8>, cipher: BlockCipher)
    returns (enc: seq<bv8>, dec: seq<bv8>)
    requires |key| >= KeySize && iv.Length >= BlockSize
    ensures |enc| == |m| && dec == m
  {
    enc := AesCtr(m, key, iv, cipher);
    dec := AesCtr(enc, key, iv, cipher);
    CtrCryptInvolution(cipher, key[..KeySize], iv[..BlockSize], m);
  }
}
