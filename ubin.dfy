/**
  Unsigned big-endian byte encoding of naturals, as libtommath's
  mp_to_ubin / mp_from_ubin / mp_ubin_size provide it, and the two wrappers
  of the core that use it: mp_to_buffer (encode into a 256-byte buffer or
  fail) and buffer_to_mp (decode the bytes received from the peer).
 */
module Ubin {
  import opened Outcomes
  import opened ModArith
  import opened Bytes

  /** Capacity, in bytes, of every buffer the core encodes a number into (2048 bits). */
  const MaxLen: nat := 256

  /** mp_from_ubin: the value of unsigned big-endian bytes; leading zero bytes are allowed. */
  function UbinValue(s: seq<bv8>): nat
    decreases |s|
  {
    if s == [] then 0 else UbinValue(s[..|s| - 1]) * 256 + s[|s| - 1] as int
  }

  /** mp_ubin_size: the number of bytes of the minimal encoding (0 for the value 0). */
  function UbinSize(v: nat): nat
    decreases v
  {
    if v == 0 then 0 else 1 + UbinSize(v / 256)
  }

  /** The n-byte big-endian encoding of v modulo 256^n, least significant byte last. */
  function UbinBytes(v: nat, n: nat): (s: seq<bv8>)
    ensures |s| == n
    decreases n
  {
    if n == 0 then [] else UbinBytes(v / 256, n - 1) + [ByteOf(v % 256)]
  }

  /** The bytes mp_to_ubin writes: the minimal unsigned big-endian encoding of v. */
  function ToUbin(v: nat): seq<bv8>
  {
    UbinBytes(v, UbinSize(v))
  }

  // ---------------------------------------------------------------------------
  // Properties of the encoding
  // ---------------------------------------------------------------------------

  /** Appending a byte shifts the value up one digit. */
  lemma {:induction false} UbinValueSnoc(t: seq<bv8>, x: bv8)
    ensures UbinValue(t + [x]) == UbinValue(t) * 256 + x as int
  {
    assert (t + [x])[..|t|] == t;
  }

  /** n bytes hold a value below 256^n. */
  lemma {:induction false} UbinValueBound(s: seq<bv8>)
    ensures UbinValue(s) < Pow(256, |s|)
    decreases |s|
  {
    if s != [] {
      UbinValueBound(s[..|s| - 1]);
    }
  }

  /** Splitting off the last base-256 digit commutes with reduction modulo 256 * p. */
  lemma {:induction false} LastDigitMod(v: nat, p: nat)
    requires p > 0
    ensures ((v / 256) % p) * 256 + v % 256 == v % (256 * p)
  {
    var q1, r1 := v / 256, v % 256;
    var q2, r2 := q1 / p, q1 % p;
    assert q1 == q2 * p + r2;
    assert v == q2 * (256 * p) + (r2 * 256 + r1) by {
      assert v == 256 * q1 + r1;
      assert 256 * (q2 * p) == q2 * (256 * p);
    }
    DivModUnique(v, 256 * p, q2, r2 * 256 + r1);
  }

  /** Decoding the n-byte encoding of v gives v modulo 256^n. */
  lemma {:induction false} UbinBytesValue(v: nat, n: nat)
    ensures UbinValue(UbinBytes(v, n)) == v % Pow(256, n)
    decreases n
  {
    if n > 0 {
      var s := UbinBytes(v, n);
      var p := Pow(256, n - 1);
      assert s[..n - 1] == UbinBytes(v / 256, n - 1);
      UbinBytesValue(v / 256, n - 1);
      ByteOfValue(v % 256);
      assert UbinValue(s) == ((v / 256) % p) * 256 + v % 256;
      LastDigitMod(v, p);
    }
  }

  /** UbinSize(v) bytes are enough for v, and no fewer are. */
  lemma {:induction false} UbinSizeBounds(v: nat)
    ensures v < Pow(256, UbinSize(v))
    ensures v > 0 ==> Pow(256, UbinSize(v) - 1) <= v
    decreases v
  {
    if v > 0 {
      UbinSizeBounds(v / 256);
    }
  }

  /** A smaller value never needs more bytes. */
  lemma {:induction false} UbinSizeMonotone(v: nat, w: nat)
    requires v <= w
    ensures UbinSize(v) <= UbinSize(w)
    decreases w
  {
    if v > 0 {
      UbinSizeMonotone(v / 256, w / 256);
    }
  }

  /** A value fits in n bytes exactly when it is below 256^n. */
  lemma {:induction false} UbinSizeFits(v: nat, n: nat)
    ensures UbinSize(v) <= n <==> v < Pow(256, n)
  {
    UbinSizeBounds(v);
    if UbinSize(v) <= n {
      PowMonotone(256, UbinSize(v), n);
    } else {
      PowMonotone(256, n, UbinSize(v) - 1);
    }
  }

  /** Decoding what mp_to_ubin writes gives back the original value. */
  lemma {:induction false} UbinRoundTrip(v: nat)
    ensures UbinValue(ToUbin(v)) == v
  {
    UbinBytesValue(v, UbinSize(v));
    UbinSizeBounds(v);
    DivModUnique(v, Pow(256, UbinSize(v)), 0, v);
  }

  /** The minimal encoding of a positive value ends with its last base-256 digit. */
  lemma {:induction false} ToUbinStep(v: nat)
    requires v > 0
    ensures ToUbin(v) == ToUbin(v / 256) + [ByteOf(v % 256)]
  {}

  /** Distinct values have distinct minimal encodings. */
  lemma {:induction false} ToUbinInjective(v: nat, w: nat)
    requires ToUbin(v) == ToUbin(w)
    ensures v == w
  {
    UbinRoundTrip(v);
    UbinRoundTrip(w);
  }

  /** mp_to_ubin writes no leading zero byte, and writes nothing for zero. */
  lemma {:induction false} ToUbinMinimal(v: nat)
    ensures ToUbin(v) == [] <==> v == 0
    ensures ToUbin(v) == [] || ToUbin(v)[0] != 0
    decreases v
  {
    if v > 0 {
      ToUbinStep(v);
      if v / 256 == 0 {
        ByteOfValue(v % 256);
      } else {
        ToUbinMinimal(v / 256);
      }
    }
  }

  /** Appending a digit to a value appends its byte to the minimal encoding. */
  lemma {:induction false} ToUbinSnoc(u: nat, x: bv8)
    requires u > 0 || x != 0
    ensures ToUbin(u * 256 + x as int) == ToUbin(u) + [x]
  {
    var v := u * 256 + x as int;
    DivModUnique(v, 256, u, x as int);
    ToUbinStep(v);
    ByteOfInt(x);
  }

  /** Every minimal encoding is what mp_to_ubin writes for its value. */
  lemma {:induction false} ToUbinOfValue(s: seq<bv8>)
    requires s == [] || s[0] != 0
    ensures ToUbin(UbinValue(s)) == s
    decreases |s|
  {
    if s != [] {
      var t, x := s[..|s| - 1], s[|s| - 1];
      assert s == t + [x];
      UbinValueSnoc(t, x);
      if t != [] {
        assert t[0] == s[0];
        ToUbinOfValue(t);
        ToUbinMinimal(UbinValue(t));
      }
      ToUbinSnoc(UbinValue(t), x);
    }
  }

  // ---------------------------------------------------------------------------
  // The core's wrappers
  // ---------------------------------------------------------------------------

  /**
    What mp_to_buffer produces: the minimal encoding of v when it fits in
    MaxLen bytes, and MP_BUF (on which the code exits) otherwise; never a
    truncated encoding.
   */
  function ToBuffer(v: nat): (r: Result<seq<bv8>>)
    ensures r.Ok? <==> UbinSize(v) <= MaxLen
    ensures r.Ok? ==> |r.value| <= MaxLen && UbinValue(r.value) == v
    ensures r.Err? ==> r.error == BufferTooSmall
  {
    UbinRoundTrip(v);
    if UbinSize(v) <= MaxLen then Ok(ToUbin(v)) else Err(BufferTooSmall)
  }

  /** mp_to_buffer succeeds exactly on the values below 2^2048. */
  lemma {:induction false} ToBufferFits(v: nat)
    ensures ToBuffer(v).Ok? <==> v < Pow(256, MaxLen)
  {
    UbinSizeFits(v, MaxLen);
  }

  /**
    mp_to_buffer: writes the minimal big-endian encoding of v into the
    caller's 256-byte buffer, last byte first as mp_to_ubin does, and returns
    the number of bytes written; leaves the buffer alone when v does not fit.
   */
  method MpToBuffer(v: nat, buf: array<bv8>) returns (written: Result<nat>)
    requires buf.Length >= MaxLen
    modifies buf
    ensures written.Ok? ==> written.value <= MaxLen
    ensures written.Ok? ==> ToBuffer(v) == Ok(buf[..written.value])
    ensures written.Ok? ==> BufferToMp(buf[..], written.value) == v
    ensures written.Ok? ==> buf[written.value..] == old(buf[written.value..])
    ensures written.Err? ==> ToBuffer(v) == Err(written.error) && buf[..] == old(buf[..])
  {
    var count := UbinSize(v);
    if count > MaxLen {
      return Err(BufferTooSmall);
    }
    var t := v;
    var i := count;
    while i > 0
      invariant 0 <= i <= count
      invariant UbinBytes(t, i) + buf[i..count] == UbinBytes(v, count)
      invariant buf[count..] == old(buf[count..])
      decreases i
    {
      ghost var tail := buf[i..count];
      i := i - 1;
      buf[i] := ByteOf(t % 256);
      assert buf[i..count] == [ByteOf(t % 256)] + tail;
      t := t / 256;
    }
    assert buf[..count] == ToUbin(v);
    UbinRoundTrip(v);
    assert buf[..][..count] == buf[..count];
    return Ok(count);
  }

  /**
    buffer_to_mp: the value of the first recvSize bytes the peer sent,
    read as an unsigned big-endian number.
   */
  function BufferToMp(buf: seq<bv8>, recvSize: nat): (v: nat)
    requires recvSize <= |buf|
    ensures v < Pow(256, recvSize)
  {
    UbinValueBound(buf[..recvSize]);
    UbinValue(buf[..recvSize])
  }
}
