/** Big-endian numbers in byte buffers. */
module ByteCodec {
  import opened Arithmetic
  import opened PutRule
  import opened Operations

  function Pow256(w: nat): (r: nat)
    ensures r > 0
  {
    if w == 0 then 1 else 256 * Pow256(w - 1)
  }

  /** The low `w` bytes of `n`, most significant first. */
  function BigEndian(n: nat, w: nat): (b: Bytes)
    ensures |b| == w
  {
    if w == 0 then [] else BigEndian(n / 256, w - 1) + [(n % 256) as byte]
  }

  function FromBigEndian(b: Bytes): nat {
    if b == [] then 0 else 256 * FromBigEndian(b[..|b| - 1]) + b[|b| - 1] as nat
  }

  /** Reading undoes writing, for numbers that fit the width. */
  lemma {:induction false} BigEndianRoundTrip(n: nat, w: nat)
    requires n < Pow256(w)
    ensures FromBigEndian(BigEndian(n, w)) == n
  {
    if w == 0 {
    } else {
      BigEndianRoundTrip(n / 256, w - 1);
      assert BigEndian(n, w)[..w - 1] == BigEndian(n / 256, w - 1);
    }
  }

  /** The shift by which the writing loop picks its i-th byte picks the i-th byte. */
  lemma {:induction false} BigEndianAt(n: nat, w: nat, i: nat)
    requires i < w
    ensures BigEndian(n, w)[i] as nat == (n / Pow256(w - 1 - i)) % 256
  {
    if i == w - 1 {
    } else {
      BigEndianAt(n / 256, w - 1, i);
      DivideTwice(n, Pow256(w - 2 - i));
    }
  }

  lemma DivideTwice(n: nat, m: nat)
    requires m > 0
    ensures n / 256 / m == n / (256 * m)
  {
    var q, r := n / 256 / m, n / 256 % m;
    assert n / 256 == q * m + r;
    assert n == 256 * (q * m + r) + n % 256;
    assert n == (256 * m) * q + (256 * r + n % 256);
    DivisionIs(n, 256 * m, q, 256 * r + n % 256);
  }

  /** Appends `w` bytes, most significant first. */
  method AppendToBuffer(n: nat, w: nat, buffer: Bytes) returns (out: Bytes)
    ensures out == buffer + BigEndian(n, w)
  {
    out := buffer;
    for i := 0 to w
      invariant out == buffer + BigEndian(n, w)[..i]
    {
      BigEndianAt(n, w, i);
      out := out + [((n / Pow256(w - 1 - i)) % 256) as byte];
      assert BigEndian(n, w)[..i + 1] == BigEndian(n, w)[..i] + [BigEndian(n, w)[i]];
    }
    assert BigEndian(n, w)[..w] == BigEndian(n, w);
  }

  /** Widths of at most four bytes: each byte is shifted within an int and its place in the result is its own. */
  method ParseFromBuffer(buffer: Bytes, position: nat, w: nat) returns (result: nat)
    requires position + w <= |buffer|
    ensures result == FromBigEndian(buffer[position..position + w])
  {
    result := 0;
    var i := w;
    while i > 0
      invariant 0 <= i <= w
      invariant result + Pow256(w - i) * FromBigEndian(buffer[position..position + i]) ==
                FromBigEndian(buffer[position..position + w])
    {
      i := i - 1;
      ghost var b := buffer[position..position + i + 1];
      assert b[..i] == buffer[position..position + i];
      ghost var high := FromBigEndian(buffer[position..position + i]);
      assert FromBigEndian(b) == 256 * high + buffer[position + i] as nat;
      Shifted(Pow256(w - 1 - i), high, buffer[position + i] as nat);
      result := result + buffer[position + i] as nat * Pow256(w - 1 - i);
    }
    assert buffer[position..position] == [];
  }

  lemma Shifted(m: nat, high: nat, low: nat)
    ensures m * (256 * high + low) == low * m + 256 * m * high
  {}

  const TWO_31: nat := 0x8000_0000
  const TWO_32: nat := 0x1_0000_0000
  const TWO_64: nat := 0x1_0000_0000_0000_0000

  /** An eight-byte number is put together from shifted ints. The four low bytes make an int, whose sign fills the
      upper half; shifting one of the four high bytes past the int is undefined unless that byte is zero. */
  function ParseU64(b: Bytes): Option<nat>
    requires |b| == 8
  {
    var low := FromBigEndian(b[4..]);
    if b[..4] != [0, 0, 0, 0] then None
    else if low >= TWO_31 then Some(low + TWO_64 - TWO_32)
    else Some(low)
  }

  lemma Pow256Values()
    ensures Pow256(1) == 256 && Pow256(2) == 0x1_0000 && Pow256(4) == TWO_32 && Pow256(8) == TWO_64
  {
    assert Pow256(0) == 1 && Pow256(3) == 256 * Pow256(2);
    assert Pow256(5) == 256 * Pow256(4) && Pow256(6) == 256 * Pow256(5) && Pow256(7) == 256 * Pow256(6);
  }

  lemma {:induction false} BigEndianZero(w: nat)
    ensures forall i :: 0 <= i < w ==> BigEndian(0, w)[i] == 0
  {
    if w == 0 {
    } else {
      BigEndianZero(w - 1);
    }
  }

  lemma {:induction false} BigEndianHigh(n: nat, w: nat, v: nat)
    ensures BigEndian(n, v + w)[v..] == BigEndian(n, w)
    ensures BigEndian(n, v + w)[..v] == BigEndian(n / Pow256(w), v)
    decreases w
  {
    if w == 0 {
    } else {
      BigEndianHigh(n / 256, w - 1, v);
      DivideTwice(n, Pow256(w - 1));
      assert BigEndian(n, v + w) == BigEndian(n / 256, v + w - 1) + [(n % 256) as byte];
      assert BigEndian(n, v + w)[..v] == BigEndian(n / 256, v + w - 1)[..v];
      assert BigEndian(n, v + w)[v..] == BigEndian(n / 256, v + w - 1)[v..] + [(n % 256) as byte];
    }
  }

  /** An eight-byte number comes back exactly when it is below 2^31. */
  lemma U64RoundTrip(n: nat)
    requires n < TWO_64
    ensures ParseU64(BigEndian(n, 8)) == Some(n) <==> n < TWO_31
  {
    Pow256Values();
    BigEndianHigh(n, 4, 4);
    var high := n / TWO_32;
    var b := BigEndian(n, 8);
    if high == 0 {
      BigEndianZero(4);
      assert b[..4] == [0, 0, 0, 0];
      BigEndianRoundTrip(n, 4);
    } else {
      assert high < Pow256(4);
      BigEndianRoundTrip(high, 4);
      if b[..4] == [0, 0, 0, 0] {
        BigEndianZero(4);
        assert BigEndian(0, 4) == b[..4];
        BigEndianRoundTrip(0, 4);
      }
    }
  }

  /** From offset `at` on there are these bytes. */
  predicate BytesAt(b: Bytes, at: nat, part: Bytes) {
    at + |part| <= |b| && b[at..at + |part|] == part
  }

  lemma Middle(before: Bytes, part: Bytes, after: Bytes)
    ensures BytesAt(before + part + after, |before|, part)
  {}

  lemma Further(first: Bytes, b: Bytes, at: nat, part: Bytes)
    requires BytesAt(b, at, part)
    ensures BytesAt(first + b, |first| + at, part)
  {
    assert (first + b)[|first| + at..|first| + at + |part|] == b[at..at + |part|];
  }

  lemma Shorter(b: Bytes, at: nat, part: Bytes, more: Bytes)
    requires BytesAt(b, at, part)
    ensures BytesAt(b + more, at, part)
  {
    assert (b + more)[at..at + |part|] == b[at..at + |part|];
  }

  lemma Regroups(a: Bytes, b: Bytes, c: Bytes)
    ensures a + (b + c) == a + b + c
  {}
}
