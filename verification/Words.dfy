/** Words in memory: big-endian, two's complement, of one, two or four bytes. */
module Words {
  import opened Bytes

  /** v as a two's complement number of n bytes. */
  function Wrap(v: int, n: nat): int {
    if n == 1 then (v + 128) % 256 - 128
    else if n == 2 then (v + 32768) % 65536 - 32768
    else (v + 0x8000_0000) % 0x1_0000_0000 - 0x8000_0000
  }

  function Encode(v: int, n: nat): (bs: seq<Byte>)
    requires n == 1 || n == 2 || n == 4
    ensures |bs| == n
  {
    if n == 1 then [v % 256]
    else if n == 2 then [v / 256 % 256, v % 256]
    else [v / 0x100_0000 % 256, v / 0x1_0000 % 256, v / 256 % 256, v % 256]
  }

  /** An unsigned number of which half the range stands for negative numbers. */
  function Signed(u: int, half: nat): int {
    if u < half then u else u - 2 * half
  }

  function Decode(bs: seq<Byte>): int
    requires |bs| == 1 || |bs| == 2 || |bs| == 4
  {
    if |bs| == 1 then Signed(bs[0], 128)
    else if |bs| == 2 then Signed((bs[0] as int) * 256 + bs[1] as int, 32768)
    else Signed((bs[0] as int) * 0x100_0000 + (bs[1] as int) * 0x1_0000 + (bs[2] as int) * 256 + bs[3] as int,
      0x8000_0000)
  }

  lemma HalfWord(v: int)
    ensures (v / 256 % 256) * 256 + v % 256 == v % 65536
  {
  }

  lemma FullWord(v: int)
    ensures (v / 0x100_0000 % 256) * 0x100_0000 + (v / 0x1_0000 % 256) * 0x1_0000 + (v / 256 % 256) * 256 + v % 256
      == v % 0x1_0000_0000
  {
    var h := v / 0x1_0000;
    HalfWord(v);
    HalfWord(h);
    assert h / 256 == v / 0x100_0000;
  }

  lemma SignedIsWrap1(v: int)
    ensures Signed(v % 256, 128) == Wrap(v, 1)
  {
  }

  lemma SignedIsWrap2(v: int)
    ensures Signed(v % 65536, 32768) == Wrap(v, 2)
  {
  }

  lemma SignedIsWrap4(v: int)
    ensures Signed(v % 0x1_0000_0000, 0x8000_0000) == Wrap(v, 4)
  {
  }

  /** Storing a number and reading it back truncates it to the size of the field. */
  lemma DecodeEncode(v: int, n: nat)
    requires n == 1 || n == 2 || n == 4
    ensures Decode(Encode(v, n)) == Wrap(v, n)
  {
    HalfWord(v);
    FullWord(v);
    SignedIsWrap1(v);
    SignedIsWrap2(v);
    SignedIsWrap4(v);
  }

  // ----- the order of the bytes -----

  /** 256 to the power of n. */
  function Power(n: nat): (p: nat)
    ensures p > 0
  {
    if n == 0 then 1 else 256 * Power(n - 1)
  }

  /** The number that bytes stand for when the first is the highest. */
  function Unsigned(bs: seq<Byte>): nat {
    if bs == [] then 0 else Unsigned(bs[..|bs| - 1]) * 256 + bs[|bs| - 1] as int
  }

  lemma Powers()
    ensures Power(0) == 1 && Power(1) == 256 && Power(2) == 65536 && Power(4) == 0x1_0000_0000
  {
    assert Power(3) == 0x100_0000;
  }

  lemma Unsigned2(a: Byte, b: Byte)
    ensures Unsigned([a, b]) == (a as int) * 256 + b as int
  {
    assert [a, b][..1] == [a] && [a][..0] == [];
    assert Unsigned([a]) == a as int;
  }

  lemma Unsigned4(a: Byte, b: Byte, c: Byte, d: Byte)
    ensures Unsigned([a, b, c, d]) ==
            (a as int) * 0x100_0000 + (b as int) * 0x1_0000 + (c as int) * 256 + d as int
  {
    assert [a, b, c, d][..3] == [a, b, c] && [a, b, c][..2] == [a, b];
    Unsigned2(a, b);
    assert Unsigned([a, b, c]) == ((a as int) * 256 + b as int) * 256 + c as int;
  }

  /** Wrap takes the number of the field's range that leaves the same remainder. */
  lemma WrapIs(v: int, n: nat)
    requires n == 1 || n == 2 || n == 4
    ensures Wrap(v, n) % Power(n) == v % Power(n)
    ensures -(Power(n) as int) <= 2 * Wrap(v, n) < Power(n)
  {
    Powers();
    if n == 1 {
      WrapIs1(v);
    } else if n == 2 {
      WrapIs2(v);
    } else {
      WrapIs4(v);
    }
  }

  lemma WrapIs1(v: int)
    ensures Wrap(v, 1) % 256 == v % 256
  {
  }

  lemma WrapIs2(v: int)
    ensures Wrap(v, 2) % 65536 == v % 65536
  {
  }

  lemma WrapIs4(v: int)
    ensures Wrap(v, 4) % 0x1_0000_0000 == v % 0x1_0000_0000
  {
  }

  lemma SignedRemainder1(u: nat)
    requires u < 256
    ensures Signed(u, 128) % 256 == u
  {
  }

  lemma SignedRemainder2(u: nat)
    requires u < 65536
    ensures Signed(u, 32768) % 65536 == u
  {
  }

  lemma SignedRemainder4(u: nat)
    requires u < 0x1_0000_0000
    ensures Signed(u, 0x8000_0000) % 0x1_0000_0000 == u
  {
  }

  /** The highest byte is stored first. */
  lemma EncodeIs(v: int, n: nat)
    requires n == 1 || n == 2 || n == 4
    ensures Unsigned(Encode(v, n)) == v % Power(n)
  {
    Powers();
    HalfWord(v);
    FullWord(v);
    if n == 1 {
      assert Encode(v, n)[..0] == [];
    } else if n == 2 {
      Unsigned2(v / 256 % 256, v % 256);
    } else {
      Unsigned4(v / 0x100_0000 % 256, v / 0x1_0000 % 256, v / 256 % 256, v % 256);
    }
  }

  /** ... and read first: the bytes are a number of two's complement. */
  lemma DecodeIs(bs: seq<Byte>)
    requires |bs| == 1 || |bs| == 2 || |bs| == 4
    ensures Decode(bs) % Power(|bs|) == Unsigned(bs)
    ensures -(Power(|bs|) as int) <= 2 * Decode(bs) < Power(|bs|)
  {
    Powers();
    if |bs| == 1 {
      assert bs[..0] == [] && Unsigned(bs) == bs[0];
      SignedRemainder1(bs[0]);
    } else if |bs| == 2 {
      assert bs == [bs[0], bs[1]];
      Unsigned2(bs[0], bs[1]);
      SignedRemainder2(Unsigned(bs));
    } else {
      assert bs == [bs[0], bs[1], bs[2], bs[3]];
      Unsigned4(bs[0], bs[1], bs[2], bs[3]);
      SignedRemainder4(Unsigned(bs));
    }
  }

  function Patch(code: seq<Byte>, a: nat, bs: seq<Byte>): (code': seq<Byte>)
    requires a + |bs| <= |code|
    ensures |code'| == |code|
    ensures code'[a..a + |bs|] == bs
    ensures forall i :: 0 <= i < |code| && !(a <= i < a + |bs|) ==> code'[i] == code[i]
  {
    code[..a] + bs + code[a + |bs|..]
  }
}
