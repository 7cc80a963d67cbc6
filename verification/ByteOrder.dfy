/** Numbers in memory, in either byte order (the tswap macros used by thunk.c). */
module ByteOrder {
  import opened Common

  function Pow256(n: nat): (r: nat)
    ensures r > 0
  {
    if n == 0 then 1 else 0x100 * Pow256(n - 1)
  }

  lemma ReverseTwice(b: seq<byte>)
    ensures Reverse(Reverse(b)) == b
  {
  }

  /** The number with these digits, least significant first. */
  function Little(b: seq<byte>): nat {
    if b == [] then 0 else (b[0] as nat) + 0x100 * Little(b[1..])
  }

  function LittleBytes(v: nat, n: nat): (r: seq<byte>)
    ensures |r| == n
    decreases n
  {
    if n == 0 then [] else [v % 0x100] + LittleBytes(v / 0x100, n - 1)
  }

  /** The number stored in a byte order. */
  function Num(b: seq<byte>, big: bool): nat {
    Little(if big then Reverse(b) else b)
  }

  function Bytes(v: nat, n: nat, big: bool): (r: seq<byte>)
    ensures |r| == n
  {
    if big then Reverse(LittleBytes(v, n)) else LittleBytes(v, n)
  }

  lemma {:induction false} LittleIs(b: seq<byte>)
    ensures LittleBytes(Little(b), |b|) == b && Little(b) < Pow256(|b|)
    decreases |b|
  {
    if b != [] {
      LittleIs(b[1..]);
      assert Little(b) % 0x100 == b[0] && Little(b) / 0x100 == Little(b[1..]);
    }
  }

  lemma {:induction false} LittleBytesIs(v: nat, n: nat)
    requires v < Pow256(n)
    ensures Little(LittleBytes(v, n)) == v
    decreases n
  {
    if n > 0 {
      LittleBytesIs(v / 0x100, n - 1);
      assert LittleBytes(v, n)[1..] == LittleBytes(v / 0x100, n - 1);
    }
  }

  lemma LittlePair(b: seq<byte>)
    requires |b| == 2
    ensures Little(b) == (b[0] as nat) + 0x100 * (b[1] as nat)
  {
    assert Little(b[1..]) == (b[1..][0] as nat) + 0x100 * Little(b[1..][1..]);
  }

  lemma LittleWord(b: seq<byte>)
    requires |b| == 4
    ensures Little(b) ==
            (b[0] as nat) + 0x100 * (b[1] as nat) + 0x1_0000 * (b[2] as nat) + 0x100_0000 * (b[3] as nat)
  {
    var c := b[1..];
    LittlePair(c[1..]);
    assert Little(c) == (c[0] as nat) + 0x100 * Little(c[1..]);
  }

  /** The byte orders: big-endian numbers begin with the most significant byte, little-endian ones end with it. */
  lemma Halfword(b: seq<byte>)
    requires |b| == 2
    ensures Num(b, true) == 0x100 * (b[0] as nat) + (b[1] as nat)
    ensures Num(b, false) == (b[0] as nat) + 0x100 * (b[1] as nat)
  {
    LittlePair(b);
    LittlePair(Reverse(b));
  }

  lemma Word(b: seq<byte>)
    requires |b| == 4
    ensures Num(b, true) ==
            0x100_0000 * (b[0] as nat) + 0x1_0000 * (b[1] as nat) + 0x100 * (b[2] as nat) + (b[3] as nat)
    ensures Num(b, false) ==
            (b[0] as nat) + 0x100 * (b[1] as nat) + 0x1_0000 * (b[2] as nat) + 0x100_0000 * (b[3] as nat)
  {
    LittleWord(b);
    LittleWord(Reverse(b));
  }

  /** A long long is two words, the more significant one first in the big-endian order. */
  lemma Doubleword(b: seq<byte>)
    requires |b| == 8
    ensures Num(b, true) == 0x1_0000_0000 * Num(b[..4], true) + Num(b[4..], true)
    ensures Num(b, false) == Num(b[..4], false) + 0x1_0000_0000 * Num(b[4..], false)
  {
    LittleHalves(b, 4);
    LittleHalves(Reverse(b), 4);
    assert Reverse(b)[..4] == Reverse(b[4..]) && Reverse(b)[4..] == Reverse(b[..4]);
    assert Pow256(4) == 0x100 * Pow256(3) == 0x1_0000 * Pow256(2) == 0x1_0000_0000;
  }

  lemma {:induction false} LittleHalves(b: seq<byte>, n: nat)
    requires n <= |b|
    ensures Little(b) == Little(b[..n]) + Pow256(n) * Little(b[n..])
    decreases n
  {
    if n > 0 {
      LittleHalves(b[1..], n - 1);
      assert b[..n][1..] == b[1..][..n - 1] && b[1..][n - 1..] == b[n..];
      OneMore(Pow256(n - 1), Little(b[n..]));
    } else {
      assert b[..0] == [] && b[0..] == b;
    }
  }

  lemma OneMore(p: nat, x: nat)
    ensures 0x100 * p * x == 0x100 * (p * x)
  {
  }

  /** Storing a number and loading bytes are inverses. */
  lemma NumBytes(v: nat, n: nat, big: bool)
    requires v < Pow256(n)
    ensures Num(Bytes(v, n, big), big) == v
  {
    LittleBytesIs(v, n);
    ReverseTwice(LittleBytes(v, n));
  }

  lemma BytesNum(b: seq<byte>, big: bool)
    ensures Bytes(Num(b, big), |b|, big) == b && Num(b, big) < Pow256(|b|)
  {
    LittleIs(if big then Reverse(b) else b);
    ReverseTwice(b);
  }

  /** Reversing the bytes of a word. */
  function Swap(v: nat, n: nat): nat {
    Little(Reverse(LittleBytes(v, n)))
  }

  /** Swapping a loaded word is loading it in the other byte order. */
  lemma SwapNum(b: seq<byte>, big: bool)
    ensures Swap(Num(b, big), |b|) == Num(b, !big)
  {
    LittleIs(if big then Reverse(b) else b);
    ReverseTwice(b);
  }

  /** Storing a swapped word is storing it in the other byte order. */
  lemma BytesSwap(v: nat, n: nat, big: bool)
    requires v < Pow256(n)
    ensures Bytes(Swap(v, n), n, big) == Bytes(v, n, !big) && Swap(v, n) < Pow256(n)
  {
    LittleIs(Reverse(LittleBytes(v, n)));
    ReverseTwice(LittleBytes(v, n));
  }
}
