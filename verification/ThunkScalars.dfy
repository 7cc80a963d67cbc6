/** Converting scalars between the binary interfaces of the guest and the host (thunk_convert in thunk.c). */
module ThunkScalars {
  import opened Common
  import opened Words
  import opened ThunkTypes
  import opened ByteOrder

  /** The value of a scalar after conversion from one size to another: the same if the sizes are, otherwise
      the low half, or an extension, with the sign only for TYPE_LONG. */
  function Conv(code: int, v: nat, from: nat, to: nat): nat {
    if from == to then v
    else if to < from then v % B32
    else if code == TYPE_LONG && v >= B32 / 2 then v + B64 - B32
    else v
  }

  /** Whether a value survives a conversion: it is not narrowed, or it fits into 32 bits. */
  predicate Fits(code: int, v: nat, from: nat, to: nat) {
    from <= to || (if code == TYPE_LONG then v < B32 / 2 || v >= B64 - B32 / 2 else v < B32)
  }

  lemma PowersOf256()
    ensures Pow256(1) == 0x100 && Pow256(2) == 0x1_0000 && Pow256(4) == B32 && Pow256(8) == B64
  {
    assert Pow256(4) == 0x100 * Pow256(3) == 0x1_0000 * Pow256(2);
    assert Pow256(8) == 0x100 * Pow256(7) == 0x1_0000 * Pow256(6) == 0x100_0000 * Pow256(5) == B32 * Pow256(4);
  }

  /** There and back again restores a value exactly if it fits. */
  lemma ConvBack(c: config, code: int, v: nat, toHost: bool)
    requires IsScalar(code) && v < Pow256(ScalarSize(c, code, !toHost))
    ensures var from, to := ScalarSize(c, code, !toHost), ScalarSize(c, code, toHost);
            && Conv(code, v, from, to) < Pow256(to)
            && (Conv(code, Conv(code, v, from, to), to, from) == v <==> Fits(code, v, from, to))
  {
    PowersOf256();
    var from, to := ScalarSize(c, code, !toHost), ScalarSize(c, code, toHost);
    if from < to {
      if code == TYPE_LONG && v >= B32 / 2 {
        DivModUnique(v + B64 - B32, B32, B32 - 1, v);
      } else {
        DivModUnique(v, B32, 0, v);
      }
    } else if to < from {
      var r := v % B32;
      if v >= B64 - B32 / 2 {
        DivModUnique(v, B32, B32 - 1, v - (B64 - B32));
      }
      if v < B32 {
        DivModUnique(v, B32, 0, v);
      }
    }
  }

  /** A scalar has been converted: its value in the byte order of its side is the converted one. */
  predicate ScalarConverted(c: config, code: int, from: seq<byte>, to: seq<byte>, toHost: bool) {
    Num(to, c.Big(toHost)) == Conv(code, Num(from, c.Big(!toHost)), |from|, |to|)
  }

  /** A scalar that is converted there and back is restored exactly if its value fits. */
  lemma ScalarRoundTrip(c: config, code: int, x: seq<byte>, y: seq<byte>, z: seq<byte>, toHost: bool)
    requires IsScalar(code)
    requires |x| == |z| == ScalarSize(c, code, !toHost) && |y| == ScalarSize(c, code, toHost)
    requires ScalarConverted(c, code, x, y, toHost) && ScalarConverted(c, code, y, z, !toHost)
    ensures x == z <==> Fits(code, Num(x, c.Big(!toHost)), |x|, |y|)
  {
    var big := c.Big(!toHost);
    BytesNum(x, big);
    BytesNum(z, big);
    ConvBack(c, code, Num(x, big), toHost);
  }

  /** Loads a word of the host. */
  method Load(c: config, a: array<byte>, at: nat, n: nat) returns (v: nat)
    requires at + n <= a.Length
    ensures v == Num(a[at..at + n], c.hostBig) && v < Pow256(n)
  {
    v := Num(a[at..at + n], c.hostBig);
    BytesNum(a[at..at + n], c.hostBig);
  }

  /** Stores a word of the host. */
  method Store(c: config, a: array<byte>, at: nat, n: nat, v: nat)
    requires at + n <= a.Length && v < Pow256(n)
    modifies a
    ensures a[at..at + n] == Bytes(v, n, c.hostBig)
    ensures forall k :: 0 <= k < a.Length && (k < at || at + n <= k) ==> a[k] == old(a[k])
  {
    var bytes := Bytes(v, n, c.hostBig);
    forall i | 0 <= i < n {
      a[at + i] := bytes[i];
    }
  }

  /** Swaps the bytes of a word if guest and host have different byte orders. */
  function Tswap(c: config, v: nat, n: nat): nat {
    if c.hostBig != c.targetBig then Swap(v, n) else v
  }

  /** A swapped word has the value that the guest gives it. */
  lemma TswapLoad(c: config, b: seq<byte>)
    ensures Tswap(c, Num(b, c.hostBig), |b|) == Num(b, c.targetBig) < Pow256(|b|)
  {
    SwapNum(b, c.hostBig);
    BytesNum(b, c.targetBig);
  }

  lemma TswapStore(c: config, v: nat, n: nat)
    requires v < Pow256(n)
    ensures Tswap(c, v, n) < Pow256(n)
    ensures Num(Bytes(Tswap(c, v, n), n, c.hostBig), c.targetBig) == v
    ensures Num(Bytes(v, n, c.hostBig), c.hostBig) == v
  {
    BytesSwap(v, n, c.hostBig);
    NumBytes(v, n, c.targetBig);
    NumBytes(v, n, c.hostBig);
  }

  lemma OneByte(b: seq<byte>)
    requires |b| == 1
    ensures Num(b, true) == Num(b, false)
  {
    assert Reverse(b) == b;
  }

  /** Copies a word of n bytes, swapped if necessary. */
  method CopySwapped(c: config, dst: array<byte>, d: nat, src: array<byte>, s: nat, n: nat, ghost code: int,
                     ghost toHost: bool)
    requires dst != src && d + n <= dst.Length && s + n <= src.Length
    modifies dst
    ensures ScalarConverted(c, code, src[s..s + n], dst[d..d + n], toHost)
    ensures forall k :: 0 <= k < dst.Length && (k < d || d + n <= k) ==> dst[k] == old(dst[k])
  {
    var v := Load(c, src, s, n);
    ghost var b := src[s..s + n];
    TswapLoad(c, b);
    TswapStore(c, v, n);
    TswapStore(c, Tswap(c, v, n), n);
    Store(c, dst, d, n, Tswap(c, v, n));
    assert src[s..s + n] == b;
  }

  /** Cuts a word off or extends it. */
  method Extend(c: config, code: int, v: nat, toHost: bool) returns (r: nat)
    requires c.hostLong != c.targetLong && v < Pow256(c.LongSize(!toHost))
    ensures r == Conv(code, v, c.LongSize(!toHost), c.LongSize(toHost)) && r < Pow256(c.LongSize(toHost))
  {
    PowersOf256();
    if c.LongSize(toHost) == 4 {
      r := v % B32;
    } else if code == TYPE_LONG && v >= B32 / 2 {
      r := v + B64 - B32;
    } else {
      r := v;
    }
  }

  lemma ResizedToHost(c: config, code: int, b: seq<byte>, r: nat)
    requires |b| == c.targetLong && r < Pow256(c.hostLong)
    requires r == Conv(code, Tswap(c, Num(b, c.hostBig), c.targetLong), c.targetLong, c.hostLong)
    ensures ScalarConverted(c, code, b, Bytes(r, c.hostLong, c.hostBig), true)
  {
    TswapLoad(c, b);
    TswapStore(c, r, c.hostLong);
  }

  lemma ResizedToTarget(c: config, code: int, b: seq<byte>, r: nat)
    requires |b| == c.hostLong && r < Pow256(c.targetLong)
    requires r == Conv(code, Num(b, c.hostBig), c.hostLong, c.targetLong)
    ensures Tswap(c, r, c.targetLong) < Pow256(c.targetLong)
    ensures ScalarConverted(c, code, b, Bytes(Tswap(c, r, c.targetLong), c.targetLong, c.hostBig), false)
  {
    TswapStore(c, r, c.targetLong);
  }

  /** The word of the host for a word of the guest of another size. */
  method WordForHost(c: config, src: array<byte>, s: nat, code: int) returns (r: nat)
    requires c.hostLong != c.targetLong && s + c.targetLong <= src.Length
    ensures r < Pow256(c.hostLong)
    ensures ScalarConverted(c, code, src[s..s + c.targetLong], Bytes(r, c.hostLong, c.hostBig), true)
  {
    var v := Load(c, src, s, c.targetLong);
    TswapLoad(c, src[s..s + c.targetLong]);
    r := Extend(c, code, Tswap(c, v, c.targetLong), true);
    ResizedToHost(c, code, src[s..s + c.targetLong], r);
  }

  /** Converts a word of the guest to one of the host of another size. */
  method ResizeToHost(c: config, dst: array<byte>, d: nat, src: array<byte>, s: nat, code: int)
    requires c.hostLong != c.targetLong && dst != src
    requires d + c.hostLong <= dst.Length && s + c.targetLong <= src.Length
    modifies dst
    ensures ScalarConverted(c, code, src[s..s + c.targetLong], dst[d..d + c.hostLong], true)
    ensures forall k :: 0 <= k < dst.Length && (k < d || d + c.hostLong <= k) ==> dst[k] == old(dst[k])
  {
    var r := WordForHost(c, src, s, code);
    ghost var b := src[s..s + c.targetLong];
    Store(c, dst, d, c.hostLong, r);
    assert src[s..s + c.targetLong] == b;
  }

  /** The word of the guest, in memory of the host, for a word of the host of another size. */
  method WordForTarget(c: config, src: array<byte>, s: nat, code: int) returns (r: nat)
    requires c.hostLong != c.targetLong && s + c.hostLong <= src.Length
    ensures r < Pow256(c.targetLong)
    ensures ScalarConverted(c, code, src[s..s + c.hostLong], Bytes(r, c.targetLong, c.hostBig), false)
  {
    var v := Load(c, src, s, c.hostLong);
    var e := Extend(c, code, v, false);
    ResizedToTarget(c, code, src[s..s + c.hostLong], e);
    r := Tswap(c, e, c.targetLong);
  }

  /** Converts a word of the host to one of the guest of another size. */
  method ResizeToTarget(c: config, dst: array<byte>, d: nat, src: array<byte>, s: nat, code: int)
    requires c.hostLong != c.targetLong && dst != src
    requires d + c.targetLong <= dst.Length && s + c.hostLong <= src.Length
    modifies dst
    ensures ScalarConverted(c, code, src[s..s + c.hostLong], dst[d..d + c.targetLong], false)
    ensures forall k :: 0 <= k < dst.Length && (k < d || d + c.targetLong <= k) ==> dst[k] == old(dst[k])
  {
    var r := WordForTarget(c, src, s, code);
    ghost var b := src[s..s + c.hostLong];
    Store(c, dst, d, c.targetLong, r);
    assert src[s..s + c.hostLong] == b;
  }

  /** The positions outside a range are unchanged. */
  ghost predicate UnchangedAround(before: seq<byte>, after: seq<byte>, at: nat, n: nat) {
    |after| == |before| && forall k :: 0 <= k < |after| && (k < at || at + n <= k) ==> after[k] == before[k]
  }

  /** The value of m bytes, in the byte order of their side. */
  function ValueAt(c: config, a: seq<byte>, at: nat, m: nat, host: bool): nat
    requires at + m <= |a|
  {
    Num(a[at..at + m], c.Big(host))
  }

  /** The m bytes at s have been read and the n bytes at d have been written, and no others. */
  ghost predicate Written(src: seq<byte>, s: nat, m: nat, before: seq<byte>, after: seq<byte>, d: nat, n: nat) {
    s + m <= |src| && d + n <= |after| && UnchangedAround(before, after, d, n)
  }

  /** A number of n bytes has been copied. */
  ghost predicate Copied(c: config, n: nat, src: seq<byte>, s: nat, before: seq<byte>, after: seq<byte>, d: nat,
                         toHost: bool)
  {
    Written(src, s, n, before, after, d, n) && ValueAt(c, after, d, n, toHost) == ValueAt(c, src, s, n, !toHost)
  }

  /** The low half of 8 bytes has been copied to 4. */
  ghost predicate Narrowed(c: config, src: seq<byte>, s: nat, before: seq<byte>, after: seq<byte>, d: nat, toHost: bool)
  {
    Written(src, s, 8, before, after, d, 4)
    && ValueAt(c, after, d, 4, toHost) == ValueAt(c, src, s, 8, !toHost) % 0x1_0000_0000
  }

  /** 4 bytes have been copied to 8. */
  ghost predicate Widened(c: config, signed: bool, src: seq<byte>, s: nat, before: seq<byte>, after: seq<byte>, d: nat,
                          toHost: bool)
  {
    Written(src, s, 4, before, after, d, 8)
    && var v, w := ValueAt(c, src, s, 4, !toHost), ValueAt(c, after, d, 8, toHost);
       if signed && v >= 0x8000_0000 then v - 0x1_0000_0000 == w - 0x1_0000_0000_0000_0000 else v == w
  }

  /** What converting a scalar reads and writes: a char 1 byte, a short 2, an int 4, a long long 8, and a long, an
      unsigned long and a pointer as many as the two sides have; only a long keeps its sign when it is widened. */
  ghost predicate Moved(c: config, code: int, src: seq<byte>, s: nat, before: seq<byte>, after: seq<byte>, d: nat,
                        toHost: bool)
  {
    && (code == TYPE_CHAR ==> Copied(c, 1, src, s, before, after, d, toHost))
    && (code == TYPE_SHORT ==> Copied(c, 2, src, s, before, after, d, toHost))
    && (code == TYPE_INT ==> Copied(c, 4, src, s, before, after, d, toHost))
    && (code == TYPE_LONGLONG || code == TYPE_ULONGLONG ==> Copied(c, 8, src, s, before, after, d, toHost))
    && (code == TYPE_LONG || code == TYPE_ULONG || code == TYPE_PTRVOID ==>
          if c.hostLong == c.targetLong then Copied(c, c.hostLong, src, s, before, after, d, toHost)
          else if c.LongSize(toHost) == 4 then Narrowed(c, src, s, before, after, d, toHost)
          else Widened(c, code == TYPE_LONG, src, s, before, after, d, toHost))
  }

  lemma ScalarMoved(c: config, code: int, src: seq<byte>, s: nat, m: nat, before: seq<byte>, after: seq<byte>, d: nat,
                    n: nat, toHost: bool)
    requires IsScalar(code) && m == ScalarSize(c, code, !toHost) && n == ScalarSize(c, code, toHost)
    requires s + m <= |src| && d + n <= |after| && UnchangedAround(before, after, d, n)
    requires ScalarConverted(c, code, src[s..s + m], after[d..d + n], toHost)
    ensures Moved(c, code, src, s, before, after, d, toHost)
  {
  }

  /** Converts a scalar. */
  method ConvertScalar(c: config, dst: array<byte>, d: nat, src: array<byte>, s: nat, code: int, toHost: bool)
    requires IsScalar(code) && dst != src
    requires d + ScalarSize(c, code, toHost) <= dst.Length && s + ScalarSize(c, code, !toHost) <= src.Length
    modifies dst
    ensures Moved(c, code, src[..], s, old(dst[..]), dst[..], d, toHost)
    ensures ScalarConverted(c, code, src[s..s + ScalarSize(c, code, !toHost)],
            dst[d..d + ScalarSize(c, code, toHost)], toHost)
    ensures UnchangedAround(old(dst[..]), dst[..], d, ScalarSize(c, code, toHost))
  {
    ghost var was := dst[..];
    CopyScalar(c, dst, d, src, s, code, toHost);
    ghost var m, n := ScalarSize(c, code, !toHost), ScalarSize(c, code, toHost);
    assert src[..][s..s + m] == src[s..s + m] && dst[..][d..d + n] == dst[d..d + n];
    ScalarMoved(c, code, src[..], s, m, was, dst[..], d, n, toHost);
  }

  method CopyScalar(c: config, dst: array<byte>, d: nat, src: array<byte>, s: nat, code: int, toHost: bool)
    requires IsScalar(code) && dst != src
    requires d + ScalarSize(c, code, toHost) <= dst.Length && s + ScalarSize(c, code, !toHost) <= src.Length
    modifies dst
    ensures ScalarConverted(c, code, src[s..s + ScalarSize(c, code, !toHost)],
            dst[d..d + ScalarSize(c, code, toHost)], toHost)
    ensures forall k :: 0 <= k < dst.Length && (k < d || d + ScalarSize(c, code, toHost) <= k) ==> dst[k] == old(dst[k])
  {
    if code == TYPE_CHAR {
      dst[d] := src[s];
      assert dst[d..d + 1] == src[s..s + 1];
      OneByte(src[s..s + 1]);
    } else if code == TYPE_SHORT {
      CopySwapped(c, dst, d, src, s, 2, code, toHost);
    } else if code == TYPE_INT {
      CopySwapped(c, dst, d, src, s, 4, code, toHost);
    } else if code == TYPE_LONGLONG || code == TYPE_ULONGLONG {
      CopySwapped(c, dst, d, src, s, 8, code, toHost);
    } else if c.hostLong == c.targetLong {
      CopySwapped(c, dst, d, src, s, c.hostLong, code, toHost);
    } else if toHost {
      ResizeToHost(c, dst, d, src, s, code);
    } else {
      ResizeToTarget(c, dst, d, src, s, code);
    }
  }
}
