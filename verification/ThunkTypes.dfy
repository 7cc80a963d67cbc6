/** Type descriptions and structure layouts of the system call thunks (thunk.h, thunk.c).

    A type is described by a sequence of integers.  The descriptions are related to trees, and the layout that
    registering a structure computes is characterised on the trees. */
module ThunkTypes {
  import opened Common
  import opened Words

  const TYPE_NULL := 0
  const TYPE_CHAR := 1
  const TYPE_SHORT := 2
  const TYPE_INT := 3
  const TYPE_LONG := 4
  const TYPE_ULONG := 5
  const TYPE_PTRVOID := 6
  const TYPE_LONGLONG := 7
  const TYPE_ULONGLONG := 8
  const TYPE_PTR := 9
  const TYPE_ARRAY := 10
  const TYPE_STRUCT := 11

  const MAX_STRUCTS := 128

  /** The sizes of "long" in the two binary interfaces and the byte orders. */
  datatype Config = Config(hostLong: nat, targetLong: nat, hostBig: bool, targetBig: bool) {
    predicate Valid() {
      (hostLong == 4 || hostLong == 8) && (targetLong == 4 || targetLong == 8)
    }

    function LongSize(host: bool): nat { if host then hostLong else targetLong }
    function Big(host: bool): bool { if host then hostBig else targetBig }
  }

  type config = c: Config | c.Valid() witness Config(4, 4, false, false)

  // ----- Trees and their descriptions -----

  /** A type; a structure is given with its fields. */
  datatype Ty = Scalar(code: int) | Ptr(to: Ty) | Arr(count: nat, elem: Ty) | Rec(id: nat, fields: seq<Ty>)

  predicate IsScalar(code: int) {
    TYPE_CHAR <= code <= TYPE_ULONGLONG
  }

  /** All scalars in the type have a scalar code. */
  predicate Sound(t: Ty) {
    match t
    case Scalar(code) => IsScalar(code)
    case Ptr(to) => Sound(to)
    case Arr(_, elem) => Sound(elem)
    case Rec(_, fields) => forall j :: 0 <= j < |fields| ==> Sound(fields[j])
  }

  function Encode(t: Ty): (r: seq<int>)
    ensures r != []
    ensures Sound(t) ==> r[0] != TYPE_NULL
  {
    match t
    case Scalar(code) => [code]
    case Ptr(to) => [TYPE_PTR] + Encode(to)
    case Arr(count, elem) => [TYPE_ARRAY, count] + Encode(elem)
    case Rec(id, _) => [TYPE_STRUCT, id]
  }

  /** The description of a type begins at a position. */
  predicate Describes(types: seq<int>, i: nat, t: Ty) {
    Sound(t) && i + |Encode(t)| <= |types| && types[i..i + |Encode(t)|] == Encode(t)
  }

  /** The descriptions of several types begin at a position, followed by the end mark. */
  predicate DescribesAll(types: seq<int>, i: nat, ts: seq<Ty>)
    decreases |ts|
  {
    if ts == [] then i < |types| && types[i] == TYPE_NULL
    else Describes(types, i, ts[0]) && DescribesAll(types, i + |Encode(ts[0])|, ts[1..])
  }

  /** The position after the description of a type; nothing if there is no type. */
  function Next(types: seq<int>, i: nat): Option<nat>
    decreases |types| - i
  {
    if i >= |types| then None
    else
      var code := types[i];
      if IsScalar(code) then Some(i + 1)
      else if code == TYPE_PTR then Next(types, i + 1)
      else if code == TYPE_ARRAY then (if i + 1 < |types| then Next(types, i + 2) else None)
      else if code == TYPE_STRUCT then (if i + 1 < |types| then Some(i + 2) else None)
      else None
  }

  lemma DescribesInner(types: seq<int>, i: nat, t: Ty)
    requires Describes(types, i, t)
    ensures i < |types| && types[i] == Encode(t)[0]
    ensures t.Ptr? ==> Describes(types, i + 1, t.to) && types[i] == TYPE_PTR
    ensures t.Arr? ==>
              && i + 1 < |types| && types[i] == TYPE_ARRAY && types[i + 1] == t.count
              && Describes(types, i + 2, t.elem)
    ensures t.Rec? ==> i + 1 < |types| && types[i] == TYPE_STRUCT && types[i + 1] == t.id
  {
    var e := Encode(t);
    assert types[i..i + |e|][0] == e[0];
    match t {
      case Scalar(_) =>
      case Ptr(to) =>
        assert types[i + 1..i + 1 + |Encode(to)|] == types[i..i + |e|][1..] == e[1..] == Encode(to);
      case Arr(count, elem) =>
        assert types[i..i + |e|][1] == e[1];
        assert types[i + 2..i + 2 + |Encode(elem)|] == types[i..i + |e|][2..] == e[2..] == Encode(elem);
      case Rec(id, _) =>
        assert types[i..i + |e|][1] == e[1];
    }
  }

  /** The next type begins where the description ends. */
  lemma {:induction false} NextIsEnd(types: seq<int>, i: nat, t: Ty)
    requires Describes(types, i, t)
    ensures Next(types, i) == Some(i + |Encode(t)|)
    decreases t
  {
    DescribesInner(types, i, t);
    match t {
      case Scalar(_) =>
      case Ptr(to) => NextIsEnd(types, i + 1, to);
      case Arr(_, elem) => NextIsEnd(types, i + 2, elem);
      case Rec(_, _) =>
    }
  }

  /** Conversely, whatever is skipped describes a type, if its array lengths and structure numbers are not
      negative. */
  lemma {:induction false} SkippedIsType(types: seq<int>, i: nat) returns (t: Ty)
    requires Next(types, i).Some? && forall k :: 0 <= k < |types| ==> types[k] >= 0
    ensures Describes(types, i, t) && Next(types, i) == Some(i + |Encode(t)|)
    decreases |types| - i
  {
    var code := types[i];
    if IsScalar(code) {
      t := Scalar(code);
    } else if code == TYPE_PTR {
      var to := SkippedIsType(types, i + 1);
      t := Ptr(to);
      Prefixed(types, i, [code], Encode(to));
    } else if code == TYPE_ARRAY {
      var elem := SkippedIsType(types, i + 2);
      t := Arr(types[i + 1], elem);
      Prefixed(types, i, [code, types[i + 1]], Encode(elem));
    } else {
      t := Rec(types[i + 1], []);
    }
    NextIsEnd(types, i, t);
  }

  lemma Prefixed(types: seq<int>, i: nat, a: seq<int>, b: seq<int>)
    requires i + |a| + |b| <= |types| && types[i..i + |a|] == a && types[i + |a|..i + |a| + |b|] == b
    ensures types[i..i + |a + b|] == a + b
  {
    assert types[i..i + |a + b|] == types[i..i + |a|] + types[i + |a|..i + |a| + |b|];
  }

  // ----- Sizes, alignments and offsets -----

  function ScalarSize(c: config, code: int, host: bool): (r: nat)
    requires IsScalar(code)
    ensures r == 1 || r == 2 || r == 4 || r == 8
  {
    if code == TYPE_CHAR then 1
    else if code == TYPE_SHORT then 2
    else if code == TYPE_INT then 4
    else if code == TYPE_LONGLONG || code == TYPE_ULONGLONG then 8
    else c.LongSize(host)
  }

  /** The size of n elements. */
  function Times(n: nat, size: nat): nat {
    if n == 0 then 0 else Times(n - 1, size) + size
  }

  lemma {:induction false} TimesIsProduct(n: nat, size: nat)
    ensures Times(n, size) == n * size
  {
    if n > 0 { TimesIsProduct(n - 1, size); }
  }

  /** Elements do not overlap. */
  lemma {:induction false} TimesGrows(j: nat, k: nat, size: nat)
    requires j < k
    ensures Times(j, size) + size == Times(j + 1, size) <= Times(k, size)
    decreases k
  {
    if j + 1 < k { TimesGrows(j, k - 1, size); }
  }

  type alignment = n: nat | n == 1 || n == 2 || n == 4 || n == 8 witness 1

  /** The offset is a multiple of the alignment. */
  predicate Aligned(offset: nat, align: alignment) {
    if align == 1 then true
    else if align == 2 then offset % 2 == 0
    else if align == 4 then offset % 4 == 0
    else offset % 8 == 0
  }

  function RoundUp2(x: nat): (r: nat)
    ensures x <= r < x + 2 && r % 2 == 0
  {
    (x + 1) / 2 * 2
  }

  function RoundUp4(x: nat): (r: nat)
    ensures x <= r < x + 4 && r % 4 == 0
  {
    (x + 3) / 4 * 4
  }

  function RoundUp8(x: nat): (r: nat)
    ensures x <= r < x + 8 && r % 8 == 0
  {
    (x + 7) / 8 * 8
  }

  /** The least multiple of an alignment that is not below an offset: (offset + align - 1) & ~(align - 1), since
      alignments are powers of two. */
  function AlignUp(offset: nat, align: alignment): (r: nat)
    ensures offset <= r < offset + align && Aligned(r, align)
  {
    if align == 1 then offset
    else if align == 2 then RoundUp2(offset)
    else if align == 4 then RoundUp4(offset)
    else RoundUp8(offset)
  }

  /** The end of the first n fields of a structure whose fields have these sizes and alignments. */
  function End(sizes: seq<nat>, aligns: seq<alignment>, n: nat): nat
    requires n <= |sizes| == |aligns|
  {
    if n == 0 then 0 else AlignUp(End(sizes, aligns, n - 1), aligns[n - 1]) + sizes[n - 1]
  }

  function Offset(sizes: seq<nat>, aligns: seq<alignment>, j: nat): nat
    requires j < |sizes| == |aligns|
  {
    AlignUp(End(sizes, aligns, j), aligns[j])
  }

  /** The greatest of the first n alignments. */
  function Greatest(aligns: seq<alignment>, n: nat): alignment
    requires n <= |aligns|
  {
    if n == 0 then 1 else if aligns[n - 1] > Greatest(aligns, n - 1) then aligns[n - 1] else Greatest(aligns, n - 1)
  }

  function RecSize(sizes: seq<nat>, aligns: seq<alignment>): nat
    requires |sizes| == |aligns|
  {
    AlignUp(End(sizes, aligns, |sizes|), Greatest(aligns, |aligns|))
  }

  function Align(c: config, t: Ty, host: bool): alignment
    requires Sound(t)
    decreases t, 1
  {
    match t
    case Scalar(code) => ScalarSize(c, code, host)
    case Ptr(_) => c.LongSize(host)
    case Arr(_, elem) => Align(c, elem, host)
    case Rec(_, fields) => Greatest(Aligns(c, t, host), |fields|)
  }

  /** The alignments of the fields of a structure. */
  function Aligns(c: config, t: Ty, host: bool): (r: seq<alignment>)
    requires t.Rec? && Sound(t)
    ensures |r| == |t.fields| && forall j :: 0 <= j < |r| ==> r[j] == Align(c, t.fields[j], host)
    decreases t, 0, |t.fields| + 1
  {
    FirstAligns(c, t, |t.fields|, host)
  }

  function FirstAligns(c: config, t: Ty, n: nat, host: bool): (r: seq<alignment>)
    requires t.Rec? && Sound(t) && n <= |t.fields|
    ensures |r| == n && forall j :: 0 <= j < n ==> r[j] == Align(c, t.fields[j], host)
    decreases t, 0, n
  {
    if n == 0 then [] else FirstAligns(c, t, n - 1, host) + [Align(c, t.fields[n - 1], host)]
  }

  function Size(c: config, t: Ty, host: bool): nat
    requires Sound(t)
    decreases t, 1
  {
    match t
    case Scalar(code) => ScalarSize(c, code, host)
    case Ptr(_) => c.LongSize(host)
    case Arr(count, elem) => Times(count, Size(c, elem, host))
    case Rec(_, _) => RecSize(Sizes(c, t, host), Aligns(c, t, host))
  }

  /** The sizes of the fields of a structure. */
  function Sizes(c: config, t: Ty, host: bool): (r: seq<nat>)
    requires t.Rec? && Sound(t)
    ensures |r| == |t.fields| && forall j :: 0 <= j < |r| ==> r[j] == Size(c, t.fields[j], host)
    decreases t, 0, |t.fields| + 1
  {
    FirstSizes(c, t, |t.fields|, host)
  }

  function FirstSizes(c: config, t: Ty, n: nat, host: bool): (r: seq<nat>)
    requires t.Rec? && Sound(t) && n <= |t.fields|
    ensures |r| == n && forall j :: 0 <= j < n ==> r[j] == Size(c, t.fields[j], host)
    decreases t, 0, n
  {
    if n == 0 then [] else FirstSizes(c, t, n - 1, host) + [Size(c, t.fields[n - 1], host)]
  }

  // ----- What the layout guarantees -----

  lemma Divides(a: alignment, b: alignment, x: nat)
    requires a <= b && Aligned(x, b)
    ensures Aligned(x, a)
  {
    if b == 4 {
      DivModUnique(x, 2, x / 4 * 2, 0);
    } else if b == 8 {
      DivModUnique(x, 2, x / 8 * 4, 0);
      DivModUnique(x, 4, x / 8 * 2, 0);
    }
  }

  lemma {:induction false} GreatestBounds(aligns: seq<alignment>, n: nat)
    requires n <= |aligns|
    ensures forall j :: 0 <= j < n ==> aligns[j] <= Greatest(aligns, n)
    ensures Greatest(aligns, n) == 1 || exists j :: 0 <= j < n && aligns[j] == Greatest(aligns, n)
  {
    if n > 0 { GreatestBounds(aligns, n - 1); }
  }

  /** Fields end before later fields begin. */
  lemma {:induction false} EndGrows(sizes: seq<nat>, aligns: seq<alignment>, j: nat, k: nat)
    requires j < k <= |sizes| == |aligns|
    ensures Offset(sizes, aligns, j) + sizes[j] == End(sizes, aligns, j + 1) <= End(sizes, aligns, k)
    decreases k
  {
    if j + 1 < k { EndGrows(sizes, aligns, j, k - 1); }
  }

  /** The layout of a structure: every field is aligned, fields neither overlap nor reach beyond the size, the
      size is a multiple of the greatest alignment, and nothing could lie further to the front. */
  ghost predicate GoodLayout(sizes: seq<nat>, aligns: seq<alignment>, offsets: seq<nat>, size: nat, align: alignment)
    requires |offsets| == |sizes| == |aligns|
  {
    && (forall j :: 0 <= j < |offsets| ==> Aligned(offsets[j], aligns[j]))
    && (forall j, k :: 0 <= j < k < |offsets| ==> offsets[j] + sizes[j] <= offsets[k])
    && (forall j :: 0 <= j < |offsets| ==> offsets[j] + sizes[j] <= size)
    && Aligned(size, align)
    && (forall j :: 0 <= j < |offsets| ==> aligns[j] <= align && Aligned(size, aligns[j]))
    && (align == 1 || exists j :: 0 <= j < |offsets| && aligns[j] == align)
    && (forall j :: 0 <= j < |offsets| ==> offsets[j] < Before(sizes, offsets, j) + aligns[j])
    && size < Before(sizes, offsets, |offsets|) + align
  }

  /** Where the field before field j ends. */
  function Before(sizes: seq<nat>, offsets: seq<nat>, j: nat): nat
    requires |offsets| == |sizes| && j <= |offsets|
  {
    if j == 0 then 0 else offsets[j - 1] + sizes[j - 1]
  }

  lemma LayoutIsGood(sizes: seq<nat>, aligns: seq<alignment>, offsets: seq<nat>)
    requires |offsets| == |sizes| == |aligns| && forall j :: 0 <= j < |offsets| ==>
             offsets[j] == Offset(sizes, aligns, j)
    ensures GoodLayout(sizes, aligns, offsets, RecSize(sizes, aligns), Greatest(aligns, |aligns|))
  {
    var n, size, align := |offsets|, RecSize(sizes, aligns), Greatest(aligns, |aligns|);
    GreatestBounds(aligns, n);
    forall j | 0 <= j < n ensures offsets[j] + sizes[j] <= size && Aligned(size, aligns[j]) {
      EndGrows(sizes, aligns, j, n);
      Divides(aligns[j], align, size);
    }
    forall j, k | 0 <= j < k < n ensures offsets[j] + sizes[j] <= offsets[k] {
      EndGrows(sizes, aligns, j, k);
    }
    forall j | 0 <= j <= n ensures Before(sizes, offsets, j) == End(sizes, aligns, j) {
    }
  }

  /** There is only one such layout. */
  lemma {:induction false} LayoutIsUnique(sizes: seq<nat>, aligns: seq<alignment>, offsets: seq<nat>, size: nat,
                                          align: alignment)
    requires |offsets| == |sizes| == |aligns| && GoodLayout(sizes, aligns, offsets, size, align)
    ensures forall j :: 0 <= j < |offsets| ==> offsets[j] == Offset(sizes, aligns, j)
    ensures size == RecSize(sizes, aligns) && align == Greatest(aligns, |aligns|)
  {
    var n := |offsets|;
    forall j | 0 <= j < n ensures Tight(sizes, aligns, offsets, j) {
    }
    forall j | 0 <= j < n ensures offsets[j] == Offset(sizes, aligns, j) {
      OffsetUnique(sizes, aligns, offsets, j);
    }
    GreatestBounds(aligns, n);
    assert Before(sizes, offsets, n) == End(sizes, aligns, n);
    assert n > 0 ==> offsets[n - 1] + sizes[n - 1] <= size;
    MultipleUnique(End(sizes, aligns, n), align, size);
  }

  /** Field j lies at the first aligned offset after the field before it. */
  predicate Tight(sizes: seq<nat>, aligns: seq<alignment>, offsets: seq<nat>, j: nat)
    requires j < |offsets| == |sizes| == |aligns|
  {
    var before := Before(sizes, offsets, j);
    before <= offsets[j] < before + aligns[j] && Aligned(offsets[j], aligns[j])
  }

  lemma {:induction false} OffsetUnique(sizes: seq<nat>, aligns: seq<alignment>, offsets: seq<nat>, j: nat)
    requires j < |offsets| == |sizes| == |aligns|
    requires forall j :: 0 <= j < |offsets| ==> Tight(sizes, aligns, offsets, j)
    ensures offsets[j] == Offset(sizes, aligns, j)
    decreases j
  {
    if j > 0 { OffsetUnique(sizes, aligns, offsets, j - 1); }
    assert Tight(sizes, aligns, offsets, j);
    MultipleUnique(Before(sizes, offsets, j), aligns[j], offsets[j]);
  }

  lemma MultipleUnique(offset: nat, align: alignment, x: nat)
    requires offset <= x < offset + align && Aligned(x, align)
    ensures x == AlignUp(offset, align)
  {
    if align == 2 {
      DivModUnique(offset + 1, 2, x / 2, offset + 1 - x);
    } else if align == 4 {
      DivModUnique(offset + 3, 4, x / 4, offset + 3 - x);
    } else if align == 8 {
      DivModUnique(offset + 7, 8, x / 8, offset + 7 - x);
    }
  }

  /** Sizes are multiples of alignments, so that the elements of an array stay aligned. */
  lemma {:induction false} SizeAligned(c: config, t: Ty, host: bool)
    requires Sound(t)
    ensures Aligned(Size(c, t, host), Align(c, t, host))
    decreases t
  {
    if t.Arr? {
      SizeAligned(c, t.elem, host);
      TimesAligned(t.count, Size(c, t.elem, host), Align(c, t.elem, host));
    }
  }

  lemma {:induction false} TimesAligned(n: nat, size: nat, align: alignment)
    requires Aligned(size, align)
    ensures Aligned(Times(n, size), align)
  {
    if n > 0 {
      TimesAligned(n - 1, size, align);
      SumAligned(Times(n - 1, size), size, align);
    }
  }

  lemma SumAligned(x: nat, y: nat, align: alignment)
    requires Aligned(x, align) && Aligned(y, align)
    ensures Aligned(x + y, align)
  {
    if align == 2 {
      DivModUnique(x + y, 2, x / 2 + y / 2, 0);
    } else if align == 4 {
      DivModUnique(x + y, 4, x / 4 + y / 4, 0);
    } else if align == 8 {
      DivModUnique(x + y, 8, x / 8 + y / 8, 0);
    }
  }
}
