/** Layouts of structures that system calls use (linux-user/syscall_types.h), in numbers. */
module ThunkLayouts {
  import opened ThunkTypes
  import opened ThunkRegistry

  /** The layout of the first n fields: their offsets, their end and their greatest alignment. */
  ghost predicate Laid(sizes: seq<nat>, aligns: seq<alignment>, offsets: seq<nat>, end: nat, align: alignment) {
    && |offsets| <= |sizes| == |aligns|
    && (forall j :: 0 <= j < |offsets| ==> offsets[j] == Offset(sizes, aligns, j))
    && end == End(sizes, aligns, |offsets|) && align == Greatest(aligns, |offsets|)
  }

  /** One more field, at the next multiple of its alignment. */
  lemma Lay(sizes: seq<nat>, aligns: seq<alignment>, offsets: seq<nat>, end: nat, align: alignment, n: nat, at: nat)
    requires Laid(sizes, aligns, offsets, end, align) && n == |offsets| < |sizes|
    requires end <= at < end + aligns[n] && Aligned(at, aligns[n])
    ensures Laid(sizes, aligns, offsets + [at], at + sizes[n], if aligns[n] > align then aligns[n] else align)
  {
    MultipleUnique(end, aligns[n], at);
  }

  /** When all fields are laid, that is the side of the structure. */
  lemma SideIs(c: config, t: Ty, side: Side, host: bool, sizes: seq<nat>, aligns: seq<alignment>, offsets: seq<nat>,
               end: nat, align: alignment, size: nat)
    requires t.Rec? && Sound(t) && GoodSide(c, t, side, host) && |offsets| == |t.fields|
    requires Measure(c, t.fields, host, sizes, aligns) && Laid(sizes, aligns, offsets, end, align)
    requires end <= size < end + align && Aligned(size, align)
    ensures side == Side(offsets, size, align)
  {
    assert sizes == Sizes(c, t, host) && aligns == Aligns(c, t, host);
    LayoutIsUnique(sizes, aligns, side.offsets, side.size, side.align);
    MultipleUnique(end, align, size);
    assert side.offsets == offsets;
  }

  /** These are the sizes and alignments of fields. */
  ghost predicate Measure(c: config, fields: seq<Ty>, host: bool, sizes: seq<nat>, aligns: seq<alignment>) {
    && |fields| == |sizes| == |aligns|
    && forall j :: 0 <= j < |fields| ==>
         Sound(fields[j]) && Size(c, fields[j], host) == sizes[j] && Align(c, fields[j], host) == aligns[j]
  }

  function Scalars(codes: seq<int>): (ts: seq<Ty>)
    ensures |ts| == |codes| && forall j :: 0 <= j < |codes| ==> ts[j] == Scalar(codes[j])
  {
    seq(|codes|, j requires 0 <= j < |codes| => Scalar(codes[j]))
  }

  lemma {:induction false} ScalarsDescribed(codes: seq<int>, i: nat)
    requires i <= |codes| && forall j :: 0 <= j < |codes| ==> IsScalar(codes[j])
    ensures DescribesAll(codes + [0], i, Scalars(codes)[i..])
    decreases |codes| - i
  {
    var types, ts := codes + [0], Scalars(codes)[i..];
    if i < |codes| {
      ScalarsDescribed(codes, i + 1);
      assert ts[0] == Scalar(codes[i]) && ts[1..] == Scalars(codes)[i + 1..];
      assert types[i..i + 1] == [codes[i]];
    }
  }

  /** The sizes and alignments of scalars: the numbers of the types are 1 char, 2 short, 3 int, 4 long, 5 unsigned
      long, 6 pointer, 7 and 8 long long. */
  lemma ScalarSizes(c: config, host: bool)
    ensures Size(c, Scalar(1), host) == Align(c, Scalar(1), host) == 1
    ensures Size(c, Scalar(2), host) == Align(c, Scalar(2), host) == 2
    ensures Size(c, Scalar(3), host) == Align(c, Scalar(3), host) == 4
    ensures forall code :: 4 <= code <= 6 ==>
              Size(c, Scalar(code), host) == Align(c, Scalar(code), host) == if host then c.hostLong else c.targetLong
    ensures Size(c, Scalar(7), host) == Align(c, Scalar(7), host) == 8
    ensures Size(c, Scalar(8), host) == Align(c, Scalar(8), host) == 8
  {
  }

  /** A pointer is as large as a long; an array is as large as its elements, and aligned like one. */
  lemma CompoundSizes(c: config, to: Ty, count: nat, elem: Ty, host: bool)
    requires Sound(to) && Sound(elem)
    ensures Size(c, Ptr(to), host) == Align(c, Ptr(to), host) == if host then c.hostLong else c.targetLong
    ensures Size(c, Arr(count, elem), host) == count * Size(c, elem, host)
    ensures Align(c, Arr(count, elem), host) == Align(c, elem, host)
  {
    TimesIsProduct(count, Size(c, elem, host));
  }

  /** A pointer to an int is described by the numbers 9 and 3. */
  lemma PointerDescribed(types: seq<int>)
    requires types == [9, 3, 0]
    ensures DescribesAll(types, 0, [Ptr(Scalar(3))])
  {
    var ts := [Ptr(Scalar(3))];
    assert Encode(ts[0]) == [9] + [3] == types[0..2];
    assert ts[1..] == [];
  }

  /** The two layouts of a structure of scalars. */
  ghost predicate ScalarSides(c: config, id: nat, codes: seq<int>, entry: Entry) {
    && (forall j :: 0 <= j < |codes| ==> IsScalar(codes[j]))
    && GoodSide(c, Rec(id, Scalars(codes)), entry.target, false)
    && GoodSide(c, Rec(id, Scalars(codes)), entry.host, true)
  }

  /** Registers a structure of scalars. */
  method RegisterScalars(reg: Registry, id: nat, codes: seq<int>)
    requires reg.Valid() && id < MAX_STRUCTS && id !in reg.entries
    requires forall j :: 0 <= j < |codes| ==> IsScalar(codes[j])
    modifies reg
    ensures reg.Valid() && id in reg.entries && reg.entries[id].types == codes + [0]
    ensures ScalarSides(reg.c, id, codes, reg.entries[id])
  {
    ghost var fields := Scalars(codes);
    ScalarsDescribed(codes, 0);
    assert fields[0..] == fields;
    reg.RegisterStruct(id, codes + [0], fields);
  }

  // ----- winsize: four shorts -----

  method Winsize(reg: Registry, id: nat)
    requires reg.Valid() && id < MAX_STRUCTS && id !in reg.entries
    modifies reg
    ensures reg.Valid() && id in reg.entries && reg.entries[id].types == [2, 2, 2, 2, 0]
    ensures reg.entries[id].target == reg.entries[id].host == Side([0, 2, 4, 6], 8, 2)
  {
    var codes := [2, 2, 2, 2];
    RegisterScalars(reg, id, codes);
    WinsizeSides(reg.c, id, codes, reg.entries[id]);
  }

  lemma WinsizeSides(c: config, id: nat, codes: seq<int>, entry: Entry)
    requires codes == [2, 2, 2, 2] && ScalarSides(c, id, codes, entry)
    ensures entry.target == entry.host == Side([0, 2, 4, 6], 8, 2)
  {
    WinsizeSide(c, Rec(id, Scalars(codes)), codes, entry.target, false, [2, 2, 2, 2], [2, 2, 2, 2]);
    WinsizeSide(c, Rec(id, Scalars(codes)), codes, entry.host, true, [2, 2, 2, 2], [2, 2, 2, 2]);
  }

  lemma WinsizeMeasure(c: config, codes: seq<int>, host: bool, s: seq<nat>, a: seq<alignment>)
    requires codes == [2, 2, 2, 2] && s == a == [2, 2, 2, 2]
    ensures Measure(c, Scalars(codes), host, s, a)
  {
    ScalarSizes(c, host);
  }

  lemma WinsizeLaid(s: seq<nat>, a: seq<alignment>)
    requires s == a == [2, 2, 2, 2]
    ensures Laid(s, a, [0, 2, 4, 6], 8, 2)
  {
    Lay(s, a, [], 0, 1, 0, 0);
    Lay(s, a, [0], 2, 2, 1, 2);
    Lay(s, a, [0, 2], 4, 2, 2, 4);
    Lay(s, a, [0, 2, 4], 6, 2, 3, 6);
  }

  lemma WinsizeSide(c: config, t: Ty, codes: seq<int>, side: Side, host: bool, s: seq<nat>, a: seq<alignment>)
    requires codes == [2, 2, 2, 2] && s == a == [2, 2, 2, 2]
    requires t.Rec? && t.fields == Scalars(codes) && Sound(t) && GoodSide(c, t, side, host)
    ensures side == Side([0, 2, 4, 6], 8, 2)
  {
    WinsizeMeasure(c, codes, host, s, a);
    WinsizeLaid(s, a);
    SideIs(c, t, side, host, s, a, [0, 2, 4, 6], 8, 2, 8);
  }

  // ----- A char, an int, a short and a long long -----

  method Mixed(reg: Registry, id: nat)
    requires reg.Valid() && id < MAX_STRUCTS && id !in reg.entries
    modifies reg
    ensures reg.Valid() && id in reg.entries && reg.entries[id].types == [1, 3, 2, 7, 0]
    ensures reg.entries[id].target == reg.entries[id].host == Side([0, 4, 8, 16], 24, 8)
  {
    var codes := [1, 3, 2, 7];
    RegisterScalars(reg, id, codes);
    MixedSides(reg.c, id, codes, reg.entries[id]);
  }

  lemma MixedSides(c: config, id: nat, codes: seq<int>, entry: Entry)
    requires codes == [1, 3, 2, 7] && ScalarSides(c, id, codes, entry)
    ensures entry.target == entry.host == Side([0, 4, 8, 16], 24, 8)
  {
    MixedSide(c, Rec(id, Scalars(codes)), codes, entry.target, false, [1, 4, 2, 8], [1, 4, 2, 8]);
    MixedSide(c, Rec(id, Scalars(codes)), codes, entry.host, true, [1, 4, 2, 8], [1, 4, 2, 8]);
  }

  lemma MixedMeasure(c: config, codes: seq<int>, host: bool, s: seq<nat>, a: seq<alignment>)
    requires codes == [1, 3, 2, 7] && s == a == [1, 4, 2, 8]
    ensures Measure(c, Scalars(codes), host, s, a)
  {
    ScalarSizes(c, host);
  }

  lemma MixedLaid(s: seq<nat>, a: seq<alignment>)
    requires s == a == [1, 4, 2, 8]
    ensures Laid(s, a, [0, 4, 8, 16], 24, 8)
  {
    Lay(s, a, [], 0, 1, 0, 0);
    Lay(s, a, [0], 1, 1, 1, 4);
    Lay(s, a, [0, 4], 8, 4, 2, 8);
    Lay(s, a, [0, 4, 8], 10, 4, 3, 16);
  }

  lemma MixedSide(c: config, t: Ty, codes: seq<int>, side: Side, host: bool, s: seq<nat>, a: seq<alignment>)
    requires codes == [1, 3, 2, 7] && s == a == [1, 4, 2, 8]
    requires t.Rec? && t.fields == Scalars(codes) && Sound(t) && GoodSide(c, t, side, host)
    ensures side == Side([0, 4, 8, 16], 24, 8)
  {
    MixedMeasure(c, codes, host, s, a);
    MixedLaid(s, a);
    SideIs(c, t, side, host, s, a, [0, 4, 8, 16], 24, 8, 24);
  }

  // ----- ifconf: an int and a pointer -----

  method Ifconf(reg: Registry, id: nat)
    requires reg.Valid() && id < MAX_STRUCTS && id !in reg.entries
    modifies reg
    ensures reg.Valid() && id in reg.entries && reg.entries[id].types == [3, 6, 0]
    ensures reg.entries[id].target == Side([0, reg.c.targetLong], 2 * reg.c.targetLong, reg.c.targetLong)
    ensures reg.entries[id].host == Side([0, reg.c.hostLong], 2 * reg.c.hostLong, reg.c.hostLong)
  {
    var codes := [3, 6];
    RegisterScalars(reg, id, codes);
    IfconfSides(reg.c, id, codes, reg.entries[id]);
  }

  lemma IfconfSides(c: config, id: nat, codes: seq<int>, entry: Entry)
    requires codes == [3, 6] && ScalarSides(c, id, codes, entry)
    ensures entry.target == Side([0, c.targetLong], 2 * c.targetLong, c.targetLong)
    ensures entry.host == Side([0, c.hostLong], 2 * c.hostLong, c.hostLong)
  {
    var l, m := c.targetLong, c.hostLong;
    IfconfSide(c, Rec(id, Scalars(codes)), codes, entry.target, false, [4, l], [4, l], l, 2 * l);
    IfconfSide(c, Rec(id, Scalars(codes)), codes, entry.host, true, [4, m], [4, m], m, 2 * m);
  }

  lemma IfconfMeasure(c: config, codes: seq<int>, host: bool, s: seq<nat>, a: seq<alignment>, long: nat)
    requires long == (if host then c.hostLong else c.targetLong) && codes == [3, 6] && s == a == [4, long]
    ensures Measure(c, Scalars(codes), host, s, a)
  {
    ScalarSizes(c, host);
  }

  lemma IfconfLaid(s: seq<nat>, a: seq<alignment>, long: nat)
    requires (long == 4 || long == 8) && s == a == [4, long]
    ensures Laid(s, a, [0, long], 2 * long, long)
  {
    Lay(s, a, [], 0, 1, 0, 0);
    Lay(s, a, [0], 4, 4, 1, long);
  }

  lemma IfconfSide(c: config, t: Ty, codes: seq<int>, side: Side, host: bool, s: seq<nat>, a: seq<alignment>,
                   long: nat, size: nat)
    requires long == (if host then c.hostLong else c.targetLong) && s == a == [4, long] && size == 2 * long
    requires codes == [3, 6] && t.Rec? && t.fields == Scalars(codes) && Sound(t) && GoodSide(c, t, side, host)
    ensures side == Side([0, long], size, long)
  {
    IfconfMeasure(c, codes, host, s, a, long);
    IfconfLaid(s, a, long);
    SideIs(c, t, side, host, s, a, [0, long], size, long, size);
  }

  // ----- sockaddr: a short and 14 characters; sockaddr_ifreq: 16 characters and a sockaddr -----

  ghost function Sockaddr(): seq<Ty> {
    [Scalar(2), Arr(14, Scalar(1))]
  }

  lemma SockaddrDescribed(types: seq<int>)
    requires types == [2, 10, 14, 1, 0]
    ensures DescribesAll(types, 0, Sockaddr())
  {
    var ts := Sockaddr();
    assert types[0..1] == Encode(ts[0]) == [2];
    assert Encode(ts[1]) == [10, 14] + [1] == types[1..4];
    assert ts[1..] == [ts[1]] && ts[1..][1..] == [];
  }

  lemma SockaddrLaid(s: seq<nat>, a: seq<alignment>)
    requires s == [2, 14] && a == [2, 1]
    ensures Laid(s, a, [0, 2], 16, 2)
  {
    Lay(s, a, [], 0, 1, 0, 0);
    Lay(s, a, [0], 2, 2, 1, 2);
  }

  lemma SockaddrSide(c: config, t: Ty, side: Side, host: bool, s: seq<nat>, a: seq<alignment>)
    requires s == [2, 14] && a == [2, 1]
    requires t.Rec? && t.fields == Sockaddr() && Sound(t) && GoodSide(c, t, side, host)
    ensures side == Side([0, 2], 16, 2)
  {
    assert Measure(c, t.fields, host, s, a) by {
      ScalarSizes(c, host);
      CompoundSizes(c, Scalar(1), 14, Scalar(1), host);
    }
    SockaddrLaid(s, a);
    SideIs(c, t, side, host, s, a, [0, 2], 16, 2, 16);
  }

  ghost function SockaddrIfreq(id: nat): seq<Ty> {
    [Arr(16, Scalar(1)), Rec(id, Sockaddr())]
  }

  lemma IfreqDescribed(types: seq<int>, id: nat)
    requires types == [10, 16, 1, 11, id, 0]
    ensures DescribesAll(types, 0, SockaddrIfreq(id))
  {
    var ts := SockaddrIfreq(id);
    assert Sound(ts[1]) && |types| == 6;
    assert Encode(ts[0]) == [10, 16] + [1] == types[0..3];
    assert types[3..5] == Encode(ts[1]) == [11, id];
    assert ts[1..] == [ts[1]] && ts[1..][1..] == [];
  }

  lemma IfreqLaid(s: seq<nat>, a: seq<alignment>)
    requires s == [16, 16] && a == [1, 2]
    ensures Laid(s, a, [0, 16], 32, 2)
  {
    Lay(s, a, [], 0, 1, 0, 0);
    Lay(s, a, [0], 16, 1, 1, 16);
  }

  lemma IfreqSide(c: config, t: Ty, side: Side, host: bool, id: nat, s: seq<nat>, a: seq<alignment>)
    requires s == [16, 16] && a == [1, 2]
    requires t.Rec? && t.fields == SockaddrIfreq(id) && Sound(t) && GoodSide(c, t, side, host)
    requires Size(c, Rec(id, Sockaddr()), host) == 16 && Align(c, Rec(id, Sockaddr()), host) == 2
    ensures side == Side([0, 16], 32, 2)
  {
    assert Measure(c, t.fields, host, s, a) by {
      ScalarSizes(c, host);
      CompoundSizes(c, Scalar(1), 16, Scalar(1), host);
    }
    IfreqLaid(s, a);
    SideIs(c, t, side, host, s, a, [0, 16], 32, 2, 32);
  }

  method RegisterSockaddr(reg: Registry, id: nat)
    requires reg.Valid() && id < MAX_STRUCTS && id !in reg.entries
    modifies reg
    ensures reg.Valid() && id in reg.entries && reg.shapes == old(reg.shapes)[id := Sockaddr()]
    ensures reg.entries == old(reg.entries)[id := reg.entries[id]] && reg.entries[id].types == [2, 10, 14, 1, 0]
    ensures reg.entries[id].target == reg.entries[id].host == Side([0, 2], 16, 2)
  {
    SockaddrDescribed([2, 10, 14, 1, 0]);
    reg.RegisterStruct(id, [2, 10, 14, 1, 0], Sockaddr());
    SockaddrSide(reg.c, Rec(id, Sockaddr()), reg.entries[id].target, false, [2, 14], [2, 1]);
    SockaddrSide(reg.c, Rec(id, Sockaddr()), reg.entries[id].host, true, [2, 14], [2, 1]);
  }

  /** The size and the alignment of the structure within come from its entry. */
  lemma InnerMeasure(c: config, shapes: map<int, seq<Ty>>, id: nat, entry: Entry)
    requires id in shapes && shapes[id] == Sockaddr() && EntryOk(c, shapes, id, entry)
    requires entry.target == entry.host == Side([0, 2], 16, 2)
    ensures Size(c, Rec(id, Sockaddr()), false) == Size(c, Rec(id, Sockaddr()), true) == 16
    ensures Align(c, Rec(id, Sockaddr()), false) == Align(c, Rec(id, Sockaddr()), true) == 2
    ensures AllKnown(shapes, SockaddrIfreq(id))
  {
  }

  method RegisterIfreq(reg: Registry, id: nat, outer: nat)
    requires reg.Valid() && id in reg.shapes && reg.shapes[id] == Sockaddr()
    requires id in reg.entries && reg.entries[id].target == reg.entries[id].host == Side([0, 2], 16, 2)
    requires outer < MAX_STRUCTS && outer !in reg.entries
    modifies reg
    ensures reg.Valid() && outer in reg.entries && reg.entries == old(reg.entries)[outer := reg.entries[outer]]
    ensures reg.entries[outer].types == [10, 16, 1, 11, id, 0]
    ensures reg.entries[outer].target == reg.entries[outer].host == Side([0, 16], 32, 2)
  {
    ghost var t := Rec(outer, SockaddrIfreq(id));
    IfreqDescribed([10, 16, 1, 11, id, 0], id);
    InnerMeasure(reg.c, reg.shapes, id, reg.entries[id]);
    reg.RegisterStruct(outer, [10, 16, 1, 11, id, 0], SockaddrIfreq(id));
    IfreqSide(reg.c, t, reg.entries[outer].target, false, id, [16, 16], [1, 2]);
    IfreqSide(reg.c, t, reg.entries[outer].host, true, id, [16, 16], [1, 2]);
  }

  /** A structure within a structure. */
  method Nested(reg: Registry, id: nat, outer: nat)
    requires reg.Valid() && id < MAX_STRUCTS && outer < MAX_STRUCTS && id != outer
    requires id !in reg.entries && outer !in reg.entries
    modifies reg
    ensures reg.Valid() && id in reg.entries && outer in reg.entries
    ensures reg.entries[id].types == [2, 10, 14, 1, 0] && reg.entries[outer].types == [10, 16, 1, 11, id, 0]
    ensures reg.entries[id].target == reg.entries[id].host == Side([0, 2], 16, 2)
    ensures reg.entries[outer].target == reg.entries[outer].host == Side([0, 16], 32, 2)
  {
    RegisterSockaddr(reg, id);
    RegisterIfreq(reg, id, outer);
  }
}
