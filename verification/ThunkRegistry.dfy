/** Registering structures (thunk_register_struct in thunk.c, thunk_type_size and thunk_type_align in thunk.h). */
module ThunkRegistry {
  import opened Common
  import opened ThunkTypes

  /** The layout of a structure in one binary interface. */
  datatype Side = Side(offsets: seq<nat>, size: nat, align: alignment)

  datatype Entry = Entry(types: seq<int>, nbFields: nat, target: Side, host: Side) {
    function Of(toHost: bool): Side { if toHost then host else target }
  }

  /** The computed layout of a structure. */
  ghost predicate SideOk(c: config, t: Ty, side: Side, host: bool)
    requires t.Rec? && Sound(t)
  {
    var sizes, aligns := Sizes(c, t, host), Aligns(c, t, host);
    && |side.offsets| == |sizes|
    && (forall j :: 0 <= j < |sizes| ==> side.offsets[j] == Offset(sizes, aligns, j))
    && side.size == Size(c, t, host) && side.align == Align(c, t, host)
  }

  ghost predicate GoodSide(c: config, t: Ty, side: Side, host: bool)
    requires t.Rec? && Sound(t)
  {
    && |side.offsets| == |t.fields|
    && GoodLayout(Sizes(c, t, host), Aligns(c, t, host), side.offsets, side.size, side.align)
  }

  lemma SideIsGood(c: config, t: Ty, side: Side, host: bool)
    requires t.Rec? && Sound(t) && SideOk(c, t, side, host)
    ensures GoodSide(c, t, side, host)
  {
    LayoutIsGood(Sizes(c, t, host), Aligns(c, t, host), side.offsets);
  }

  /** The structures that occur directly in a type have these fields. */
  predicate KnownIn(shapes: map<int, seq<Ty>>, t: Ty) {
    match t
    case Scalar(_) => true
    case Ptr(_) => true
    case Arr(_, elem) => KnownIn(shapes, elem)
    case Rec(id, fields) => id in shapes && shapes[id] == fields
  }

  /** The entry describes the structure and lays it out, and the structures in its fields are known. */
  ghost predicate EntryOk(c: config, shapes: map<int, seq<Ty>>, id: int, entry: Entry)
    requires id in shapes
  {
    && id >= 0 && AllKnown(shapes, shapes[id])
    && DescribesAll(entry.types, 0, shapes[id]) && entry.nbFields == |shapes[id]|
    && SideOk(c, Rec(id, shapes[id]), entry.target, false) && SideOk(c, Rec(id, shapes[id]), entry.host, true)
  }

  ghost predicate AllKnown(shapes: map<int, seq<Ty>>, ts: seq<Ty>) {
    forall j :: 0 <= j < |ts| ==> Sound(ts[j]) && KnownIn(shapes, ts[j])
  }

  /** Registering another structure changes nothing for those registered before. */
  lemma StillOk(c: config, shapes: map<int, seq<Ty>>, id: int, entry: Entry, other: int, fields: seq<Ty>)
    requires id in shapes && EntryOk(c, shapes, id, entry) && other !in shapes
    ensures EntryOk(c, shapes[other := fields], id, entry)
  {
    StillAllKnown(shapes, shapes[id], other, fields);
  }

  lemma StillAllKnown(shapes: map<int, seq<Ty>>, ts: seq<Ty>, other: int, fields: seq<Ty>)
    requires AllKnown(shapes, ts) && other !in shapes
    ensures AllKnown(shapes[other := fields], ts)
  {
    forall j | 0 <= j < |ts| ensures KnownIn(shapes[other := fields], ts[j]) {
      StillKnown(shapes, ts[j], other, fields);
    }
  }

  lemma {:induction false} StillKnown(shapes: map<int, seq<Ty>>, t: Ty, other: int, fields: seq<Ty>)
    requires KnownIn(shapes, t) && other !in shapes
    ensures KnownIn(shapes[other := fields], t)
    decreases t
  {
    if t.Arr? { StillKnown(shapes, t.elem, other, fields); }
  }

  class Registry {
    const c: config
    var entries: map<int, Entry>
    ghost var shapes: map<int, seq<Ty>>

    /** The structures that occur in the type have been registered with these fields. */
    ghost predicate Known(t: Ty)
      reads this
    {
      KnownIn(shapes, t)
    }

    ghost predicate Valid()
      reads this
    {
      && entries.Keys == shapes.Keys
      && (forall id :: id in entries ==> id in shapes && EntryOk(c, shapes, id, entries[id]))
    }

    constructor (c: config)
      ensures Valid() && this.c == c && entries == map[]
    {
      this.c, entries, shapes := c, map[], map[];
    }

    /** The size of the described type; structures not registered yet have size 0. */
    function TypeSize(types: seq<int>, i: nat, host: bool): int
      reads this
      decreases |types| - i
    {
      if i >= |types| then -1
      else
        var code := types[i];
        if IsScalar(code) then ScalarSize(c, code, host)
        else if code == TYPE_PTR then c.LongSize(host)
        else if code == TYPE_ARRAY then (if i + 1 < |types| then types[i + 1] * TypeSize(types, i + 2, host) else -1)
        else if code == TYPE_STRUCT && i + 1 < |types| then
          if types[i + 1] in entries then entries[types[i + 1]].Of(host).size else 0
        else -1
    }

    function TypeAlign(types: seq<int>, i: nat, host: bool): int
      reads this
      decreases |types| - i
    {
      if i >= |types| then -1
      else
        var code := types[i];
        if IsScalar(code) then ScalarSize(c, code, host)
        else if code == TYPE_PTR then c.LongSize(host)
        else if code == TYPE_ARRAY then TypeAlign(types, i + 2, host)
        else if code == TYPE_STRUCT && i + 1 < |types| then
          if types[i + 1] in entries then entries[types[i + 1]].Of(host).align else 0
        else -1
    }

    lemma {:induction false} TypeSizeIsSize(types: seq<int>, i: nat, t: Ty, host: bool)
      requires Valid() && Describes(types, i, t) && Known(t)
      ensures TypeSize(types, i, host) == Size(c, t, host) && TypeAlign(types, i, host) == Align(c, t, host)
      decreases t
    {
      DescribesInner(types, i, t);
      match t {
        case Scalar(_) =>
        case Ptr(_) =>
        case Arr(count, elem) =>
          TypeSizeIsSize(types, i + 2, elem, host);
          TimesIsProduct(count, Size(c, elem, host));
        case Rec(id, _) =>
          assert EntryOk(c, shapes, id, entries[id]);
      }
    }

    /** What the table of structures holds at first: 0 for both. */
    lemma NotRegistered(types: seq<int>, id: nat, host: bool)
      requires types == [TYPE_STRUCT, id] && id !in entries
      ensures TypeSize(types, 0, host) == TypeAlign(types, 0, host) == 0
    {
    }

    /** Counts the types up to the end mark. */
    method CountFields(types: seq<int>, ghost fields: seq<Ty>) returns (n: nat)
      requires DescribesAll(types, 0, fields)
      ensures n == |fields|
    {
      var i := 0;
      n := 0;
      while types[i] != TYPE_NULL
        invariant n <= |fields| && 0 <= i < |types| && DescribesAll(types, i, fields[n..])
        decreases |fields| - n
      {
        FirstField(types, i, fields[n..]);
        i := Next(types, i).value;
        n := n + 1;
      }
      FirstField(types, i, fields[n..]);
    }

    /** Places one field after the end of the previous one. */
    method PlaceField(types: seq<int>, i: nat, offset: nat, maxAlign: alignment, host: bool, ghost ts: seq<Ty>)
      returns (at: nat, end: nat, greatest: alignment, next: nat)
      requires Valid() && ts != [] && DescribesAll(types, i, ts) && Known(ts[0])
      ensures at == AlignUp(offset, Align(c, ts[0], host)) && end == at + Size(c, ts[0], host)
      ensures greatest == if Align(c, ts[0], host) > maxAlign then Align(c, ts[0], host) else maxAlign
      ensures DescribesAll(types, next, ts[1..])
    {
      FirstField(types, i, ts);
      TypeSizeIsSize(types, i, ts[0], host);
      var size, align := TypeSize(types, i, host), TypeAlign(types, i, host);
      at := AlignUp(offset, align);
      end := at + size;
      greatest := if align > maxAlign then align else maxAlign;
      next := Next(types, i).value;
    }

    /** Lays the fields out for one binary interface. */
    method ComputeSide(types: seq<int>, n: nat, host: bool, ghost t: Ty) returns (side: Side)
      requires Valid() && t.Rec? && Sound(t) && n == |t.fields| && DescribesAll(types, 0, t.fields)
      requires AllKnown(shapes, t.fields)
      ensures SideOk(c, t, side, host)
    {
      side := PlaceFields(types, n, host, t.fields, Sizes(c, t, host), Aligns(c, t, host));
    }

    /** Places field j. */
    method PlaceNext(types: seq<int>, i: nat, offset: nat, maxAlign: alignment, host: bool, ghost ts: seq<Ty>,
                     ghost sizes: seq<nat>, ghost aligns: seq<alignment>, ghost j: nat)
      returns (at: nat, end: nat, greatest: alignment, next: nat)
      requires Valid() && ts != [] && DescribesAll(types, i, ts) && Known(ts[0]) && j < |sizes| == |aligns|
      requires sizes[j] == Size(c, ts[0], host) && aligns[j] == Align(c, ts[0], host)
      requires offset == End(sizes, aligns, j) && maxAlign == Greatest(aligns, j)
      ensures at == Offset(sizes, aligns, j) && end == End(sizes, aligns, j + 1) && greatest == Greatest(aligns, j + 1)
      ensures DescribesAll(types, next, ts[1..])
    {
      at, end, greatest, next := PlaceField(types, i, offset, maxAlign, host, ts);
    }

    /** These are the sizes and the alignments of the fields. */
    ghost predicate Measured(ts: seq<Ty>, sizes: seq<nat>, aligns: seq<alignment>, host: bool)
      reads this
    {
      && |ts| == |sizes| == |aligns| && AllKnown(shapes, ts)
      && forall j :: 0 <= j < |ts| ==>
           Sound(ts[j]) && sizes[j] == Size(c, ts[j], host) && aligns[j] == Align(c, ts[j], host)
    }

    /** The same, with the offset added to those of the fields before. */
    method PlaceStep(types: seq<int>, i: nat, offsets: seq<nat>, offset: nat, maxAlign: alignment, host: bool,
                     ghost ts: seq<Ty>, ghost sizes: seq<nat>, ghost aligns: seq<alignment>, ghost j: nat)
      returns (more: seq<nat>, end: nat, greatest: alignment, next: nat)
      requires Valid() && Measured(ts, sizes, aligns, host) && j < |ts| && DescribesAll(types, i, ts[j..])
      requires offset == End(sizes, aligns, j) && maxAlign == Greatest(aligns, j)
      requires |offsets| == j && OffsetsAre(offsets, sizes, aligns)
      ensures |more| == j + 1 && OffsetsAre(more, sizes, aligns)
      ensures end == End(sizes, aligns, j + 1) && greatest == Greatest(aligns, j + 1)
      ensures DescribesAll(types, next, ts[j + 1..])
    {
      var at;
      assert ts[j..][1..] == ts[j + 1..];
      at, end, greatest, next := PlaceNext(types, i, offset, maxAlign, host, ts[j..], sizes, aligns, j);
      OffsetAdded(offsets, at, sizes, aligns);
      more := offsets + [at];
    }

    method PlaceFields(types: seq<int>, n: nat, host: bool, ghost ts: seq<Ty>, ghost sizes: seq<nat>,
                       ghost aligns: seq<alignment>)
      returns (side: Side)
      requires Valid() && n == |ts| && DescribesAll(types, 0, ts) && Measured(ts, sizes, aligns, host)
      ensures |side.offsets| == n && OffsetsAre(side.offsets, sizes, aligns)
      ensures side.size == RecSize(sizes, aligns) && side.align == Greatest(aligns, n)
    {
      var offset, maxAlign: alignment, offsets: seq<nat>, i, j := 0, 1, [], 0, 0;
      assert ts[0..] == ts;
      while j < n
        invariant 0 <= j <= n && 0 <= i && DescribesAll(types, i, ts[j..])
        invariant |offsets| == j && OffsetsAre(offsets, sizes, aligns)
        invariant offset == End(sizes, aligns, j) && maxAlign == Greatest(aligns, j)
      {
        offsets, offset, maxAlign, i := PlaceStep(types, i, offsets, offset, maxAlign, host, ts, sizes, aligns, j);
        j := j + 1;
      }
      side := CloseSide(offsets, offset, maxAlign, sizes, aligns);
    }

    /** The size is the end of the last field, rounded up to the greatest alignment. */
    method CloseSide(offsets: seq<nat>, offset: nat, maxAlign: alignment, ghost sizes: seq<nat>,
                     ghost aligns: seq<alignment>)
      returns (side: Side)
      requires |sizes| == |aligns| && offset == End(sizes, aligns, |sizes|) && maxAlign == Greatest(aligns, |aligns|)
      ensures side == Side(offsets, RecSize(sizes, aligns), Greatest(aligns, |aligns|))
    {
      side := Side(offsets, AlignUp(offset, maxAlign), maxAlign);
    }

    /** Registers a structure whose fields contain only structures registered before: both layouts are good ones. */
    method RegisterStruct(id: nat, types: seq<int>, ghost fields: seq<Ty>)
      requires Valid() && id < MAX_STRUCTS && id !in entries && DescribesAll(types, 0, fields)
      requires AllKnown(shapes, fields)
      modifies this
      ensures Valid() && shapes == old(shapes)[id := fields]
      ensures id in entries && entries == old(entries)[id := entries[id]] && entries[id].types == types
      ensures GoodSide(c, Rec(id, fields), entries[id].target, false)
      ensures GoodSide(c, Rec(id, fields), entries[id].host, true)
    {
      ghost var t := Rec(id, fields);
      var n := CountFields(types, fields);
      var target := ComputeSide(types, n, false, t);
      var host := ComputeSide(types, n, true, t);
      SideIsGood(c, t, target, false);
      SideIsGood(c, t, host, true);
      StillAllKnown(shapes, fields, id, fields);
      AddEntry(id, Entry(types, n, target, host), fields);
    }

    method AddEntry(id: nat, entry: Entry, ghost fields: seq<Ty>)
      requires Valid() && id !in entries && EntryOk(c, shapes[id := fields], id, entry)
      modifies this
      ensures Valid() && shapes == old(shapes)[id := fields] && entries == old(entries)[id := entry]
    {
      ghost var before := shapes;
      entries := entries[id := entry];
      shapes := shapes[id := fields];
      forall k | k in entries ensures k in shapes && EntryOk(c, shapes, k, entries[k]) {
        if k != id { StillOk(c, before, k, entries[k], id, fields); }
      }
    }
  }

  /** These are the offsets of the first fields. */
  ghost predicate OffsetsAre(offsets: seq<nat>, sizes: seq<nat>, aligns: seq<alignment>) {
    |offsets| <= |sizes| == |aligns| && forall k :: 0 <= k < |offsets| ==> offsets[k] == Offset(sizes, aligns, k)
  }

  lemma OffsetAdded(offsets: seq<nat>, at: nat, sizes: seq<nat>, aligns: seq<alignment>)
    requires OffsetsAre(offsets, sizes, aligns) && |offsets| < |sizes| && at == Offset(sizes, aligns, |offsets|)
    ensures OffsetsAre(offsets + [at], sizes, aligns)
  {
  }

  /** At the beginning of a list of types. */
  lemma FirstField(types: seq<int>, i: nat, ts: seq<Ty>)
    requires DescribesAll(types, i, ts)
    ensures i < |types| && (types[i] == TYPE_NULL <==> ts == [])
    ensures ts != [] ==>
              Next(types, i).Some? && Describes(types, i, ts[0]) && DescribesAll(types, Next(types, i).value, ts[1..])
  {
    if ts != [] {
      var e := i + |Encode(ts[0])|;
      assert Describes(types, i, ts[0]) && DescribesAll(types, e, ts[1..]);
      assert i < |types| && types[i] != TYPE_NULL by { DescribesInner(types, i, ts[0]); }
      assert Next(types, i) == Some(e) by { NextIsEnd(types, i, ts[0]); }
    }
  }
}
