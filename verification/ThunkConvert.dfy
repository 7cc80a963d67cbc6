/** Converting objects between the binary interfaces of the guest and the host (thunk_convert in thunk.c). */
module ThunkConvert {
  import opened Common
  import opened Words
  import opened ThunkTypes
  import opened ThunkRegistry
  import opened ThunkScalars
  import opened ByteOrder

  // ----- Parts of arrays and structures -----

  /** Pointers cannot be converted. */
  predicate Convertible(t: Ty) {
    match t
    case Scalar(code) => IsScalar(code)
    case Ptr(_) => false
    case Arr(_, elem) => Convertible(elem)
    case Rec(_, fields) => forall j :: 0 <= j < |fields| ==> Convertible(fields[j])
  }

  function Parts(t: Ty): nat {
    match t
    case Scalar(_) => 0
    case Ptr(_) => 0
    case Arr(count, _) => count
    case Rec(_, fields) => |fields|
  }

  function Part(t: Ty, j: nat): (p: Ty)
    requires j < Parts(t)
    ensures Convertible(t) ==> Convertible(p)
    ensures Sound(t) ==> Sound(p)
  {
    match t
    case Arr(_, elem) => elem
    case Rec(_, fields) => fields[j]
  }

  /** The offset of a part: it lies within the whole. */
  function Place(c: config, t: Ty, j: nat, host: bool): (at: nat)
    requires Sound(t) && j < Parts(t)
    ensures at + Size(c, Part(t, j), host) <= Size(c, t, host)
  {
    match t
    case Arr(count, elem) =>
      TimesGrows(j, count, Size(c, elem, host));
      Times(j, Size(c, elem, host))
    case Rec(_, fields) =>
      EndGrows(Sizes(c, t, host), Aligns(c, t, host), j, |fields|);
      Offset(Sizes(c, t, host), Aligns(c, t, host), j)
  }

  /** Parts do not overlap. */
  lemma PartsApart(c: config, t: Ty, j: nat, k: nat, host: bool)
    requires Sound(t) && j < k < Parts(t)
    ensures Place(c, t, j, host) + Size(c, Part(t, j), host) <= Place(c, t, k, host)
  {
    match t {
      case Arr(_, elem) => TimesGrows(j, k, Size(c, elem, host));
      case Rec(_, _) => EndGrows(Sizes(c, t, host), Aligns(c, t, host), j, k);
    }
  }

  // ----- The scalars of an object -----

  type scalar = code: int | IsScalar(code) witness TYPE_CHAR

  /** A scalar in an object, with its offsets in the layouts of the guest and the host. */
  datatype Leaf = Leaf(code: scalar, target: nat, host: nat) {
    function On(host: bool): nat { if host then this.host else target }
  }

  function Shift(leaves: seq<Leaf>, target: nat, host: nat): (r: seq<Leaf>)
    ensures |r| == |leaves|
    ensures forall i :: 0 <= i < |r| ==> r[i] == Leaf(leaves[i].code, leaves[i].target + target, leaves[i].host + host)
  {
    seq(|leaves|, i requires 0 <= i < |leaves| =>
          Leaf(leaves[i].code, leaves[i].target + target, leaves[i].host + host))
  }

  /** The scalars of a part, with its offsets in the two layouts. */
  datatype Piece = Piece(leaves: seq<Leaf>, target: nat, host: nat) {
    function Shifted(): seq<Leaf> { Shift(leaves, target, host) }

    function On(host: bool): nat { if host then this.host else target }
  }

  /** The scalars of the first n pieces. */
  function Joined(pieces: seq<Piece>, n: nat): seq<Leaf>
    requires n <= |pieces|
  {
    if n == 0 then [] else Joined(pieces, n - 1) + pieces[n - 1].Shifted()
  }

  /** All scalars in an object of a type. */
  function Leaves(c: config, t: Ty): seq<Leaf>
    requires Sound(t)
    decreases t, 1
  {
    if t.Scalar? then [Leaf(t.code, 0, 0)] else Joined(Pieces(c, t), Parts(t))
  }

  function Pieces(c: config, t: Ty): (r: seq<Piece>)
    requires Sound(t)
    ensures |r| == Parts(t)
    decreases t, 0
  {
    seq(Parts(t), j requires 0 <= j < Parts(t) =>
          Piece(Leaves(c, Part(t, j)), Place(c, t, j, false), Place(c, t, j, true)))
  }

  /** The scalars in its first n parts. */
  function FirstLeaves(c: config, t: Ty, n: nat): seq<Leaf>
    requires Sound(t) && n <= Parts(t)
  {
    Joined(Pieces(c, t), n)
  }

  /** The scalars lie within these sizes. */
  ghost predicate Inside(c: config, leaves: seq<Leaf>, target: nat, host: nat)
  {
    forall i :: 0 <= i < |leaves| ==>
      && leaves[i].target + ScalarSize(c, leaves[i].code, false) <= target
      && leaves[i].host + ScalarSize(c, leaves[i].code, true) <= host
  }

  lemma InsideShift(c: config, leaves: seq<Leaf>, target: nat, host: nat, dt: nat, dh: nat, target': nat, host': nat)
    requires Inside(c, leaves, target, host) && dt + target <= target' && dh + host <= host'
    ensures Inside(c, Shift(leaves, dt, dh), target', host')
  {
  }

  lemma InsideAppend(c: config, a: seq<Leaf>, b: seq<Leaf>, target: nat, host: nat)
    requires Inside(c, a, target, host) && Inside(c, b, target, host)
    ensures Inside(c, a + b, target, host)
  {
  }

  lemma {:induction false} JoinedInside(c: config, pieces: seq<Piece>, n: nat, target: nat, host: nat)
    requires n <= |pieces| && forall k: nat :: k < n ==> Inside(c, pieces[k].Shifted(), target, host)
    ensures Inside(c, Joined(pieces, n), target, host)
  {
    if n > 0 {
      JoinedInside(c, pieces, n - 1, target, host);
      InsideAppend(c, Joined(pieces, n - 1), pieces[n - 1].Shifted(), target, host);
    }
  }

  lemma {:induction false} LeavesInside(c: config, t: Ty)
    requires Sound(t)
    ensures Inside(c, Leaves(c, t), Size(c, t, false), Size(c, t, true))
    decreases t, 1
  {
    if !t.Scalar? { FirstLeavesInside(c, t, Parts(t)); }
  }

  /** The scalars of part j end before part k begins. */
  lemma PieceInside(c: config, t: Ty, j: nat, k: nat)
    requires Sound(t) && j < k < Parts(t)
    ensures Inside(c, Pieces(c, t)[j].Shifted(), Place(c, t, k, false), Place(c, t, k, true))
  {
    var p := Part(t, j);
    LeavesInside(c, p);
    PartsApart(c, t, j, k, false);
    PartsApart(c, t, j, k, true);
    InsideShift(c, Leaves(c, p), Size(c, p, false), Size(c, p, true), Place(c, t, j, false), Place(c, t, j, true),
                Place(c, t, k, false), Place(c, t, k, true));
  }

  lemma FirstLeavesInside(c: config, t: Ty, n: nat)
    requires Sound(t) && n <= Parts(t)
    ensures Inside(c, FirstLeaves(c, t, n), Size(c, t, false), Size(c, t, true))
    ensures n < Parts(t) ==> Inside(c, FirstLeaves(c, t, n), Place(c, t, n, false), Place(c, t, n, true))
    decreases t, 0, 1
  {
    FirstLeavesWithin(c, t, n, Size(c, t, false), Size(c, t, true));
    if n < Parts(t) {
      forall k: nat, host | k < n ensures PartEnd(c, t, k, host) <= Place(c, t, n, host) {
        PartsApart(c, t, k, n, host);
      }
      FirstLeavesWithin(c, t, n, Place(c, t, n, false), Place(c, t, n, true));
    }
  }

  function PartEnd(c: config, t: Ty, j: nat, host: bool): nat
    requires Sound(t) && j < Parts(t)
  {
    Place(c, t, j, host) + Size(c, Part(t, j), host)
  }

  lemma FirstLeavesWithin(c: config, t: Ty, n: nat, target: nat, host: nat)
    requires Sound(t) && n <= Parts(t)
    requires forall k: nat :: k < n ==> PartEnd(c, t, k, false) <= target
    requires forall k: nat :: k < n ==> PartEnd(c, t, k, true) <= host
    ensures Inside(c, FirstLeaves(c, t, n), target, host)
    decreases t, 0, 0
  {
    var pieces := Pieces(c, t);
    forall k: nat | k < n ensures Inside(c, pieces[k].Shifted(), target, host) {
      assert PartEnd(c, t, k, false) <= target && PartEnd(c, t, k, true) <= host;
      var p := Part(t, k);
      LeavesInside(c, p);
      InsideShift(c, Leaves(c, p), Size(c, p, false), Size(c, p, true), Place(c, t, k, false), Place(c, t, k, true),
                  target, host);
    }
    JoinedInside(c, pieces, n, target, host);
  }

  /** A relation between the bytes of a scalar before and after the conversion. */
  type Relation = (int, seq<byte>, seq<byte>) -> bool

  function Conversion(c: config, toHost: bool): Relation {
    (code, a, b) => ScalarConverted(c, code, a, b, toHost)
  }

  /** The relation holds of converted scalars. */
  ghost predicate Implied(c: config, rel: Relation, toHost: bool) {
    forall code, a, b {:trigger ScalarConverted(c, code, a, b, toHost)} ::
      ScalarConverted(c, code, a, b, toHost) ==> rel(code, a, b)
  }

  /** The relation holds of one scalar in two objects. */
  predicate LeafRelated(c: config, rel: Relation, leaf: Leaf, src: seq<byte>, s: nat, dst: seq<byte>, d: nat,
                        toHost: bool)
  {
    var from, m := s + leaf.On(!toHost), ScalarSize(c, leaf.code, !toHost);
    var to, n := d + leaf.On(toHost), ScalarSize(c, leaf.code, toHost);
    && from + m <= |src| && to + n <= |dst|
    && rel(leaf.code, src[from..from + m], dst[to..to + n])
  }

  ghost predicate AllRelated(c: config, rel: Relation, leaves: seq<Leaf>, src: seq<byte>, s: nat, dst: seq<byte>,
                             d: nat, toHost: bool)
  {
    forall i :: 0 <= i < |leaves| ==> LeafRelated(c, rel, leaves[i], src, s, dst, d, toHost)
  }

  /** An object has been converted: all its scalars have. */
  ghost predicate Converted(c: config, t: Ty, src: seq<byte>, s: nat, dst: seq<byte>, d: nat, toHost: bool)
    requires Sound(t)
  {
    AllRelated(c, Conversion(c, toHost), Leaves(c, t), src, s, dst, d, toHost)
  }

  lemma AppendRelated(c: config, rel: Relation, a: seq<Leaf>, b: seq<Leaf>, src: seq<byte>, s: nat, dst: seq<byte>,
                      d: nat, toHost: bool)
    requires AllRelated(c, rel, a, src, s, dst, d, toHost) && AllRelated(c, rel, b, src, s, dst, d, toHost)
    ensures AllRelated(c, rel, a + b, src, s, dst, d, toHost)
  {
  }

  /** Only the bytes of the object matter. */
  lemma OnlyOwnBytes(c: config, rel: Relation, leaves: seq<Leaf>, target: nat, host: nat, src: seq<byte>, s: nat,
                     dst: seq<byte>, dst': seq<byte>, d: nat, toHost: bool)
    requires Inside(c, leaves, target, host) && AllRelated(c, rel, leaves, src, s, dst, d, toHost)
    requires |dst| == |dst'| && d + (if toHost then host else target) <= |dst|
    requires forall k :: d <= k < d + (if toHost then host else target) ==> dst'[k] == dst[k]
    ensures AllRelated(c, rel, leaves, src, s, dst', d, toHost)
  {
    forall i | 0 <= i < |leaves| ensures LeafRelated(c, rel, leaves[i], src, s, dst', d, toHost) {
      var to, n := d + leaves[i].On(toHost), ScalarSize(c, leaves[i].code, toHost);
      assert LeafRelated(c, rel, leaves[i], src, s, dst, d, toHost);
      assert dst'[to..to + n] == dst[to..to + n];
    }
  }

  /** Converting a scalar reads and writes these bytes. */
  lemma ScalarIsMoved(c: config, t: Ty, src: seq<byte>, s: nat, before: seq<byte>, after: seq<byte>, d: nat,
                      toHost: bool)
    requires t.Scalar? && Sound(t) && Converted(c, t, src, s, after, d, toHost)
    requires UnchangedAround(before, after, d, Size(c, t, toHost))
    ensures Moved(c, t.code, src, s, before, after, d, toHost)
  {
    var leaf := Leaf(t.code, 0, 0);
    assert Leaves(c, t)[0] == leaf;
    assert LeafRelated(c, Conversion(c, toHost), leaf, src, s, after, d, toHost);
    ScalarMoved(c, t.code, src, s, ScalarSize(c, t.code, !toHost), before, after, d, ScalarSize(c, t.code, toHost),
                toHost);
  }

  lemma LeafIs(c: config, rel: Relation, leaf: Leaf, dt: nat, dh: nat, src: seq<byte>, s: nat, s': nat, dst: seq<byte>,
               d: nat, d': nat, toHost: bool)
    requires s' == s + (if toHost then dt else dh) && d' == d + (if toHost then dh else dt)
    ensures LeafRelated(c, rel, Leaf(leaf.code, leaf.target + dt, leaf.host + dh), src, s, dst, d, toHost)
         == LeafRelated(c, rel, leaf, src, s', dst, d', toHost)
  {
  }

  lemma ShiftIs(c: config, rel: Relation, leaves: seq<Leaf>, dt: nat, dh: nat, src: seq<byte>, s: nat, s': nat,
                dst: seq<byte>, d: nat, d': nat, toHost: bool)
    requires s' == s + (if toHost then dt else dh) && d' == d + (if toHost then dh else dt)
    ensures AllRelated(c, rel, Shift(leaves, dt, dh), src, s, dst, d, toHost)
         == AllRelated(c, rel, leaves, src, s', dst, d', toHost)
  {
    var shifted := Shift(leaves, dt, dh);
    forall i | 0 <= i < |leaves|
      ensures LeafRelated(c, rel, shifted[i], src, s, dst, d, toHost)
           == LeafRelated(c, rel, leaves[i], src, s', dst, d', toHost)
    {
      LeafIs(c, rel, leaves[i], dt, dh, src, s, s', dst, d, d', toHost);
    }
    if AllRelated(c, rel, shifted, src, s, dst, d, toHost) {
      assert AllRelated(c, rel, leaves, src, s', dst, d', toHost);
    } else {
      assert !AllRelated(c, rel, leaves, src, s', dst, d', toHost);
    }
  }

  /** The scalars of a piece that begins at these positions. */
  ghost predicate PieceRelated(c: config, rel: Relation, p: Piece, src: seq<byte>, s: nat, dst: seq<byte>, d: nat,
                               toHost: bool)
  {
    AllRelated(c, rel, p.leaves, src, s + (if toHost then p.target else p.host), dst,
               d + (if toHost then p.host else p.target), toHost)
  }

  lemma PieceIs(c: config, rel: Relation, p: Piece, src: seq<byte>, s: nat, s': nat, dst: seq<byte>, d: nat, d': nat,
                toHost: bool)
    requires s' == s + (if toHost then p.target else p.host) && d' == d + (if toHost then p.host else p.target)
    ensures PieceRelated(c, rel, p, src, s, dst, d, toHost) == AllRelated(c, rel, p.leaves, src, s', dst, d', toHost)
  {
  }

  lemma ShiftedRelated(c: config, rel: Relation, p: Piece, src: seq<byte>, s: nat, dst: seq<byte>, d: nat, toHost: bool)
    ensures AllRelated(c, rel, p.Shifted(), src, s, dst, d, toHost)
         == PieceRelated(c, rel, p, src, s, dst, d, toHost)
  {
    var s', d' := s + (if toHost then p.target else p.host), d + (if toHost then p.host else p.target);
    ShiftIs(c, rel, p.leaves, p.target, p.host, src, s, s', dst, d, d', toHost);
    PieceIs(c, rel, p, src, s, s', dst, d, d', toHost);
  }

  lemma {:induction false} JoinedRelated(c: config, rel: Relation, pieces: seq<Piece>, n: nat, src: seq<byte>, s: nat,
                                         dst: seq<byte>, d: nat, toHost: bool)
    requires n <= |pieces|
    ensures AllRelated(c, rel, Joined(pieces, n), src, s, dst, d, toHost)
       <==> forall k: nat :: k < n ==> PieceRelated(c, rel, pieces[k], src, s, dst, d, toHost)
  {
    if n > 0 {
      var first, last := Joined(pieces, n - 1), pieces[n - 1].Shifted();
      JoinedRelated(c, rel, pieces, n - 1, src, s, dst, d, toHost);
      ShiftedRelated(c, rel, pieces[n - 1], src, s, dst, d, toHost);
      if AllRelated(c, rel, first + last, src, s, dst, d, toHost) {
        forall i | 0 <= i < |last| ensures LeafRelated(c, rel, last[i], src, s, dst, d, toHost) {
          assert last[i] == (first + last)[|first| + i];
        }
        forall i | 0 <= i < |first| ensures LeafRelated(c, rel, first[i], src, s, dst, d, toHost) {
          assert first[i] == (first + last)[i];
        }
      }
    }
  }

  lemma ConvertedIs(c: config, part: Ty, src: seq<byte>, s: nat, dst: seq<byte>, d: nat, toHost: bool)
    requires Sound(part)
    ensures Converted(c, part, src, s, dst, d, toHost)
         == AllRelated(c, Conversion(c, toHost), Leaves(c, part), src, s, dst, d, toHost)
  {
  }

  /** A part has been converted, from its offset on one side to its offset on the other. */
  ghost predicate PartConverted(c: config, part: Ty, src: seq<byte>, s: nat, from: nat, dst: seq<byte>, d: nat, to: nat,
                                toHost: bool)
    requires Sound(part)
  {
    Converted(c, part, src, s + from, dst, d + to, toHost)
  }

  lemma PartIs(c: config, part: Ty, src: seq<byte>, s: nat, from: nat, s': nat, dst: seq<byte>, d: nat, to: nat,
               d': nat, toHost: bool)
    requires Sound(part) && s' == s + from && d' == d + to
    ensures PartConverted(c, part, src, s, from, dst, d, to, toHost) == Converted(c, part, src, s', dst, d', toHost)
  {
  }

  /** The piece holds the scalars of a part with these offsets. */
  lemma PieceIsPart(c: config, part: Ty, p: Piece, src: seq<byte>, s: nat, from: nat, dst: seq<byte>, d: nat, to: nat,
                    toHost: bool)
    requires Sound(part) && p.leaves == Leaves(c, part) && from == p.On(!toHost) && to == p.On(toHost)
    ensures PieceRelated(c, Conversion(c, toHost), p, src, s, dst, d, toHost)
         == PartConverted(c, part, src, s, from, dst, d, to, toHost)
  {
    var s', d' := s + from, d + to;
    PartIs(c, part, src, s, from, s', dst, d, to, d', toHost);
    ConvertedIs(c, part, src, s', dst, d', toHost);
    PieceIs(c, Conversion(c, toHost), p, src, s, s', dst, d, d', toHost);
  }

  lemma ConvertedParts(c: config, t: Ty, src: seq<byte>, s: nat, dst: seq<byte>, d: nat, toHost: bool)
    requires Sound(t) && !t.Scalar?
    ensures Converted(c, t, src, s, dst, d, toHost)
       <==> forall j: nat :: j < Parts(t) ==>
              PartConverted(c, Part(t, j), src, s, Place(c, t, j, !toHost), dst, d, Place(c, t, j, toHost), toHost)
  {
    var pieces := Pieces(c, t);
    JoinedRelated(c, Conversion(c, toHost), pieces, Parts(t), src, s, dst, d, toHost);
    forall j: nat | j < Parts(t)
      ensures PieceRelated(c, Conversion(c, toHost), pieces[j], src, s, dst, d, toHost)
           == PartConverted(c, Part(t, j), src, s, Place(c, t, j, !toHost), dst, d, Place(c, t, j, toHost), toHost)
    {
      PieceIsPart(c, Part(t, j), pieces[j], src, s, Place(c, t, j, !toHost), dst, d, Place(c, t, j, toHost), toHost);
    }
  }

  /** Element j has been converted, where elements take m bytes on one side and n on the other. */
  ghost predicate ElementConverted(c: config, elem: Ty, src: seq<byte>, s: nat, m: nat, dst: seq<byte>, d: nat, n: nat,
                                   j: nat, toHost: bool)
    requires Sound(elem)
  {
    PartConverted(c, elem, src, s, Times(j, m), dst, d, Times(j, n), toHost)
  }

  /** An array has been converted exactly if all its elements have, one after the other on either side. */
  lemma ConvertedArray(c: config, t: Ty, src: seq<byte>, s: nat, m: nat, dst: seq<byte>, d: nat, n: nat, toHost: bool)
    requires t.Arr? && Sound(t) && m == Size(c, t.elem, !toHost) && n == Size(c, t.elem, toHost)
    ensures Converted(c, t, src, s, dst, d, toHost)
       <==> forall j: nat :: j < t.count ==> ElementConverted(c, t.elem, src, s, m, dst, d, n, j, toHost)
  {
    ConvertedParts(c, t, src, s, dst, d, toHost);
    forall j: nat | j < t.count
      ensures PartConverted(c, Part(t, j), src, s, Place(c, t, j, !toHost), dst, d, Place(c, t, j, toHost), toHost)
           == ElementConverted(c, t.elem, src, s, m, dst, d, n, j, toHost)
    {
      assert Part(t, j) == t.elem && Place(c, t, j, !toHost) == Times(j, m) && Place(c, t, j, toHost) == Times(j, n);
    }
  }

  lemma GoodOffset(c: config, t: Ty, side: Side, j: nat, host: bool)
    requires t.Rec? && Sound(t) && GoodSide(c, t, side, host) && j < |t.fields|
    ensures side.offsets[j] == Place(c, t, j, host)
  {
    LayoutIsUnique(Sizes(c, t, host), Aligns(c, t, host), side.offsets, side.size, side.align);
  }

  /** A structure has been converted exactly if all its fields have, between the offsets of its good layouts. */
  lemma ConvertedStruct(c: config, t: Ty, from: Side, to: Side, src: seq<byte>, s: nat, dst: seq<byte>, d: nat,
                        toHost: bool)
    requires t.Rec? && Sound(t) && GoodSide(c, t, from, !toHost) && GoodSide(c, t, to, toHost)
    ensures Converted(c, t, src, s, dst, d, toHost)
       <==> forall j: nat :: j < |t.fields| ==>
              PartConverted(c, t.fields[j], src, s, from.offsets[j], dst, d, to.offsets[j], toHost)
  {
    ConvertedParts(c, t, src, s, dst, d, toHost);
    forall j: nat | j < |t.fields|
      ensures from.offsets[j] == Place(c, t, j, !toHost) && to.offsets[j] == Place(c, t, j, toHost)
    {
      GoodOffset(c, t, from, j, !toHost);
      GoodOffset(c, t, to, j, toHost);
    }
  }

  // ----- The conversion -----

  /** After part n of an object has been converted too. */
  lemma NextPart(c: config, rel: Relation, pieces: seq<Piece>, n: nat, part: seq<Leaf>, src: seq<byte>, s: nat,
                 sAt: nat, before: seq<byte>, after: seq<byte>, d: nat, dAt: nat, toHost: bool, size: nat)
    requires n < |pieces| && Inside(c, Joined(pieces, n), pieces[n].target, pieces[n].host) && part == pieces[n].leaves
    requires AllRelated(c, rel, Joined(pieces, n), src, s, before, d, toHost)
    requires UnchangedAround(before, after, dAt, size) && dAt <= |after|
    requires dAt == d + pieces[n].On(toHost) && sAt == s + pieces[n].On(!toHost)
    requires AllRelated(c, rel, part, src, sAt, after, dAt, toHost)
    ensures AllRelated(c, rel, Joined(pieces, n + 1), src, s, after, d, toHost)
  {
    var first, dt, dh := Joined(pieces, n), pieces[n].target, pieces[n].host;
    OnlyOwnBytes(c, rel, first, dt, dh, src, s, before, after, d, toHost);
    ShiftIs(c, rel, part, dt, dh, src, s, sAt, after, d, dAt, toHost);
    AppendRelated(c, rel, first, Shift(part, dt, dh), src, s, after, d, toHost);
  }

  /** The piece for part n lies within the object, behind the pieces before it. */
  lemma PieceAt(c: config, t: Ty, n: nat, pieces: seq<Piece>)
    requires Sound(t) && n < Parts(t) && pieces == Pieces(c, t)
    ensures pieces[n] == Piece(Leaves(c, Part(t, n)), Place(c, t, n, false), Place(c, t, n, true))
    ensures pieces[n].target + Size(c, Part(t, n), false) <= Size(c, t, false)
    ensures pieces[n].host + Size(c, Part(t, n), true) <= Size(c, t, true)
    ensures Inside(c, Joined(pieces, n), pieces[n].target, pieces[n].host)
  {
    FirstLeavesInside(c, t, n);
  }

  /** Converts an object; what that does to its scalars is only known as a relation. */
  method Convert(reg: Registry, ghost rel: Relation, dst: array<byte>, d: nat, src: array<byte>, s: nat,
                 types: seq<int>, i: nat, toHost: bool, ghost t: Ty)
    returns (next: nat)
    requires reg.Valid() && Implied(reg.c, rel, toHost) && Describes(types, i, t) && reg.Known(t) && Convertible(t)
             && dst != src
    requires d + Size(reg.c, t, toHost) <= dst.Length && s + Size(reg.c, t, !toHost) <= src.Length
    modifies dst
    ensures Next(types, i) == Some(next)
    ensures AllRelated(reg.c, rel, Leaves(reg.c, t), src[..], s, dst[..], d, toHost)
    ensures UnchangedAround(old(dst[..]), dst[..], d, Size(reg.c, t, toHost))
    decreases t, 4
  {
    DescribesInner(types, i, t);
    NextIsEnd(types, i, t);
    var code := types[i];
    if code == TYPE_ARRAY {
      next := ConvertElements(reg, rel, dst, d, src, s, types, i + 2, types[i + 1], toHost, t);
    } else if code == TYPE_STRUCT {
      EntryTypes(reg, t);
      ConvertFields(reg, rel, dst, d, src, s, reg.entries[types[i + 1]], toHost, t);
      next := i + 2;
    } else {
      ConvertLeaf(reg.c, rel, dst, d, src, s, code, toHost);
      next := i + 1;
    }
  }

  /** Converts an object that is a scalar. */
  method ConvertLeaf(c: config, ghost rel: Relation, dst: array<byte>, d: nat, src: array<byte>, s: nat, code: scalar,
                     toHost: bool)
    requires Implied(c, rel, toHost) && dst != src
    requires d + ScalarSize(c, code, toHost) <= dst.Length && s + ScalarSize(c, code, !toHost) <= src.Length
    modifies dst
    ensures AllRelated(c, rel, [Leaf(code, 0, 0)], src[..], s, dst[..], d, toHost)
    ensures UnchangedAround(old(dst[..]), dst[..], d, ScalarSize(c, code, toHost))
  {
    ConvertScalar(c, dst, d, src, s, code, toHost);
    var m, n := ScalarSize(c, code, !toHost), ScalarSize(c, code, toHost);
    assert dst[..][d..d + n] == dst[d..d + n] && src[..][s..s + m] == src[s..s + m];
    ScalarImplies(c, rel, code, src[..][s..s + m], dst[..][d..d + n], toHost);
    assert LeafRelated(c, rel, Leaf(code, 0, 0), src[..], s, dst[..], d, toHost);
  }

  lemma ScalarImplies(c: config, rel: Relation, code: int, a: seq<byte>, b: seq<byte>, toHost: bool)
    requires Implied(c, rel, toHost) && ScalarConverted(c, code, a, b, toHost)
    ensures rel(code, a, b)
  {
  }

  /** Converts part n of an object whose earlier parts have been converted. */
  method ConvertPart(reg: Registry, ghost rel: Relation, dst: array<byte>, ghost d: nat, dAt: nat, src: array<byte>,
                     ghost s: nat, sAt: nat, types: seq<int>, i: nat, toHost: bool, ghost t: Ty, ghost n: nat,
                     ghost was: seq<byte>, ghost pieces: seq<Piece>)
    returns (next: nat)
    requires reg.Valid() && Implied(reg.c, rel, toHost) && Sound(t) && Convertible(t) && n < Parts(t) && dst != src
    requires Describes(types, i, Part(t, n)) && reg.Known(Part(t, n)) && pieces == Pieces(reg.c, t)
    requires d + Size(reg.c, t, toHost) <= dst.Length && s + Size(reg.c, t, !toHost) <= src.Length
    requires dAt == d + pieces[n].On(toHost) && sAt == s + pieces[n].On(!toHost)
    requires AllRelated(reg.c, rel, Joined(pieces, n), src[..], s, dst[..], d, toHost)
    requires UnchangedAround(was, dst[..], d, Size(reg.c, t, toHost))
    modifies dst
    ensures Next(types, i) == Some(next)
    ensures AllRelated(reg.c, rel, Joined(pieces, n + 1), src[..], s, dst[..], d, toHost)
    ensures UnchangedAround(was, dst[..], d, Size(reg.c, t, toHost))
    decreases t, 0
  {
    PieceAt(reg.c, t, n, pieces);
    next := ConvertPiece(reg, rel, dst, d, dAt, src, s, sAt, types, i, toHost, Part(t, n), n, was, pieces,
                         Size(reg.c, t, toHost));
  }

  /** The same, for an object of a given size. */
  method ConvertPiece(reg: Registry, ghost rel: Relation, dst: array<byte>, ghost d: nat, dAt: nat, src: array<byte>,
                      ghost s: nat, sAt: nat, types: seq<int>, i: nat, toHost: bool, ghost p: Ty, ghost n: nat,
                      ghost was: seq<byte>, ghost pieces: seq<Piece>, ghost size: nat)
    returns (next: nat)
    requires reg.Valid() && Implied(reg.c, rel, toHost) && Convertible(p) && n < |pieces| && dst != src
    requires Describes(types, i, p) && reg.Known(p) && pieces[n].leaves == Leaves(reg.c, p)
    requires Inside(reg.c, Joined(pieces, n), pieces[n].target, pieces[n].host)
    requires dAt + Size(reg.c, p, toHost) <= d + size <= dst.Length && sAt + Size(reg.c, p, !toHost) <= src.Length
    requires dAt == d + pieces[n].On(toHost) && sAt == s + pieces[n].On(!toHost)
    requires AllRelated(reg.c, rel, Joined(pieces, n), src[..], s, dst[..], d, toHost)
    requires UnchangedAround(was, dst[..], d, size)
    modifies dst
    ensures Next(types, i) == Some(next)
    ensures AllRelated(reg.c, rel, Joined(pieces, n + 1), src[..], s, dst[..], d, toHost)
    ensures UnchangedAround(was, dst[..], d, size)
    decreases p, 5
  {
    ghost var before := dst[..];
    next := Convert(reg, rel, dst, dAt, src, sAt, types, i, toHost, p);
    NextPart(reg.c, rel, pieces, n, Leaves(reg.c, p), src[..], s, sAt, before, dst[..], d, dAt, toHost,
             Size(reg.c, p, toHost));
    SameWithin(was, before, dst[..], d, size, dAt, Size(reg.c, p, toHost));
  }

  lemma SameWithin(a: seq<byte>, b: seq<byte>, c: seq<byte>, at: nat, n: nat, at': nat, n': nat)
    requires UnchangedAround(a, b, at, n) && UnchangedAround(b, c, at', n') && at <= at' && at' + n' <= at + n
    ensures UnchangedAround(a, c, at, n)
  {
  }

  /** Converts the elements of an array. */
  method ConvertElements(reg: Registry, ghost rel: Relation, dst: array<byte>, d: nat, src: array<byte>, s: nat,
                         types: seq<int>, i: nat, count: nat, toHost: bool, ghost t: Ty)
    returns (next: nat)
    requires reg.Valid() && Implied(reg.c, rel, toHost) && t.Arr? && count == t.count && Describes(types, i, t.elem)
             && reg.Known(t) && Convertible(t)
    requires Sound(t) && dst != src
    requires d + Size(reg.c, t, toHost) <= dst.Length && s + Size(reg.c, t, !toHost) <= src.Length
    modifies dst
    ensures Next(types, i) == Some(next)
    ensures AllRelated(reg.c, rel, Leaves(reg.c, t), src[..], s, dst[..], d, toHost)
    ensures UnchangedAround(old(dst[..]), dst[..], d, Size(reg.c, t, toHost))
    decreases t, 3
  {
    reg.TypeSizeIsSize(types, i, t.elem, toHost);
    reg.TypeSizeIsSize(types, i, t.elem, !toHost);
    NextIsEnd(types, i, t.elem);
    ElementLoop(reg, rel, dst, d, reg.TypeSize(types, i, toHost), src, s, reg.TypeSize(types, i, !toHost),
                types, i, count, toHost, t, Pieces(reg.c, t));
    next := Next(types, i).value;
  }

  /** Converts element k of an array. */
  method ConvertElement(reg: Registry, ghost rel: Relation, dst: array<byte>, ghost d: nat, dAt: nat,
                        src: array<byte>, ghost s: nat, sAt: nat, types: seq<int>, i: nat, toHost: bool, ghost t: Ty,
                        ghost k: nat, ghost was: seq<byte>, dstSize: nat, srcSize: nat, ghost pieces: seq<Piece>)
    returns (dNext: nat, sNext: nat)
    requires reg.Valid() && Implied(reg.c, rel, toHost) && t.Arr? && Convertible(t) && Sound(t) && k < t.count
    requires Describes(types, i, t.elem) && reg.Known(t.elem) && dst != src && pieces == Pieces(reg.c, t)
    requires d + Size(reg.c, t, toHost) <= dst.Length && s + Size(reg.c, t, !toHost) <= src.Length
    requires dstSize == Size(reg.c, t.elem, toHost) && srcSize == Size(reg.c, t.elem, !toHost)
    requires dAt == d + Times(k, dstSize) && sAt == s + Times(k, srcSize)
    requires AllRelated(reg.c, rel, Joined(pieces, k), src[..], s, dst[..], d, toHost)
    requires UnchangedAround(was, dst[..], d, Size(reg.c, t, toHost))
    modifies dst
    ensures dNext == d + Times(k + 1, dstSize) && sNext == s + Times(k + 1, srcSize)
    ensures AllRelated(reg.c, rel, Joined(pieces, k + 1), src[..], s, dst[..], d, toHost)
    ensures UnchangedAround(was, dst[..], d, Size(reg.c, t, toHost))
    decreases t, 1
  {
    assert pieces[k].On(toHost) == Times(k, dstSize) && pieces[k].On(!toHost) == Times(k, srcSize) by {
      PieceAt(reg.c, t, k, pieces);
    }
    var skipped := ConvertPart(reg, rel, dst, d, dAt, src, s, sAt, types, i, toHost, t, k, was, pieces);
    dNext, sNext := dAt + dstSize, sAt + srcSize;
  }

  method ElementLoop(reg: Registry, ghost rel: Relation, dst: array<byte>, d: nat, dstSize: nat, src: array<byte>,
                     s: nat, srcSize: nat, types: seq<int>, i: nat, count: nat, toHost: bool, ghost t: Ty,
                     ghost pieces: seq<Piece>)
    requires reg.Valid() && Implied(reg.c, rel, toHost) && t.Arr? && count == t.count && Describes(types, i, t.elem)
             && reg.Known(t.elem) && Convertible(t)
    requires Sound(t) && dst != src && pieces == Pieces(reg.c, t)
    requires dstSize == Size(reg.c, t.elem, toHost) && srcSize == Size(reg.c, t.elem, !toHost)
    requires d + Size(reg.c, t, toHost) <= dst.Length && s + Size(reg.c, t, !toHost) <= src.Length
    modifies dst
    ensures AllRelated(reg.c, rel, Joined(pieces, count), src[..], s, dst[..], d, toHost)
    ensures UnchangedAround(old(dst[..]), dst[..], d, Size(reg.c, t, toHost))
    decreases t, 2
  {
    ghost var was := dst[..];
    var dAt, sAt := d, s;
    for k := 0 to count
      invariant dAt == d + Times(k, dstSize) && sAt == s + Times(k, srcSize)
      invariant AllRelated(reg.c, rel, Joined(pieces, k), src[..], s, dst[..], d, toHost)
      invariant UnchangedAround(was, dst[..], d, Size(reg.c, t, toHost))
    {
      dAt, sAt := ConvertElement(reg, rel, dst, d, dAt, src, s, sAt, types, i, toHost, t, k, was,
                                 dstSize, srcSize, pieces);
    }
  }

  /** What the entry of a structure says about field j. */
  lemma EntryPlaces(reg: Registry, t: Ty, j: nat, host: bool)
    requires reg.Valid() && t.Rec? && reg.Known(t) && j < |t.fields| && Sound(t)
    ensures t.id in reg.entries && |reg.entries[t.id].Of(host).offsets| == |t.fields|
    ensures reg.entries[t.id].Of(host).offsets[j] == Place(reg.c, t, j, host)
    ensures reg.Known(t.fields[j])
  {
    assert EntryOk(reg.c, reg.shapes, t.id, reg.entries[t.id]);
  }

  lemma EntryPieces(reg: Registry, t: Ty, j: nat, pieces: seq<Piece>)
    requires reg.Valid() && t.Rec? && reg.Known(t) && j < |t.fields| && Sound(t) && pieces == Pieces(reg.c, t)
    ensures t.id in reg.entries && |reg.entries[t.id].target.offsets| == |t.fields| == |reg.entries[t.id].host.offsets|
    ensures reg.entries[t.id].target.offsets[j] == pieces[j].target
    ensures reg.entries[t.id].host.offsets[j] == pieces[j].host
  {
    EntryPlaces(reg, t, j, false);
    EntryPlaces(reg, t, j, true);
  }

  lemma EntryTypes(reg: Registry, t: Ty)
    requires reg.Valid() && t.Rec? && reg.Known(t)
    ensures t.id in reg.entries && reg.entries[t.id].nbFields == |t.fields|
    ensures DescribesAll(reg.entries[t.id].types, 0, t.fields) && Sound(t)
  {
    assert EntryOk(reg.c, reg.shapes, t.id, reg.entries[t.id]);
  }

  /** Converts field j of a structure. */
  method ConvertField(reg: Registry, ghost rel: Relation, dst: array<byte>, d: nat, src: array<byte>, s: nat,
                      entry: Entry, i: nat, j: nat, toHost: bool, ghost t: Ty, ghost was: seq<byte>,
                      ghost pieces: seq<Piece>)
    returns (next: nat)
    requires reg.Valid() && Implied(reg.c, rel, toHost) && t.Rec? && reg.Known(t) && t.id in reg.entries
             && entry == reg.entries[t.id]
    requires Convertible(t) && Sound(t) && dst != src && j < |t.fields| && DescribesAll(entry.types, i, t.fields[j..])
    requires d + Size(reg.c, t, toHost) <= dst.Length && s + Size(reg.c, t, !toHost) <= src.Length
    requires pieces == Pieces(reg.c, t)
    requires AllRelated(reg.c, rel, Joined(pieces, j), src[..], s, dst[..], d, toHost)
    requires UnchangedAround(was, dst[..], d, Size(reg.c, t, toHost))
    modifies dst
    ensures DescribesAll(entry.types, next, t.fields[j + 1..])
    ensures AllRelated(reg.c, rel, Joined(pieces, j + 1), src[..], s, dst[..], d, toHost)
    ensures UnchangedAround(was, dst[..], d, Size(reg.c, t, toHost))
    decreases t, 1
  {
    EntryPieces(reg, t, j, pieces);
    FirstField(entry.types, i, t.fields[j..]);
    var dAt, sAt := d + entry.Of(toHost).offsets[j], s + entry.Of(!toHost).offsets[j];
    next := ConvertPart(reg, rel, dst, d, dAt, src, s, sAt, entry.types, i, toHost, t, j, was, pieces);
  }

  /** Converts the fields of a structure. */
  method ConvertFields(reg: Registry, ghost rel: Relation, dst: array<byte>, d: nat, src: array<byte>, s: nat,
                       entry: Entry, toHost: bool, ghost t: Ty)
    requires reg.Valid() && Implied(reg.c, rel, toHost) && t.Rec? && reg.Known(t) && t.id in reg.entries
             && entry == reg.entries[t.id]
    requires Convertible(t) && Sound(t) && dst != src
    requires d + Size(reg.c, t, toHost) <= dst.Length && s + Size(reg.c, t, !toHost) <= src.Length
    modifies dst
    ensures AllRelated(reg.c, rel, Leaves(reg.c, t), src[..], s, dst[..], d, toHost)
    ensures UnchangedAround(old(dst[..]), dst[..], d, Size(reg.c, t, toHost))
    decreases t, 2
  {
    EntryTypes(reg, t);
    ghost var was, pieces := dst[..], Pieces(reg.c, t);
    var i, j := 0, 0;
    while j < entry.nbFields
      invariant 0 <= i && 0 <= j <= |t.fields| && DescribesAll(entry.types, i, t.fields[j..])
      invariant AllRelated(reg.c, rel, Joined(pieces, j), src[..], s, dst[..], d, toHost)
      invariant UnchangedAround(was, dst[..], d, Size(reg.c, t, toHost))
    {
      i := ConvertField(reg, rel, dst, d, src, s, entry, i, j, toHost, t, was, pieces);
      j := j + 1;
    }
  }

  /** Converts an object: all its scalars are converted, and no other bytes than those of the object are written. */
  method ThunkConvert(reg: Registry, dst: array<byte>, d: nat, src: array<byte>, s: nat, types: seq<int>, i: nat,
                      toHost: bool, ghost t: Ty)
    returns (next: nat)
    requires reg.Valid() && Describes(types, i, t) && reg.Known(t) && Convertible(t) && dst != src
    requires d + Size(reg.c, t, toHost) <= dst.Length && s + Size(reg.c, t, !toHost) <= src.Length
    modifies dst
    ensures Next(types, i) == Some(next)
    ensures Converted(reg.c, t, src[..], s, dst[..], d, toHost)
    ensures t.Scalar? ==> Moved(reg.c, t.code, src[..], s, old(dst[..]), dst[..], d, toHost)
    ensures UnchangedAround(old(dst[..]), dst[..], d, Size(reg.c, t, toHost))
  {
    next := Convert(reg, Conversion(reg.c, toHost), dst, d, src, s, types, i, toHost, t);
    if t.Scalar? { ScalarIsMoved(reg.c, t, src[..], s, old(dst[..]), dst[..], d, toHost); }
  }

  // ----- Round trips -----

  /** A scalar of one object has the same bytes in another one. */
  predicate SameLeaf(c: config, leaf: Leaf, x: seq<byte>, xs: nat, z: seq<byte>, zs: nat, host: bool)
  {
    var from, to, n := xs + leaf.On(host), zs + leaf.On(host), ScalarSize(c, leaf.code, host);
    from + n <= |x| && to + n <= |z| && x[from..from + n] == z[to..to + n]
  }

  /** The value of a scalar survives the conversion. */
  predicate LeafFits(c: config, leaf: Leaf, x: seq<byte>, xs: nat, toHost: bool)
  {
    var from, n := xs + leaf.On(!toHost), ScalarSize(c, leaf.code, !toHost);
    from + n <= |x| && Fits(leaf.code, Num(x[from..from + n], c.Big(!toHost)), n, ScalarSize(c, leaf.code, toHost))
  }

  /** A scalar that is converted there and back is restored exactly if its value fits. */
  lemma LeafRoundTrip(c: config, leaf: Leaf, x: seq<byte>, xs: nat, y: seq<byte>, ys: nat, z: seq<byte>, zs: nat,
                      toHost: bool)
    requires LeafRelated(c, Conversion(c, toHost), leaf, x, xs, y, ys, toHost)
             && LeafRelated(c, Conversion(c, !toHost), leaf, y, ys, z, zs, !toHost)
    ensures SameLeaf(c, leaf, x, xs, z, zs, !toHost) <==> LeafFits(c, leaf, x, xs, toHost)
  {
    var n, m := ScalarSize(c, leaf.code, !toHost), ScalarSize(c, leaf.code, toHost);
    var from, at, to := xs + leaf.On(!toHost), ys + leaf.On(toHost), zs + leaf.On(!toHost);
    ScalarRoundTrip(c, leaf.code, x[from..from + n], y[at..at + m], z[to..to + n], toHost);
  }

  /** An object that is converted to the other interface and back is restored, scalar by scalar, if and only if
      all its scalars fit. */
  lemma RoundTrip(c: config, t: Ty, x: seq<byte>, xs: nat, y: seq<byte>, ys: nat, z: seq<byte>, zs: nat, toHost: bool)
    requires Sound(t) && Converted(c, t, x, xs, y, ys, toHost) && Converted(c, t, y, ys, z, zs, !toHost)
    ensures (forall i :: 0 <= i < |Leaves(c, t)| ==> SameLeaf(c, Leaves(c, t)[i], x, xs, z, zs, !toHost))
       <==> (forall i :: 0 <= i < |Leaves(c, t)| ==> LeafFits(c, Leaves(c, t)[i], x, xs, toHost))
  {
    var leaves := Leaves(c, t);
    forall i | 0 <= i < |leaves|
      ensures SameLeaf(c, leaves[i], x, xs, z, zs, !toHost) <==> LeafFits(c, leaves[i], x, xs, toHost)
    {
      assert LeafRelated(c, Conversion(c, toHost), leaves[i], x, xs, y, ys, toHost)
          && LeafRelated(c, Conversion(c, !toHost), leaves[i], y, ys, z, zs, !toHost);
      LeafRoundTrip(c, leaves[i], x, xs, y, ys, z, zs, toHost);
    }
  }

  /** From the guest to a host whose words are not smaller, and back: everything is restored. */
  lemma GuestRoundTrip(c: config, t: Ty, x: seq<byte>, xs: nat, y: seq<byte>, ys: nat, z: seq<byte>, zs: nat)
    requires c.targetLong <= c.hostLong && Sound(t)
    requires Converted(c, t, x, xs, y, ys, true) && Converted(c, t, y, ys, z, zs, false)
    ensures forall i :: 0 <= i < |Leaves(c, t)| ==> SameLeaf(c, Leaves(c, t)[i], x, xs, z, zs, false)
  {
    forall i | 0 <= i < |Leaves(c, t)| ensures LeafFits(c, Leaves(c, t)[i], x, xs, true) {
      assert LeafRelated(c, Conversion(c, true), Leaves(c, t)[i], x, xs, y, ys, true);
    }
    RoundTrip(c, t, x, xs, y, ys, z, zs, true);
  }

  /** On a host with smaller words something can be lost: a long of the guest with the value 2^32. */
  lemma NarrowHostLoses(c: config, x: seq<byte>, y: seq<byte>, z: seq<byte>)
    requires c.hostLong == 4 && c.targetLong == 8 && |x| == |z| == 8 && |y| == 4
    requires Num(x, c.targetBig) == B32
    requires Converted(c, Scalar(TYPE_ULONG), x, 0, y, 0, true) && Converted(c, Scalar(TYPE_ULONG), y, 0, z, 0, false)
    ensures x != z
  {
    var leaf := Leaf(TYPE_ULONG, 0, 0);
    assert Leaves(c, Scalar(TYPE_ULONG))[0] == leaf;
    LeafRoundTrip(c, leaf, x, 0, y, 0, z, 0, true);
    assert x[0..8] == x && z[0..8] == z;
  }

  /** Scalars that lie one after the other. */
  ghost predicate Apart(c: config, leaves: seq<Leaf>, host: bool)
  {
    forall i, j :: 0 <= i < j < |leaves| ==>
      leaves[i].On(host) + ScalarSize(c, leaves[i].code, host) <= leaves[j].On(host)
  }

  lemma ApartAppend(c: config, a: seq<Leaf>, b: seq<Leaf>, dt: nat, dh: nat, host: bool)
    requires Apart(c, a, host) && Apart(c, b, host)
    requires Inside(c, a, dt, dh)
    ensures Apart(c, a + Shift(b, dt, dh), host)
  {
  }

  /** Pieces end before later pieces begin. */
  ghost predicate Ordered(c: config, pieces: seq<Piece>) {
    forall j: nat, k: nat :: j < k < |pieces| ==> Inside(c, pieces[j].Shifted(), pieces[k].target, pieces[k].host)
  }

  lemma {:induction false} JoinedApart(c: config, pieces: seq<Piece>, n: nat, host: bool)
    requires n <= |pieces| && Ordered(c, pieces) && forall k: nat :: k < n ==> Apart(c, pieces[k].leaves, host)
    ensures Apart(c, Joined(pieces, n), host)
  {
    if n > 0 {
      var last := pieces[n - 1];
      JoinedApart(c, pieces, n - 1, host);
      JoinedInside(c, pieces, n - 1, last.target, last.host);
      ApartAppend(c, Joined(pieces, n - 1), last.leaves, last.target, last.host, host);
    }
  }

  /** The scalars of an object do not overlap, on either side. */
  lemma {:induction false} LeavesApart(c: config, t: Ty, host: bool)
    requires Sound(t)
    ensures Apart(c, Leaves(c, t), host)
    decreases t
  {
    if !t.Scalar? {
      var pieces := Pieces(c, t);
      forall k: nat | k < Parts(t) ensures Apart(c, pieces[k].leaves, host) {
        LeavesApart(c, Part(t, k), host);
      }
      forall j: nat, k: nat | j < k < Parts(t)
        ensures Inside(c, pieces[j].Shifted(), pieces[k].target, pieces[k].host)
      {
        PieceInside(c, t, j, k);
      }
      JoinedApart(c, pieces, Parts(t), host);
    }
  }
}
