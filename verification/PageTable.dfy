/** The guest page table (exec.c): a radix tree of page flags, allocated on demand.

    The number of pages, the number of levels and the size of the top level are parameters; every other level has
    1024 entries per node, and a page has 4096 bytes.  The tree itself works for any number of pages; the operations on
    ranges of addresses are those of a 32-bit target. */
module PageTable {
  import opened Words

  const PAGE_SIZE := 4096
  const L2_SIZE := 1024
  const PAGES := 0x10_0000      // of a 32-bit address space

  const PAGE_READ := 0x01
  const PAGE_WRITE := 0x02
  const PAGE_VALID := 0x08
  const PAGE_WRITE_ORG := 0x10

  /** Whether a flag, given as a power of two, is set. */
  predicate Has(flags: nat, flag: nat)
    requires flag > 0
  {
    flags / flag % 2 == 1
  }

  /** The flags are single bits of a number; x is that of PAGE_EXEC, and further bits follow. */
  lemma FlagBits(r: nat, w: nat, x: nat, v: nat, o: nat, more: nat)
    requires r < 2 && w < 2 && x < 2 && v < 2 && o < 2
    ensures var flags := r + 2 * w + 4 * x + 8 * v + 16 * o + 32 * more;
            && (Has(flags, PAGE_READ) <==> r == 1) && (Has(flags, PAGE_WRITE) <==> w == 1)
            && (Has(flags, PAGE_VALID) <==> v == 1) && (Has(flags, PAGE_WRITE_ORG) <==> o == 1)
  {
    var flags := r + 2 * w + 4 * x + 8 * v + 16 * o + 32 * more;
    BitOf(flags, PAGE_READ, 0, r, w + 2 * x + 4 * v + 8 * o + 16 * more);
    BitOf(flags, PAGE_WRITE, r, w, x + 2 * v + 4 * o + 8 * more);
    BitOf(flags, PAGE_VALID, r + 2 * w + 4 * x, v, o + 2 * more);
    BitOf(flags, PAGE_WRITE_ORG, r + 2 * w + 4 * x + 8 * v, o, more);
  }

  lemma BitOf(flags: nat, flag: nat, below: nat, bit: nat, above: nat)
    requires below < flag && bit < 2 && flags == (bit + 2 * above) * flag + below
    ensures Has(flags, flag) <==> bit == 1
  {
    DivModUnique(flags, flag, bit + 2 * above, below);
    SameParity(bit, above);
  }

  /** The flags stored for a request: a writable page is also marked as originally writable. */
  function Stored(flags: nat): nat {
    if Has(flags, PAGE_WRITE) then Or(flags, PAGE_WRITE_ORG) else flags
  }

  lemma StoredFlags(flags: nat)
    ensures Has(Stored(flags), PAGE_WRITE_ORG) <==> Has(flags, PAGE_WRITE) || Has(flags, PAGE_WRITE_ORG)
    ensures Has(Stored(flags), PAGE_READ) == Has(flags, PAGE_READ)
    ensures Has(Stored(flags), PAGE_WRITE) == Has(flags, PAGE_WRITE)
    ensures Has(Stored(flags), PAGE_VALID) == Has(flags, PAGE_VALID)
  {
    OrSixteen(flags);
    AddSixteen(flags);
  }

  lemma AddSixteen(x: nat)
    ensures (x + 16) / 16 == x / 16 + 1
    ensures (x + 16) / 8 % 2 == x / 8 % 2 && (x + 16) / 2 % 2 == x / 2 % 2 && (x + 16) % 2 == x % 2
  {
    assert (x + 16) / 8 == x / 8 + 2 && (x + 16) / 2 == x / 2 + 8;
    SameParity(x / 8, 1);
    SameParity(x / 2, 4);
    SameParity(x, 8);
  }

  lemma SameParity(y: nat, k: nat)
    ensures (y + 2 * k) % 2 == y % 2
  {
  }

  /** Or-ing in 16 sets that bit and keeps the four below. */
  lemma OrSixteen(x: nat)
    ensures Or(x, 16) == if x / 16 % 2 == 1 then x else x + 16
  {
    OrTwice(x, 8);
    OrTwice(x / 2, 4);
    OrTwice(x / 2 / 2, 2);
    OrTwice(x / 2 / 2 / 2, 1);
    OrBit(x / 2 / 2 / 2 / 2, 1);
  }

  lemma OrTwice(x: nat, y: nat)
    ensures Or(x, 2 * y) == 2 * Or(x / 2, y) + x % 2
  {
  }

  /** Rounds an address up to a page boundary, in 32-bit arithmetic. */
  function PageAlign(addr: word32): word32 {
    (addr + PAGE_SIZE - 1) % B32 / PAGE_SIZE * PAGE_SIZE
  }

  /** A range from the first page into the last page of the address space. */
  predicate WrapsToNothing(start: nat, end: nat) {
    start < PAGE_SIZE && end > B32 - PAGE_SIZE
  }

  /** The number of the page that begins at an address. */
  method PageAt(addr: word32, ghost index: nat) returns (i: nat)
    requires addr == Bytes(index)
    ensures i == index
  {
    BytesIs(index);
    PageNumber(index);
    i := addr / PAGE_SIZE;
  }

  /** A loop over "count" pages from page "page" on has done n of them. */
  ghost predicate Reached(addr: nat, left: nat, page: nat, n: nat, count: nat) {
    && n <= count && left == Bytes(count - n)
    && (left > 0 ==> addr == Bytes(page + n) && addr + left == Bytes(page) + Bytes(count))
  }

  /** One page further in such a loop. */
  method NextPage(addr: word32, left: word32, ghost page: nat, ghost n: nat, ghost count: nat)
    returns (addr': word32, left': word32)
    requires Reached(addr, left, page, n, count) && n < count && Bytes(page) + Bytes(count) <= B32
    ensures Reached(addr', left', page, n + 1, count)
  {
    left' := left - PAGE_SIZE;
    addr' := Plus32(addr, PAGE_SIZE);
  }

  /** A page overlaps a nonempty range of addresses. */
  predicate InRange(index: nat, start: nat, end: nat) {
    start / PAGE_SIZE <= index <= (end - 1) / PAGE_SIZE
  }

  /** That is, it contains one of them. */
  lemma Overlaps(index: nat, start: nat, end: nat)
    requires start < end
    ensures InRange(index, start, end) <==> exists a: nat :: start <= a < end && a / PAGE_SIZE == index
  {
    if InRange(index, start, end) {
      var a := if index == start / PAGE_SIZE then start else index * PAGE_SIZE;
      PageNumber(index);
      assert start <= a < end && a / PAGE_SIZE == index;
    }
  }

  /** The size of n pages, as a multiple of a literal. */
  function Bytes(n: nat): nat { n * 0x1000 }

  lemma BytesIs(n: nat)
    ensures Bytes(n) == n * PAGE_SIZE
  {
  }

  lemma PageNumber(n: nat)
    ensures n * PAGE_SIZE / PAGE_SIZE == n && n * PAGE_SIZE % PAGE_SIZE == 0
  {
  }

  /** The number of pages the loops over a range visit. */
  function RoundedPages(start: nat, end: nat): nat
    requires start < end
  {
    if WrapsToNothing(start, end) then 0 else (end - 1) / PAGE_SIZE + 1 - start / PAGE_SIZE
  }

  lemma RoundedLength(start: word32, end: nat)
    requires start < end <= B32
    ensures (PageAlign(end % B32) - start / PAGE_SIZE * PAGE_SIZE) % B32 == RoundedPages(start, end) * PAGE_SIZE
    ensures start / PAGE_SIZE + RoundedPages(start, end) <= PAGES
  {
    var page, next := start / PAGE_SIZE, (end - 1) / PAGE_SIZE + 1;
    AlignedValue(end);
    if next < PAGES {
      DivModUnique(next * PAGE_SIZE - page * PAGE_SIZE, B32, 0, (next - page) * PAGE_SIZE);
    } else if page > 0 {
      DivModUnique(-page * PAGE_SIZE, B32, -1, B32 - page * PAGE_SIZE);
    }
  }

  lemma AlignedValue(end: nat)
    requires 0 < end <= B32
    ensures var next := (end - 1) / PAGE_SIZE + 1;
            next <= PAGES && PageAlign(end % B32) == if next == PAGES then 0 else next * PAGE_SIZE
    ensures end > B32 - PAGE_SIZE <==> (end - 1) / PAGE_SIZE + 1 == PAGES
  {
    LastPage(end);
    if end == B32 {
      assert PageAlign(0) == 0;
    } else if end + PAGE_SIZE - 1 >= B32 {
      DivModUnique(end + PAGE_SIZE - 1, B32, 1, end + PAGE_SIZE - 1 - B32);
    } else {
      DivModUnique(end + PAGE_SIZE - 1, B32, 0, end + PAGE_SIZE - 1);
      assert (end + PAGE_SIZE - 1) / PAGE_SIZE == (end - 1) / PAGE_SIZE + 1;
    }
  }

  lemma LastPage(end: nat)
    requires 0 < end <= B32
    ensures (end - 1) / PAGE_SIZE + 1 <= PAGES
    ensures end > B32 - PAGE_SIZE <==> (end - 1) / PAGE_SIZE + 1 == PAGES
  {
  }

  /** A page number without its lowest digits in base 1024. */
  function Up(index: nat, level: nat): nat
    decreases level, index
  {
    if level == 0 then index else Up(index / L2_SIZE, level - 1)
  }

  lemma {:induction false} UpStep(index: nat, level: nat)
    ensures Up(index, level + 1) == Up(index, level) / L2_SIZE
    decreases level
  {
    if level > 0 { UpStep(index / L2_SIZE, level - 1); }
  }

  /** The way from the top of the tree to a node. */
  datatype Path = Top(i: nat) | Kid(parent: Path, i: nat)

  /** A node: page flags at level 0, pointers to nodes one level down elsewhere.  Its place in the tree is
      fixed when it is allocated. */
  class Node {
    ghost const path: Path
    var kids: seq<Node?>
    var flags: seq<nat>

    constructor (ghost path: Path)
      ensures this.path == path
      ensures kids == seq(L2_SIZE, i => null) && flags == seq(L2_SIZE, i => 0)
    {
      this.path := path;
      kids := seq(L2_SIZE, i => null);
      flags := seq(L2_SIZE, i => 0);
    }
  }

  /** The result of an access check; Abort ends the program. */
  datatype Outcome = Ok | Fault | Abort

  predicate AllPass(v: seq<Outcome>) {
    forall k :: 0 <= k < |v| ==> v[k] == Ok
  }

  /** The first n do. */
  ghost predicate Passed(v: seq<Outcome>, n: nat) {
    n <= |v| && forall k :: 0 <= k < n ==> v[k] == Ok
  }

  /** The address of a pointer to a node. */
  datatype Slot = TopSlot(k: nat) | KidSlot(node: Node, k: nat)

  class PageMap {
    const pageCount: nat
    const shift: nat          // number of levels below the top
    const l1Size: nat
    var top: seq<Node?>
    ghost var nodes: map<Path, Node>
    ghost var repr: set<Node>

    ghost function Get(path: Path): Node?
      reads this
    {
      if path in nodes then nodes[path] else null
    }

    /** Every pointer in a node leads to the node for its place, or is null if that node is not allocated. */
    ghost predicate NodeOk(n: Node)
      reads this, n
    {
      && |n.kids| == L2_SIZE == |n.flags|
      && (forall i: nat :: i < L2_SIZE ==> n.kids[i] == Get(Kid(n.path, i)))
    }

    ghost predicate TopOk()
      reads this
    {
      && shift > 0 && |top| == l1Size
      && (forall i: nat :: i < pageCount ==> Up(i, shift) < l1Size)
      && (forall i: nat :: i < l1Size ==> top[i] == Get(Top(i)))
    }

    /** Every node is recorded for its own place, and no node is allocated without its parent. */
    ghost predicate PlacesOk()
      reads this
    {
      && (forall p :: p in nodes ==> nodes[p] in repr && nodes[p].path == p)
      && (forall p :: p in nodes && p.Kid? ==> p.parent in nodes)
    }

    ghost predicate Sound()
      reads this, repr
    {
      TopOk() && PlacesOk() && forall p :: p in nodes ==> NodeOk(nodes[p])
    }

    /** The map of a 32-bit address space. */
    ghost predicate Valid()
      reads this, repr
    {
      Sound() && pageCount == PAGES
    }

    /** The way to the node of a given level that stands for the pages whose numbers start with "prefix". */
    ghost function PathFor(prefix: nat, level: nat): Path
      requires level < shift
      decreases shift - level
    {
      if level + 1 == shift then Top(prefix) else Kid(PathFor(prefix / L2_SIZE, level + 1), prefix % L2_SIZE)
    }

    /** The way to the node of a given level that a page belongs to. */
    ghost function PathOf(index: nat, level: nat): Path
      requires level < shift
      decreases shift - level
    {
      if level + 1 == shift then Top(Up(index, shift))
      else Kid(PathOf(index, level + 1), Up(index, level + 1) % L2_SIZE)
    }

    lemma PathOfPrefix(index: nat, level: nat)
      requires level < shift
      ensures PathOf(index, level) == PathFor(Up(index, level + 1), level)
      decreases shift - level
    {
      if level + 1 < shift {
        UpStep(index, level + 1);
        PathOfPrefix(index, level + 1);
      }
    }

    /** The flat map from page numbers to flags that the tree stands for. */
    ghost function Flags(index: nat): nat
      requires Sound()
      reads this, repr
    {
      var leaf := Get(PathOf(index, 0));
      if leaf == null then 0 else leaf.flags[index % L2_SIZE]
    }

    /** Different pages never share a descriptor. */
    lemma DescriptorsDistinct(i: nat, j: nat)
      requires shift > 0 && PathOf(i, 0) == PathOf(j, 0) && i % L2_SIZE == j % L2_SIZE
      ensures i == j
    {
      SamePath(i, j, 0);
    }

    lemma SamePath(i: nat, j: nat, level: nat)
      requires level < shift && PathOf(i, level) == PathOf(j, level)
      ensures Up(i, level + 1) == Up(j, level + 1)
      decreases shift - level
    {
      if level + 1 < shift {
        SamePath(i, j, level + 1);
        UpStep(i, level + 1);
        UpStep(j, level + 1);
      }
    }

    constructor (pageCount: nat, shift: nat, l1Size: nat)
      requires shift > 0 && forall i: nat :: i < pageCount ==> Up(i, shift) < l1Size
      ensures this.pageCount == pageCount && this.shift == shift && this.l1Size == l1Size
      ensures Sound() && repr == {} && forall i: nat :: Flags(i) == 0
    {
      this.pageCount, this.shift, this.l1Size := pageCount, shift, l1Size;
      top := seq(l1Size, i => null);
      nodes, repr := map[], {};
    }

    /** A page without a node at some level has no leaf. */
    lemma NothingBelow(index: nat, level: nat)
      requires PlacesOk() && level < shift && PathOf(index, level) !in nodes
      ensures PathOf(index, 0) !in nodes
    {
      if level > 0 { NothingBelow(index, level - 1); }
    }

    /** The slot holds the pointer to the node at a place. */
    ghost predicate SlotFor(s: Slot, path: Path)
      reads this
    {
      match s
      case TopSlot(k) => path == Top(k) && k < l1Size
      case KidSlot(n, k) => path == Kid(n.path, k) && k < L2_SIZE && Get(n.path) == n
    }

    method Load(slot: Slot, ghost path: Path) returns (p: Node?)
      requires Sound() && SlotFor(slot, path)
      ensures p == Get(path)
    {
      match slot {
        case TopSlot(k) => p := top[k];
        case KidSlot(n, k) => p := n.kids[k];
      }
    }

    /** Allocates a node full of zeros behind a null pointer. */
    method Allocate(slot: Slot, ghost path: Path) returns (p: Node)
      requires Sound() && SlotFor(slot, path) && path !in nodes
      modifies this`top, this`nodes, this`repr, repr`kids
      ensures Sound() && p == Get(path) && fresh(p) && repr == old(repr) + {p}
      ensures nodes == old(nodes)[path := p]
      ensures forall i: nat :: Flags(i) == old(Flags(i))
    {
      p := new Node(path);
      Attach(slot, p);
    }

    /** Stores the pointer to a new node. */
    method Attach(slot: Slot, p: Node)
      requires Sound() && SlotFor(slot, p.path) && p.path !in nodes && p !in repr
      requires p.kids == seq(L2_SIZE, i => null) && p.flags == seq(L2_SIZE, i => 0)
      modifies this`top, this`nodes, this`repr, repr`kids
      ensures nodes == old(nodes)[p.path := p] && repr == old(repr) + {p}
      ensures Sound()
    {
      match slot {
        case TopSlot(k) => top := top[k := p];
        case KidSlot(n, k) => n.kids := n.kids[k := p];
      }
      nodes, repr := nodes[p.path := p], repr + {p};
      forall q | q in nodes ensures NodeOk(nodes[q]) {
        if q != p.path {
          assert old(NodeOk(nodes[q]));
        }
      }
    }

    /** The node behind a pointer, allocated first if it is missing and that is asked for. */
    method LoadOrAllocate(slot: Slot, alloc: bool, ghost path: Path) returns (p: Node?)
      requires Sound() && SlotFor(slot, path)
      modifies (if alloc then {this} else {})`top, (if alloc then {this} else {})`nodes
      modifies (if alloc then {this} else {})`repr, (if alloc then repr else {})`kids
      ensures Sound() && p == Get(path) && fresh(repr - old(repr))
      ensures alloc ==> p != null
      ensures forall i: nat :: Flags(i) == old(Flags(i))
    {
      p := Load(slot, path);
      if p == null && alloc {
        p := Allocate(slot, path);
      }
    }

    /** Finds the leaf that holds the flags of a page; on request, allocates it with everything above it. */
    method FindAlloc(index: nat, alloc: bool) returns (leaf: Node?)
      requires Sound() && index < pageCount
      modifies (if alloc then {this} else {})`top, (if alloc then {this} else {})`nodes
      modifies (if alloc then {this} else {})`repr, (if alloc then repr else {})`kids
      ensures Sound() && leaf == Get(PathOf(index, 0)) && fresh(repr - old(repr))
      ensures alloc ==> leaf != null
      ensures forall i: nat :: Flags(i) == old(Flags(i))
    {
      var found, slot := FindLeafSlot(index, alloc);
      if !found {
        return null;
      }
      leaf := LoadOrAllocate(slot, alloc, PathOf(index, 0));
    }

    /** The entry of the top level for a page. */
    method TopSlotOf(index: nat) returns (slot: Slot)
      requires Sound() && index < pageCount
      ensures SlotFor(slot, PathOf(index, shift - 1))
    {
      assert Up(index, shift) < l1Size;
      DivModUnique(Up(index, shift), l1Size, 0, Up(index, shift));
      slot := TopSlot(Up(index, shift) % l1Size);
    }

    /** The pointer to the leaf of a page, unless a node above it is missing. */
    method FindLeafSlot(index: nat, alloc: bool) returns (found: bool, slot: Slot)
      requires Sound() && index < pageCount
      modifies (if alloc then {this} else {})`top, (if alloc then {this} else {})`nodes
      modifies (if alloc then {this} else {})`repr, (if alloc then repr else {})`kids
      ensures Sound() && fresh(repr - old(repr))
      ensures found ==> SlotFor(slot, PathOf(index, 0))
      ensures !found ==> !alloc && PathOf(index, 0) !in nodes
      ensures forall i: nat :: Flags(i) == old(Flags(i))
    {
      found := true;
      slot := TopSlotOf(index);
      var i := shift - 1;
      while i > 0 && found
        invariant 0 <= i < shift && Sound() && fresh(repr - old(repr))
        invariant found ==> SlotFor(slot, PathOf(index, i))
        invariant !found ==> !alloc && PathOf(index, 0) !in nodes
        invariant forall i: nat :: Flags(i) == old(Flags(i))
      {
        found, slot := Descend(slot, Up(index, i) % L2_SIZE, alloc, index, i);
        i := i - 1;
      }
      assert found ==> PathOf(index, i) == PathOf(index, 0);
    }

    /** One level down. */
    method Descend(slot: Slot, k: nat, alloc: bool, ghost index: nat, ghost level: nat)
      returns (found: bool, next: Slot)
      requires Sound() && 0 < level < shift && SlotFor(slot, PathOf(index, level)) && k == Up(index, level) % L2_SIZE
      modifies (if alloc then {this} else {})`top, (if alloc then {this} else {})`nodes
      modifies (if alloc then {this} else {})`repr, (if alloc then repr else {})`kids
      ensures Sound() && fresh(repr - old(repr))
      ensures found ==> SlotFor(next, PathOf(index, level - 1))
      ensures !found ==> !alloc && PathOf(index, 0) !in nodes
      ensures forall i: nat :: Flags(i) == old(Flags(i))
    {
      var p := LoadOrAllocate(slot, alloc, PathOf(index, level));
      if p == null {
        NothingBelow(index, level);
        return false, slot;
      }
      return true, KidSlot(p, k);
    }

    method GetFlags(address: word32) returns (flags: nat)
      requires Valid()
      ensures flags == Flags(address / PAGE_SIZE)
    {
      var p := FindAlloc(address / PAGE_SIZE, false);
      if p == null {
        return 0;
      }
      flags := p.flags[address / PAGE_SIZE % L2_SIZE];
    }

    /** Sets the flags of one page. */
    method SetPage(index: nat, flags: nat)
      requires Sound() && index < pageCount
      modifies this, repr
      ensures Sound() && fresh(repr - old(repr))
      ensures forall i: nat :: Flags(i) == if i == index then flags else old(Flags(i))
    {
      var p := FindAlloc(index, true);
      label found:
      p.flags := p.flags[index % L2_SIZE := flags];
      forall i: nat ensures Flags(i) == if i == index then flags else old@found(Flags(i)) {
        if PathOf(i, 0) == PathOf(index, 0) && i % L2_SIZE == index % L2_SIZE {
          DescriptorsDistinct(i, index);
        }
      }
    }

    /** The pages that overlap a range of addresses get the flags, and no others - unless the range reaches from
        the first page into the last one, when the rounded length wraps around to nothing. */
    method SetFlags(start: word32, end: word32, flags: nat)
      requires Valid() && start < end
      modifies this, repr
      ensures Valid() && fresh(repr - old(repr))
      ensures forall i: nat ::
                Flags(i) == (if InRange(i, start, end) && !WrapsToNothing(start, end) then Stored(flags)
                    else old(Flags(i)))
    {
      var f := Stored(flags);
      var first := start / PAGE_SIZE * PAGE_SIZE;
      RoundedLength(start, end);
      RangeInBytes(start / PAGE_SIZE, RoundedPages(start, end));
      SetAligned(first, (PageAlign(end) - first) % B32, f, start / PAGE_SIZE, RoundedPages(start, end));
    }

    lemma RangeInBytes(page: nat, count: nat)
      requires page + count <= PAGES
      ensures page * PAGE_SIZE == Bytes(page) && count * PAGE_SIZE == Bytes(count) && Bytes(page) + Bytes(count) <= B32
    {
      BytesIs(page);
      BytesIs(count);
    }

    /** The loop of SetFlags, over "count" pages from page "page" on. */
    method SetAligned(start: word32, length: word32, flags: nat, ghost page: nat, ghost count: nat)
      requires Valid() && start == Bytes(page) && length == Bytes(count) && page + count <= PAGES
      requires start + length <= B32
      modifies this, repr
      ensures Valid() && fresh(repr - old(repr))
      ensures forall i: nat :: Flags(i) == if page <= i < page + count then flags else old(Flags(i))
    {
      var addr: nat, len: nat := start, length;
      ghost var n: nat := 0;
      while len != 0
        invariant Reached(addr, len, page, n, count)
        invariant Valid() && fresh(repr - old(repr))
        invariant forall i: nat :: Flags(i) == if page <= i < page + n then flags else old(Flags(i))
        decreases len
      {
        var index := PageAt(addr, page + n);
        SetPage(index, flags);
        addr, len := NextPage(addr, len, page, n, count);
        n := n + 1;
      }
    }

    /** Whether a page is valid, and readable if that is asked for. */
    ghost predicate PageOk(index: nat, flags: nat)
      requires Sound()
      reads this, repr
    {
      Has(Flags(index), PAGE_VALID) && (Has(flags, PAGE_READ) ==> Has(Flags(index), PAGE_READ))
    }

    /** What a write check makes of a page: one that is only temporarily read-only cannot be unprotected, since
        invalidating its code aborts the program. */
    ghost function WriteOutcome(index: nat, flags: nat): Outcome
      requires Sound()
      reads this, repr
    {
      if !PageOk(index, flags) || !Has(Flags(index), PAGE_WRITE_ORG) then Fault
      else if !Has(Flags(index), PAGE_WRITE) then Abort
      else Ok
    }

    /** Checks one page. */
    method CheckPage(index: nat, flags: nat) returns (r: Outcome)
      requires Sound() && index < pageCount
      ensures !Has(flags, PAGE_WRITE) ==> r == if PageOk(index, flags) then Ok else Fault
      ensures Has(flags, PAGE_WRITE) ==> r == WriteOutcome(index, flags)
    {
      var p := FindAlloc(index, false);
      if p == null {
        return Fault;
      }
      var has := p.flags[index % L2_SIZE];
      if !Has(has, PAGE_VALID) || (Has(flags, PAGE_READ) && !Has(has, PAGE_READ)) {
        return Fault;
      }
      if Has(flags, PAGE_WRITE) {
        if !Has(has, PAGE_WRITE_ORG) {
          return Fault;
        }
        return if !Has(has, PAGE_WRITE) then Abort else Ok;
      }
      return Ok;
    }

    /** All pages that overlap a range are as asked for. */
    ghost predicate RangeOk(start: nat, end: nat, flags: nat)
      requires Sound() && start < end
      reads this, repr
    {
      forall i: nat :: InRange(i, start, end) ==> PageOk(i, flags)
    }

    /** What a check makes of one page. */
    ghost function Verdict(index: nat, flags: nat): Outcome
      requires Sound()
      reads this, repr
    {
      if Has(flags, PAGE_WRITE) then WriteOutcome(index, flags) else if PageOk(index, flags) then Ok else Fault
    }

    ghost predicate Verdicts(v: seq<Outcome>, page: nat, flags: nat)
      requires Sound()
      reads this, repr
    {
      forall k: nat :: k < |v| ==> v[k] == Verdict(page + k, flags)
    }

    /** A check without write access succeeds if the range is empty, or does not wrap around and all its pages
        are as asked for - or, wrongly, if it reaches from the first page into the last one.  A check for
        write access looks at the first page only. */
    method CheckRange(start: word32, len: word32, flags: nat) returns (r: Outcome)
      requires Valid()
      ensures len == 0 ==> r == Ok
      ensures len > 0 && start + len > B32 ==> r == Fault
      ensures len > 0 && start + len <= B32 && WrapsToNothing(start, start + len) ==> r == Ok
      ensures len > 0 && start + len <= B32 && !WrapsToNothing(start, start + len) ==>
                if Has(flags, PAGE_WRITE) then r == WriteOutcome(start / PAGE_SIZE, flags)
                else r == Ok <==> RangeOk(start, start + len, flags)
      ensures len > 0 && start + len <= B32 && !WrapsToNothing(start, start + len) && Has(flags, PAGE_WRITE) ==>
                var f := Flags(start / PAGE_SIZE);
                var asked := Has(f, PAGE_VALID) && (Has(flags, PAGE_READ) ==> Has(f, PAGE_READ));
                && (r == Fault <==> !asked || !Has(f, PAGE_WRITE_ORG))
                && (r == Abort <==> asked && Has(f, PAGE_WRITE_ORG) && !Has(f, PAGE_WRITE))
    {
      if len == 0 {
        return Ok;
      }
      WrapTest(start, len);
      if (start + len - 1) % B32 < start {
        return Fault;
      }
      ghost var page, count := start / PAGE_SIZE, RoundedPages(start, start + len);
      ghost var v := seq(count, k requires 0 <= k reads this, repr requires Sound() => Verdict(page + k, flags));
      AllInRange(v, start, start + len, flags);
      r := CheckPages(start, len, flags, v);
    }

    /** Checks the pages of a range that does not wrap around, of which "v" are the verdicts. */
    method CheckPages(start: word32, len: word32, flags: nat, ghost v: seq<Outcome>) returns (r: Outcome)
      requires Valid() && len > 0 && start + len <= B32
      requires |v| == RoundedPages(start, start + len) && Verdicts(v, start / PAGE_SIZE, flags)
      ensures |v| == 0 ==> r == Ok
      ensures |v| > 0 && Has(flags, PAGE_WRITE) ==> r == v[0]
      ensures !Has(flags, PAGE_WRITE) ==> (r == Ok <==> AllPass(v))
    {
      var first := start / PAGE_SIZE * PAGE_SIZE;
      RoundedLength(start, start + len);
      RangeInBytes(start / PAGE_SIZE, |v|);
      r := CheckAligned(first, (PageAlign((start + len) % B32) - first) % B32, flags, start / PAGE_SIZE, v);
    }

    lemma WrapTest(start: word32, len: word32)
      requires len > 0
      ensures (start + len - 1) % B32 < start <==> start + len > B32
    {
      if start + len > B32 {
        DivModUnique(start + len - 1, B32, 1, start + len - 1 - B32);
      } else {
        DivModUnique(start + len - 1, B32, 0, start + len - 1);
      }
    }

    lemma AllInRange(v: seq<Outcome>, start: nat, end: nat, flags: nat)
      requires Sound() && start < end && |v| == RoundedPages(start, end) && Verdicts(v, start / PAGE_SIZE, flags)
      ensures if WrapsToNothing(start, end) then v == [] else v != [] && v[0] == Verdict(start / PAGE_SIZE, flags)
      ensures !Has(flags, PAGE_WRITE) && !WrapsToNothing(start, end) ==> (AllPass(v) <==> RangeOk(start, end, flags))
    {
      if !Has(flags, PAGE_WRITE) && !WrapsToNothing(start, end) {
        if AllPass(v) {
          forall i: nat | InRange(i, start, end) ensures PageOk(i, flags) {
            assert v[i - start / PAGE_SIZE] == Verdict(i, flags);
          }
        }
        if RangeOk(start, end, flags) {
          forall k | 0 <= k < |v| ensures v[k] == Ok {
            assert InRange(start / PAGE_SIZE + k, start, end);
          }
        }
      }
    }

    /** The loop of CheckRange over the pages from page "page" on, of which "v" are the verdicts. */
    method CheckAligned(start: word32, length: word32, flags: nat, ghost page: nat, ghost v: seq<Outcome>)
      returns (r: Outcome)
      requires Valid() && start == Bytes(page) && length == Bytes(|v|) && page + |v| <= PAGES
      requires start + length <= B32 && Verdicts(v, page, flags)
      ensures |v| == 0 ==> r == Ok
      ensures |v| > 0 && Has(flags, PAGE_WRITE) ==> r == v[0]
      ensures !Has(flags, PAGE_WRITE) ==> (r == Ok <==> AllPass(v))
    {
      var addr: nat, left: nat := start, length;
      ghost var n: nat := 0;
      while left != 0
        invariant Reached(addr, left, page, n, |v|) && Passed(v, n) && (Has(flags, PAGE_WRITE) ==> n == 0)
        decreases left
      {
        var last;
        r, last, addr, left := CheckStep(addr, left, flags, page, v, n);
        if last {
          return r;
        }
        n := n + 1;
      }
      return Ok;
    }

    /** Checks the next page and goes one further. */
    method CheckStep(addr: word32, left: word32, flags: nat, ghost page: nat, ghost v: seq<Outcome>, ghost n: nat)
      returns (r: Outcome, last: bool, addr': word32, left': word32)
      requires Valid() && Verdicts(v, page, flags) && Reached(addr, left, page, n, |v|) && Passed(v, n)
      requires left != 0 && Bytes(page) + Bytes(|v|) <= B32
      ensures n < |v| && r == v[n] && (last <==> r != Ok || Has(flags, PAGE_WRITE)) && left' < left
      ensures Reached(addr', left', page, n + 1, |v|) && (!last ==> Passed(v, n + 1))
    {
      r, last := CheckNext(addr, flags, page, v, n);
      addr', left' := NextPage(addr, left, page, n, |v|);
    }

    /** Checks the page at an address; it is the last one to be checked if it fails or if write access is asked for. */
    method CheckNext(addr: word32, flags: nat, ghost page: nat, ghost v: seq<Outcome>, ghost n: nat)
      returns (r: Outcome, last: bool)
      requires Valid() && Verdicts(v, page, flags) && n < |v| && addr == Bytes(page + n)
      ensures r == v[n] && (last <==> r != Ok || Has(flags, PAGE_WRITE))
    {
      var index := PageAt(addr, page + n);
      r := CheckPage(index, flags);
      last := r != Ok || Has(flags, PAGE_WRITE);
    }
  }

  // ----- Where setting and checking a range go wrong -----

  /** Setting the flags of all but the last address changes nothing. */
  method SetsNothing(m: PageMap, flags: nat)
    requires m.Valid()
    modifies m, m.repr
    ensures m.Valid() && forall i: nat :: m.Flags(i) == old(m.Flags(i))
  {
    m.SetFlags(0, B32 - 1, flags);
  }

  /** All but the last address pass as readable though no page is mapped. */
  method PassesUnmapped(m: PageMap) returns (r: Outcome)
    requires m.Valid() && forall i: nat :: m.Flags(i) == 0
    ensures r == Ok && forall i: nat :: !m.PageOk(i, PAGE_READ)
  {
    r := m.CheckRange(0, B32 - 1, PAGE_READ);
  }

  /** Pages set without write access never pass for writing, nor do they end the program. */
  method ReadOnlyFaults(m: PageMap, start: word32, end: word32, given: nat, at: word32, len: word32, flags: nat)
    returns (r: Outcome)
    requires m.Valid() && start < end && !WrapsToNothing(start, end)
    requires !Has(given, PAGE_WRITE) && !Has(given, PAGE_WRITE_ORG) && Has(flags, PAGE_WRITE)
    requires start <= at && 0 < len && at + len <= end
    modifies m, m.repr
    ensures m.Valid() && r == Fault
  {
    m.SetFlags(start, end, given);
    assert InRange(at / PAGE_SIZE, start, end);
    StoredFlags(given);
    r := m.CheckRange(at, len, flags);
  }

  const WRITABLE := PAGE_READ + PAGE_WRITE + PAGE_VALID + PAGE_WRITE_ORG

  /** Within one page, a check for write access is right whatever is mapped ... */
  method CheckOnePage(m: PageMap, start: word32, len: word32, flags: nat) returns (r: Outcome)
    requires m.Valid() && Has(flags, PAGE_WRITE) && len > 0 && start / PAGE_SIZE == (start + len - 1) / PAGE_SIZE
    ensures r == Ok <==> forall i: nat :: InRange(i, start, start + len) ==> m.WriteOutcome(i, flags) == Ok
  {
    r := m.CheckRange(start, len, flags);
    assert InRange(start / PAGE_SIZE, start, start + len);
  }

  /** ... but a range of more than one page passes even if all pages behind the first are unmapped, ... */
  method PassesBehindFirst(m: PageMap, start: word32, len: word32) returns (r: Outcome)
    requires m.Valid() && m.Flags(start / PAGE_SIZE) == WRITABLE
    requires len > 0 && start + len <= B32
    ensures r == Ok
  {
    FlagsWritable();
    r := m.CheckRange(start, len, PAGE_READ + PAGE_WRITE);
  }

  lemma FlagsWritable()
    ensures Has(PAGE_READ + PAGE_WRITE, PAGE_WRITE) && Has(PAGE_READ + PAGE_WRITE, PAGE_READ) && !Has(0, PAGE_VALID)
    ensures Has(WRITABLE, PAGE_VALID) && Has(WRITABLE, PAGE_READ) && Has(WRITABLE, PAGE_WRITE)
    ensures Has(WRITABLE, PAGE_WRITE_ORG)
  {
  }

  /** ... so for every such range there is a table for which the check is wrong. */
  method WrongWriteCheck(shift: nat, l1Size: nat, start: word32, len: word32)
    returns (m: PageMap, r: Outcome, i: nat)
    requires shift > 0 && forall k: nat :: k < PAGES ==> Up(k, shift) < l1Size
    requires len > 0 && start + len <= B32 && start / PAGE_SIZE < (start + len - 1) / PAGE_SIZE
    ensures m.Valid() && r == Ok && InRange(i, start, start + len)
    ensures m.WriteOutcome(i, PAGE_READ + PAGE_WRITE) == Fault
  {
    var first := start / PAGE_SIZE;
    i := first + 1;
    m := new PageMap(PAGES, shift, l1Size);
    m.SetPage(first, WRITABLE);
    r := PassesBehindFirst(m, start, len);
    FlagsWritable();
  }
}
