/** Collecting the argument and environment strings of a program (copy_elf_strings in linux-user/elfload.c).

    The strings are copied backwards, from the end of an arena of 33 pages, and its pages are allocated as they
    are reached. */
module ArgStrings {
  import opened Common
  import opened Words
  import opened PageTable

  const MAX_ARG_PAGES := 33
  const ARENA := 0x2_1000

  /** A string with its terminating zero byte. */
  predicate Terminated(s: seq<byte>) {
    s != [] && s[|s| - 1] == 0 && forall i :: 0 <= i < |s| - 1 ==> s[i] != 0
  }

  type cstring = s: seq<byte> | Terminated(s) witness [0]

  /** Strings one after the other, each with its zero byte. */
  function Flat(strings: seq<cstring>): seq<byte> {
    if strings == [] then [] else strings[0] + Flat(strings[1..])
  }

  lemma {:induction false} FlatAppend(a: seq<cstring>, b: seq<cstring>)
    ensures Flat(a + b) == Flat(a) + Flat(b)
  {
    if a == [] {
      assert a + b == b;
    } else {
      assert (a + b)[1..] == a[1..] + b;
      FlatAppend(a[1..], b);
    }
  }

  /** Every string lies where the strings before it end. */
  lemma {:induction false} FlatAt(strings: seq<cstring>, i: nat)
    requires i < |strings|
    ensures |Flat(strings[..i])| + |strings[i]| == |Flat(strings[..i + 1])| <= |Flat(strings)|
    ensures Flat(strings)[|Flat(strings[..i])|..|Flat(strings[..i + 1])|] == strings[i]
  {
    assert strings[..i + 1] == strings[..i] + [strings[i]];
    assert strings == strings[..i + 1] + strings[i + 1..];
    FlatAppend(strings[..i], [strings[i]]);
    FlatAppend(strings[..i + 1], strings[i + 1..]);
    assert Flat([strings[i]]) == strings[i] + [];
  }

  /** The number of strings to leave out at the beginning for the rest to fit into n bytes. */
  function Fitting(strings: seq<cstring>, n: nat): (k: nat)
    ensures k <= |strings| && |Flat(strings[k..])| <= n
    ensures k > 0 ==> |Flat(strings[k - 1..])| > n
  {
    if strings == [] || |Flat(strings)| <= n then
      assert strings[0..] == strings;
      0
    else
      var k := Fitting(strings[1..], n);
      assert strings[k + 1..] == strings[1..][k..] && (k > 0 ==> strings[k..] == strings[1..][k - 1..]);
      assert strings[0..] == strings;
      k + 1
  }

  lemma {:induction false} FlatSuffix(strings: seq<cstring>, i: nat)
    requires i <= |strings|
    ensures |Flat(strings[i..])| <= |Flat(strings)|
  {
    assert strings == strings[..i] + strings[i..];
    FlatAppend(strings[..i], strings[i..]);
  }

  lemma FittingIs(strings: seq<cstring>, i: nat, n: nat)
    requires i <= |strings| && |Flat(strings[i..])| <= n && (i > 0 ==> |Flat(strings[i - 1..])| > n)
    ensures Fitting(strings, n) == i
  {
    var k := Fitting(strings, n);
    if k < i {
      assert strings[k..][i - 1 - k..] == strings[i - 1..];
      FlatSuffix(strings[k..], i - 1 - k);
    } else if i < k {
      assert strings[i..][k - 1 - i..] == strings[k - 1..];
      FlatSuffix(strings[i..], k - 1 - i);
    }
  }

  lemma FlatFrom(strings: seq<cstring>, i: nat)
    requires i < |strings|
    ensures Flat(strings[i..]) == strings[i] + Flat(strings[i + 1..])
  {
    assert strings[i..][1..] == strings[i + 1..];
  }

  lemma NoRoom(strings: seq<cstring>, i: nat, n: nat)
    requires i < |strings| && |Flat(strings[i + 1..])| <= n < |Flat(strings[i..])|
    ensures Fitting(strings, n) == i + 1 && |Flat(strings)| > n
  {
    FittingIs(strings, i + 1, n);
    FlatSuffix(strings, i);
  }

  lemma AllFit(strings: seq<cstring>, n: nat)
    requires |Flat(strings)| <= n
    ensures Fitting(strings, n) == 0 && strings[0..] == strings
  {
    assert strings[0..] == strings;
    FittingIs(strings, 0, n);
  }

  class Arena {
    const page: array<array?<byte>>
    ghost var repr: set<array<byte>>

    /** The allocated pages have their size and do not overlap. */
    ghost predicate Valid()
      reads this, page, repr
    {
      && page.Length == MAX_ARG_PAGES
      && (forall k :: 0 <= k < MAX_ARG_PAGES && page[k] != null ==> page[k] in repr && page[k].Length == PAGE_SIZE)
      && (forall j, k :: 0 <= j < k < MAX_ARG_PAGES && page[j] != null ==> page[j] != page[k])
    }

    /** The byte at a position; pages not allocated yet are zero. */
    ghost function At(a: nat): byte
      requires Valid() && a < ARENA
      reads this, page, repr
    {
      if page[a / PAGE_SIZE] == null then 0 else page[a / PAGE_SIZE][a % PAGE_SIZE]
    }

    constructor ()
      ensures Valid() && fresh(page) && repr == {} && forall a: nat :: a < ARENA ==> At(a) == 0
    {
      page := new array?<byte>[MAX_ARG_PAGES](i => null);
      repr := {};
    }

    /** The buffer for a page, allocated and cleared if necessary. */
    method Fetch(k: nat) returns (pag: array<byte>)
      requires Valid() && k < MAX_ARG_PAGES
      modifies this`repr, page
      ensures Valid() && pag == page[k] && fresh(repr - old(repr))
      ensures forall a: nat :: a < ARENA ==> At(a) == old(At(a))
    {
      if page[k] == null {
        var cleared := new byte[PAGE_SIZE](i => 0);
        page[k] := cleared;
        repr := repr + {cleared};
      }
      pag := page[k];
    }

    /** Copies bytes into a page. */
    method Store(pag: array<byte>, offset: nat, bytes: seq<byte>, ghost k: nat)
      requires Valid() && k < MAX_ARG_PAGES && page[k] == pag && offset + |bytes| <= PAGE_SIZE
      modifies pag
      ensures Valid()
      ensures forall a: nat :: a < ARENA ==>
                At(a) == if 0 <= a - (k * PAGE_SIZE + offset) < |bytes| then bytes[a - (k * PAGE_SIZE + offset)]
                    else old(At(a))
    {
      forall i | 0 <= i < |bytes| {
        pag[offset + i] := bytes[i];
      }
      forall a: nat | a < ARENA
        ensures At(a) == if 0 <= a - (k * PAGE_SIZE + offset) < |bytes| then bytes[a - (k * PAGE_SIZE + offset)]
                else old(At(a))
      {
        Place(a, k, offset, |bytes|);
      }
    }

    /** Inside a page, the buffer and the offset are those of position p. */
    ghost predicate Linked(p: nat, offset: nat, pag: array?<byte>)
      reads page
    {
      offset > 0 ==>
        && p < ARENA && offset == p % PAGE_SIZE
        && page.Length == MAX_ARG_PAGES && pag == page[p / PAGE_SIZE] && pag != null
    }

    /** One round of the copying loop: moves back by at least one byte, up to the beginning of the page. */
    method CopyStep(s: seq<byte>, p0: nat, len0: nat, offset0: nat, pag0: array?<byte>)
      returns (p: nat, len: nat, offset: nat, pag: array?<byte>)
      requires Valid() && 0 < len0 <= |s| && len0 <= p0 <= ARENA && Linked(p0, offset0, pag0)
      modifies this`repr, page, repr
      ensures Valid() && fresh(repr - old(repr)) && len < len0 && p == p0 - (len0 - len) && Linked(p, offset, pag)
      ensures forall a: nat :: a < ARENA ==> At(a) == if p <= a < p0 then s[len + (a - p)] else old(At(a))
    {
      p, len := p0 - 1, len0 - 1;
      var back := offset0 - 1;
      pag := pag0;
      if back < 0 {
        back := p % PAGE_SIZE;
        pag := Fetch(p / PAGE_SIZE);
      }
      offset := back;
      if len == 0 || offset == 0 {
        StoreByte(pag, p, s[len]);
      } else {
        var bytes := if len > offset then offset else len;
        p, len, offset := p - bytes, len - bytes, offset - bytes;
        StoreBlock(pag, p, offset, s[len..len + bytes + 1]);
      }
    }

    /** Stores one byte at its place in the current page. */
    method StoreByte(pag: array<byte>, p: nat, b: byte)
      requires Valid() && p < ARENA && page[p / PAGE_SIZE] == pag
      modifies pag
      ensures Valid() && forall a: nat :: a < ARENA ==> At(a) == if a == p then b else old(At(a))
    {
      Store(pag, p % PAGE_SIZE, [b], p / PAGE_SIZE);
    }

    /** Stores several bytes, which end within the current page. */
    method StoreBlock(pag: array<byte>, p: nat, offset: nat, bytes: seq<byte>)
      requires Valid() && p < ARENA && offset == p % PAGE_SIZE && page[p / PAGE_SIZE] == pag
      requires offset + |bytes| <= PAGE_SIZE
      modifies pag
      ensures Valid()
      ensures forall a: nat :: a < ARENA ==> At(a) == if 0 <= a - p < |bytes| then bytes[a - p] else old(At(a))
    {
      Store(pag, offset, bytes, p / PAGE_SIZE);
    }

    /** Copies one string in front of what is there. */
    method CopyString(s: cstring, p0: nat, offset0: nat, pag0: array?<byte>)
      returns (p: nat, offset: nat, pag: array?<byte>)
      requires Valid() && |s| <= p0 <= ARENA && Linked(p0, offset0, pag0)
      modifies this`repr, page, repr
      ensures Valid() && fresh(repr - old(repr)) && p == p0 - |s| && Linked(p, offset, pag)
      ensures forall a: nat :: a < ARENA ==> At(a) == if p <= a < p0 then s[a - p] else old(At(a))
    {
      p, offset, pag := p0, offset0, pag0;
      var len := |s|;
      while len > 0
        invariant 0 <= len <= |s| && p == p0 - (|s| - len) && Linked(p, offset, pag)
        invariant Valid() && fresh(repr - old(repr))
        invariant forall a: nat :: a < ARENA ==> At(a) == if p <= a < p0 then s[len + (a - p)] else old(At(a))
        decreases len
      {
        p, len, offset, pag := CopyStep(s, p, len, offset, pag);
      }
    }

    /** Copies strings so that they end at position p0 and lie there one after the other, in order.  The result is
        where the first one begins, or 0 if they do not fit; then only the last ones have been copied. */
    method CopyStrings(strings: seq<cstring>, p0: nat) returns (p: nat)
      requires Valid() && p0 <= ARENA
      modifies this`repr, page, repr
      ensures Valid() && fresh(repr - old(repr))
      ensures p == if |Flat(strings)| <= p0 then p0 - |Flat(strings)| else 0
      ensures p0 > 0 ==>
                var bytes := Flat(strings[Fitting(strings, p0)..]);
                forall a: nat :: a < ARENA ==>
                  At(a) == if p0 - |bytes| <= a < p0 then bytes[a - (p0 - |bytes|)] else old(At(a))
      ensures p0 == 0 ==> forall a: nat :: a < ARENA ==> At(a) == old(At(a))
    {
      if p0 == 0 {
        return 0;
      }
      var argc, offset, pag := |strings|, 0, null;
      p := p0;
      ghost var bytes: seq<byte> := [];
      while argc > 0
        invariant 0 <= argc <= |strings| && bytes == Flat(strings[argc..]) && p == p0 - |bytes|
                  && Linked(p, offset, pag)
        invariant Valid() && fresh(repr - old(repr))
        invariant forall a: nat :: a < ARENA ==> At(a) == if p <= a < p0 then bytes[a - p] else old(At(a))
      {
        argc := argc - 1;
        var s := strings[argc];
        FlatFrom(strings, argc);
        if p < |s| {
          NoRoom(strings, argc, p0);
          return 0;
        }
        p, offset, pag := CopyString(s, p, offset, pag);
        bytes := s + bytes;
      }
      AllFit(strings, p0);
    }

    /** Copying strings that fit. */
    method CopyAll(strings: seq<cstring>, p0: nat) returns (p: nat)
      requires Valid() && p0 <= ARENA
      modifies this`repr, page, repr
      ensures Valid() && fresh(repr - old(repr))
      ensures p == if |Flat(strings)| < p0 then p0 - |Flat(strings)| else 0
      ensures p > 0 ==> forall a: nat :: a < ARENA ==> At(a) == if p <= a < p0 then Flat(strings)[a - p] else old(At(a))
    {
      p := CopyStrings(strings, p0);
      if p > 0 { AllFit(strings, p0); }
    }
  }

  lemma Place(a: nat, k: nat, offset: nat, n: nat)
    requires offset + n <= PAGE_SIZE
    ensures 0 <= a - (k * PAGE_SIZE + offset) < n <==> a / PAGE_SIZE == k && offset <= a % PAGE_SIZE < offset + n
    ensures a / PAGE_SIZE == k ==> a - (k * PAGE_SIZE + offset) == a % PAGE_SIZE - offset
  {
    if 0 <= a - (k * PAGE_SIZE + offset) < n {
      DivModUnique(a, PAGE_SIZE, k, a - k * PAGE_SIZE);
    }
  }

  /** The strings of a program from the lowest position on: its arguments, its environment, its name. */
  function AllStrings(filename: cstring, argv: seq<cstring>, envp: seq<cstring>): seq<byte> {
    Flat(argv) + Flat(envp) + filename
  }

  /** Collects the name, the environment and the arguments, in this order, leaving out the last word of the
      arena.  The result is 0 if they do not fit. */
  method CollectStrings(filename: cstring, argv: seq<cstring>, envp: seq<cstring>) returns (arena: Arena, p: nat)
    ensures fresh(arena) && arena.Valid() && fresh(arena.page) && fresh(arena.repr)
    ensures var all := AllStrings(filename, argv, envp);
            && p == (if |all| < ARENA - 4 then ARENA - 4 - |all| else 0)
            && (p > 0 ==> forall a: nat :: p <= a < ARENA - 4 ==> arena.At(a) == all[a - p])
  {
    arena := new Arena();
    assert Flat([filename]) == filename + [];
    p := arena.CopyAll([filename], ARENA - 4);
    p := arena.CopyAll(envp, p);
    p := arena.CopyAll(argv, p);
  }
}
