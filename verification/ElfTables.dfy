/** The whole initial stack of a program (create_elf_tables in linux-user/elfload.c, with what comes before and
    after it). */
module ElfTables {
  import opened Words
  import opened PageTable
  import opened GuestAccess
  import opened ArgStrings
  import opened ArgTables

  const AT_NULL := 0
  const AT_PLATFORM := 15
  const DLINFO_ITEMS := 12

  /** An entry of the auxiliary vector. */
  datatype Aux = Aux(id: word32, val: word32)

  /** The entries lie in memory from an address on, the last one pushed first. */
  ghost predicate AuxAt(m: memory, addr: nat, entries: seq<Aux>)
    requires addr + 8 * |entries| <= B32
  {
    forall i: nat :: i < |entries| ==>
      && GetWord(m, addr + 8 * i) == entries[|entries| - 1 - i].id
      && GetWord(m, addr + 8 * i + 4) == entries[|entries| - 1 - i].val
  }

  lemma AuxKept(m: memory, m': memory, lo: nat, hi: nat, addr: nat, entries: seq<Aux>)
    requires SameOutside(m, m', lo, hi) && hi <= addr && addr + 8 * |entries| <= B32 && AuxAt(m, addr, entries)
    ensures AuxAt(m', addr, entries)
  {
    forall i: nat | i < |entries|
      ensures GetWord(m', addr + 8 * i) == entries[|entries| - 1 - i].id
      ensures GetWord(m', addr + 8 * i + 4) == entries[|entries| - 1 - i].val
    {
      WordKept(m, m', lo, hi, addr + 8 * i);
      WordKept(m, m', lo, hi, addr + 8 * i + 4);
    }
  }

  lemma AuxPushed(m: memory, addr: nat, entries: seq<Aux>, e: Aux)
    requires addr >= 8 && addr + 8 * |entries| <= B32 && AuxAt(m, addr, entries)
    requires GetWord(m, addr - 8) == e.id && GetWord(m, addr - 4) == e.val
    ensures AuxAt(m, addr - 8, entries + [e])
  {
    var all := entries + [e];
    forall i: nat | i < |all|
      ensures GetWord(m, addr - 8 + 8 * i) == all[|all| - 1 - i].id
      ensures GetWord(m, addr - 8 + 8 * i + 4) == all[|all| - 1 - i].val
    {
      if i > 0 {
        assert addr - 8 + 8 * i == addr + 8 * (i - 1);
        assert all[|all| - 1 - i] == entries[|entries| - 1 - (i - 1)];
      }
    }
  }

  /** Pushes one entry: the value, then the number. */
  method NewAuxEnt(g: Guest, sp0: nat, e: Aux, ghost pushed: seq<Aux>) returns (sp: nat)
    requires g.pages.Valid() && 8 <= sp0 && sp0 + 8 * |pushed| <= B32 && AllWritable(g, sp0 - 8, sp0)
    requires AuxAt(g.bytes, sp0, pushed)
    modifies g`bytes
    ensures sp == sp0 - 8 && AuxAt(g.bytes, sp, pushed + [e])
    ensures SameOutside(old(g.bytes), g.bytes, sp, sp0)
  {
    assert Writable(g, sp0 - 4) && Writable(g, sp0 - 8);
    PutWord(g, sp0 - 4, e.val);
    ghost var m := g.bytes;
    PutWord(g, sp0 - 8, e.id);
    sp := sp0 - 8;
    WordKept(m, g.bytes, sp, sp + 4, sp0 - 4);
    AuxKept(old(g.bytes), g.bytes, sp, sp0, sp0, pushed);
    AuxPushed(g.bytes, sp0, pushed, e);
  }

  /** Pushes entries one after the other. */
  method PushAux(g: Guest, sp0: nat, entries: seq<Aux>) returns (sp: nat)
    requires g.pages.Valid() && 8 * |entries| <= sp0 <= B32 && AllWritable(g, sp0 - 8 * |entries|, sp0)
    modifies g`bytes
    ensures sp == sp0 - 8 * |entries| && AuxAt(g.bytes, sp, entries)
    ensures SameOutside(old(g.bytes), g.bytes, sp, sp0)
  {
    sp := sp0;
    for i := 0 to |entries|
      invariant sp == sp0 - 8 * i && AuxAt(g.bytes, sp, entries[..i])
      invariant SameOutside(old(g.bytes), g.bytes, sp, sp0)
    {
      sp := NewAuxEnt(g, sp, entries[i], entries[..i]);
      assert entries[..i] + [entries[i]] == entries[..i + 1];
    }
    assert entries[..|entries|] == entries;
  }

  // ----- The whole stack -----

  /** The number of bytes that the code reckons with for everything below the platform string: DLINFO_ITEMS
      entries, the final one, the platform's one, and the tables. */
  function ReckonedBytes(argc: nat, envc: nat, pushPtr: bool): nat {
    4 * ((DLINFO_ITEMS + 1) * 2 + 2 + envc + argc + 2 + if pushPtr then 3 else 1)
  }

  /** The platform string takes the least number of whole words below p, and at most 15 bytes are left unused below the
      next multiple of 16. */
  predicate Placed(p: nat, len: nat, platformAt: nat, end: nat) {
    && platformAt + len <= p < platformAt + len + 4 && (p - platformAt) % 4 == 0
    && end <= platformAt / 16 * 16 < end + 16
  }

  /** Where the platform string goes, and where the auxiliary vector ends. */
  method AlignStack(p: nat, len: nat, argc: nat, envc: nat, pushPtr: bool) returns (platformAt: nat, sp: nat)
    requires len + 3 + 30 <= p
    ensures platformAt <= p - len && sp <= platformAt && p <= sp + len + 33
    ensures Placed(p, len, platformAt, sp)
    ensures exists k: int :: sp - ReckonedBytes(argc, envc, pushPtr) == 16 * k
  {
    platformAt := p - (len + 3) / 4 * 4;
    sp := platformAt / 16 * 16;
    var size := ReckonedBytes(argc, envc, pushPtr);
    ghost var q := platformAt / 16;
    if size % 16 != 0 {
      sp := sp - (16 - size % 16);
      q := q - 1;
    }
    assert sp - size == 16 * (q - size / 16);
  }

  /** Since 13 entries are pushed where DLINFO_ITEMS says 12, the stack pointer is never aligned to 16 bytes. */
  lemma NeverAligned(argc: nat, envc: nat, pushPtr: bool, end: nat, sp: nat)
    requires exists k: int :: end - ReckonedBytes(argc, envc, pushPtr) == 16 * k
    requires sp == end - 8 * 15 - 4 * TableWords(argc, envc, pushPtr)
    ensures sp % 16 == 8
  {
    var k: int :| end - ReckonedBytes(argc, envc, pushPtr) == 16 * k;
    assert sp == end - ReckonedBytes(argc, envc, pushPtr) - 8;
    DivModUnique(sp, 16, k - 1, 8);
  }

  /** The auxiliary vector in the order in which it is pushed. */
  function AuxVector(items: seq<Aux>, platformAt: word32): seq<Aux> {
    [Aux(AT_NULL, 0)] + items + [Aux(AT_PLATFORM, platformAt)]
  }

  /** The auxiliary vector as the program reads it, upwards: first the entry for the platform, then the items, the last
      one pushed first, and at the end the entry with number and value 0. */
  ghost predicate AuxWords(m: memory, at: nat, items: seq<Aux>, platformAt: nat)
    requires |items| == DLINFO_ITEMS + 1 && at + 8 * 15 <= B32
  {
    && GetWord(m, at) == AT_PLATFORM && GetWord(m, at + 4) == platformAt
    && (forall k: nat :: k < 13 ==>
          GetWord(m, at + 8 * (13 - k)) == items[k].id && GetWord(m, at + 8 * (13 - k) + 4) == items[k].val)
    && GetWord(m, at + 8 * 14) == 0 && GetWord(m, at + 8 * 14 + 4) == 0
  }

  lemma AuxInWords(m: memory, at: nat, items: seq<Aux>, platformAt: word32)
    requires |items| == DLINFO_ITEMS + 1 && at + 8 * 15 <= B32 && AuxAt(m, at, AuxVector(items, platformAt))
    ensures AuxWords(m, at, items, platformAt)
  {
    var entries := AuxVector(items, platformAt);
    assert GetWord(m, at + 8 * 0) == entries[14].id && GetWord(m, at + 8 * 0 + 4) == entries[14].val;
    assert GetWord(m, at + 8 * 14) == entries[0].id;
    forall k: nat | k < 13
      ensures GetWord(m, at + 8 * (13 - k)) == items[k].id && GetWord(m, at + 8 * (13 - k) + 4) == items[k].val
    {
      assert entries[k + 1] == items[k] && 15 - 1 - (13 - k) == k + 1;
      assert GetWord(m, at + 8 * (13 - k)) == entries[15 - 1 - (13 - k)].id;
    }
  }

  /** A program that looks for the end mark finds it behind all other entries, if no item has its number. */
  lemma EndMarkIsLast(m: memory, at: nat, items: seq<Aux>, platformAt: nat, j: nat)
    requires |items| == DLINFO_ITEMS + 1 && at + 8 * 15 <= B32 && AuxWords(m, at, items, platformAt) && j < 15
    requires forall k: nat :: k < 13 ==> items[k].id != 0
    ensures GetWord(m, at + 8 * j) == 0 <==> j == 14
  {
    if 0 < j < 14 {
      assert at + 8 * j == at + 8 * (13 - (13 - j));
      assert items[13 - j].id != 0;
    }
  }

  /** An upper bound of the space below the strings. */
  function SpaceBelow(len: nat, argc: nat, envc: nat, pushPtr: bool): nat {
    len + 33 + 8 * 15 + 4 * TableWords(argc, envc, pushPtr)
  }

  /** The platform string, the auxiliary vector and the tables below the strings at p. */
  method CreateElfTables(g: Guest, p: word32, argc: nat, envc: nat, platform: cstring, items: seq<Aux>, pushPtr: bool,
                         ghost argv: seq<cstring>, ghost envp: seq<cstring>)
    returns (sp: nat, ghost platformAt: word32)
    requires g.pages.Valid() && argc == |argv| && envc == |envp| && |items| == DLINFO_ITEMS + 1
    requires |platform| <= PAGE_SIZE && SpaceBelow(|platform|, argc, envc, pushPtr) <= p
    requires AllWritable(g, p - SpaceBelow(|platform|, argc, envc, pushPtr), p) && StringsThere(g, p, argv, envp)
    modifies g`bytes
    ensures p - SpaceBelow(|platform|, argc, envc, pushPtr) <= sp && sp % 16 == 8
    ensures sp + 4 * TableWords(argc, envc, pushPtr) + 8 * 15 <= platformAt
    ensures Started(g.bytes, sp, argv, envp, pushPtr)
    ensures AuxWords(g.bytes, sp + 4 * TableWords(argc, envc, pushPtr), items, platformAt)
    ensures Placed(p, |platform|, platformAt, sp + 4 * TableWords(argc, envc, pushPtr) + 8 * 15)
    ensures Holds(g.bytes, platformAt, platform)
    ensures SameOutside(old(g.bytes), g.bytes, sp, p)
  {
    var u, end := AlignStack(p, |platform|, argc, envc, pushPtr);
    platformAt := u;
    sp := FillStack(g, u, end, p, argc, envc, platform, AuxVector(items, u), pushPtr, argv, envp);
    AuxInWords(g.bytes, sp + 4 * TableWords(argc, envc, pushPtr), items, u);
    NeverAligned(argc, envc, pushPtr, end, sp);
  }

  /** Stores the platform string at u, and the auxiliary vector and the tables below "end". */
  method FillStack(g: Guest, u: word32, end: nat, p: word32, argc: nat, envc: nat, platform: cstring,
                   entries: seq<Aux>, pushPtr: bool, ghost argv: seq<cstring>, ghost envp: seq<cstring>)
    returns (sp: nat)
    requires g.pages.Valid() && argc == |argv| && envc == |envp| && |entries| == 15 && |platform| <= PAGE_SIZE
    requires 8 * 15 + 4 * TableWords(argc, envc, pushPtr) <= end <= u && u + |platform| <= p
    requires AllWritable(g, end - 8 * 15 - 4 * TableWords(argc, envc, pushPtr), p) && StringsThere(g, p, argv, envp)
    modifies g`bytes
    ensures sp == end - 8 * 15 - 4 * TableWords(argc, envc, pushPtr)
    ensures Started(g.bytes, sp, argv, envp, pushPtr)
    ensures AuxAt(g.bytes, sp + 4 * TableWords(argc, envc, pushPtr), entries)
    ensures Holds(g.bytes, u, platform)
    ensures SameOutside(old(g.bytes), g.bytes, sp, p)
  {
    PutPlatform(g, u, platform, p, argv, envp);
    var auxAt := PutAux(g, end, entries, u, platform, p, argv, envp);
    sp := TablesBelow(g, envc, argc, auxAt, p, pushPtr, argv, envp, entries, u, platform);
  }

  method PutPlatform(g: Guest, u: word32, platform: cstring, ghost p: nat, ghost argv: seq<cstring>,
                     ghost envp: seq<cstring>)
    requires g.pages.Valid() && |platform| <= PAGE_SIZE && u + |platform| <= p <= B32 && AllWritable(g, u, p)
    requires StringsThere(g, p, argv, envp)
    modifies g`bytes
    ensures Holds(g.bytes, u, platform) && StringsThere(g, p, argv, envp)
    ensures SameOutside(old(g.bytes), g.bytes, u, p)
  {
    assert Writable(g, u);
    CopyToTarget(g, u, platform);
    HoldsKept(old(g.bytes), g.bytes, u, p, p, Flat(argv));
    HoldsKept(old(g.bytes), g.bytes, u, p, p + |Flat(argv)|, Flat(envp));
  }

  method TablesBelow(g: Guest, envc: nat, argc: nat, auxAt: word32, p: word32, pushPtr: bool, ghost argv: seq<cstring>,
                     ghost envp: seq<cstring>, ghost entries: seq<Aux>, ghost u: nat, ghost platform: cstring)
    returns (sp: nat)
    requires g.pages.Valid() && argc == |argv| && envc == |envp| && auxAt + 8 * |entries| <= u <= p
    requires 4 * TableWords(argc, envc, pushPtr) <= auxAt
    requires AllWritable(g, auxAt - 4 * TableWords(argc, envc, pushPtr), auxAt) && StringsThere(g, p, argv, envp)
    requires AuxAt(g.bytes, auxAt, entries) && Holds(g.bytes, u, platform)
    modifies g`bytes
    ensures sp == auxAt - 4 * TableWords(argc, envc, pushPtr)
    ensures Started(g.bytes, sp, argv, envp, pushPtr) && SameOutside(old(g.bytes), g.bytes, sp, auxAt)
    ensures AuxAt(g.bytes, auxAt, entries) && Holds(g.bytes, u, platform)
  {
    sp := PutTables(g, envc, argc, auxAt, p, pushPtr, argv, envp);
    AuxKept(old(g.bytes), g.bytes, sp, auxAt, auxAt, entries);
    HoldsKept(old(g.bytes), g.bytes, sp, auxAt, u, platform);
  }

  method PutAux(g: Guest, end: nat, entries: seq<Aux>, ghost u: nat, ghost platform: cstring, ghost p: nat,
                ghost argv: seq<cstring>, ghost envp: seq<cstring>)
    returns (sp: nat)
    requires g.pages.Valid() && 8 * |entries| <= end <= u <= p <= B32 && AllWritable(g, end - 8 * |entries|, end)
    requires Holds(g.bytes, u, platform) && StringsThere(g, p, argv, envp)
    modifies g`bytes
    ensures sp == end - 8 * |entries| && AuxAt(g.bytes, sp, entries)
    ensures Holds(g.bytes, u, platform) && StringsThere(g, p, argv, envp)
    ensures SameOutside(old(g.bytes), g.bytes, sp, end)
  {
    sp := PushAux(g, end, entries);
    HoldsKept(old(g.bytes), g.bytes, sp, end, u, platform);
    HoldsKept(old(g.bytes), g.bytes, sp, end, p, Flat(argv));
    HoldsKept(old(g.bytes), g.bytes, sp, end, p + |Flat(argv)|, Flat(envp));
  }

  /** Collects the strings, moves them to a new stack and builds everything below them.  The stack begins at
      "error" and is zero at first. */
  method StartProgram(filename: cstring, argv: seq<cstring>, envp: seq<cstring>, platform: cstring, items: seq<Aux>,
                      g: Guest, error: word32, size: nat, pushPtr: bool)
    returns (ok: bool, sp: nat, ghost platformAt: word32)
    requires g.pages.Valid() && ARENA <= size && error + size <= B32 && AllWritable(g, error, error + size)
    requires forall a: nat :: error <= a < error + size ==> g.bytes[a] == 0
    requires |platform| <= PAGE_SIZE && |items| == DLINFO_ITEMS + 1
    requires |AllStrings(filename, argv, envp)| < ARENA - 4 ==>
               |AllStrings(filename, argv, envp)| + 4 + SpaceBelow(|platform|, |argv|, |envp|, pushPtr) <= size
    modifies g`bytes
    ensures ok <==> |AllStrings(filename, argv, envp)| < ARENA - 4
    ensures ok ==> error <= sp && sp + 4 * TableWords(|argv|, |envp|, pushPtr) + 8 * 15 <= platformAt && sp % 16 == 8
    ensures ok ==> Started(g.bytes, sp, argv, envp, pushPtr)
    ensures ok ==> AuxWords(g.bytes, sp + 4 * TableWords(|argv|, |envp|, pushPtr), items, platformAt)
    ensures ok ==> Placed(error + size - 4 - |AllStrings(filename, argv, envp)|, |platform|, platformAt,
                          sp + 4 * TableWords(|argv|, |envp|, pushPtr) + 8 * 15)
    ensures ok ==> Holds(g.bytes, platformAt, platform)
    ensures SameOutside(old(g.bytes), g.bytes, error, error + size)
  {
    platformAt := 0;
    var arena, p := CollectStrings(filename, argv, envp);
    if p == 0 {
      return false, 0, platformAt;
    }
    ok := true;
    var stringp := MoveStrings(filename, argv, envp, arena, p, g, error, size);
    sp, platformAt := CreateElfTables(g, stringp, |argv|, |envp|, platform, items, pushPtr, argv, envp);
  }
}
