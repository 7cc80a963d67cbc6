/** Handing the argument and environment strings to the guest (setup_arg_pages in linux-user/elfload.c and
    loader_build_argptr in linux-user/linuxload.c). */
module ArgTables {
  import opened Common
  import opened Words
  import opened PageTable
  import opened GuestAccess
  import opened ArgStrings

  /** The word at an address, least significant byte first. */
  function GetWord(m: memory, addr: nat): nat
    requires addr + 4 <= B32
  {
    var b0: nat, b1: nat, b2: nat, b3: nat := m[addr], m[addr + 1], m[addr + 2], m[addr + 3];
    b0 + 0x100 * b1 + 0x1_0000 * b2 + 0x100_0000 * b3
  }

  /** The bytes of a word in memory: the least significant one comes first. */
  lemma WordDigits(m: memory, addr: nat)
    requires addr + 4 <= B32
    ensures GetWord(m, addr) % 0x100 == m[addr]
    ensures GetWord(m, addr) / 0x100 % 0x100 == m[addr + 1]
    ensures GetWord(m, addr) / 0x1_0000 % 0x100 == m[addr + 2]
    ensures GetWord(m, addr) / 0x100_0000 == m[addr + 3]
  {
    var b0: nat, b1: nat, b2: nat, b3: nat := m[addr], m[addr + 1], m[addr + 2], m[addr + 3];
    var v := GetWord(m, addr);
    DivModUnique(v, 0x100, b1 + 0x100 * b2 + 0x1_0000 * b3, b0);
    DivModUnique(v / 0x100, 0x100, b2 + 0x100 * b3, b1);
    DivModUnique(v, 0x1_0000, b2 + 0x100 * b3, b0 + 0x100 * b1);
    DivModUnique(v / 0x1_0000, 0x100, b3, b2);
    DivModUnique(v, 0x100_0000, b3, b0 + 0x100 * b1 + 0x1_0000 * b2);
  }

  function WordBytes(v: word32): (bytes: seq<byte>)
    ensures |bytes| == 4
    ensures var b0: nat, b1: nat, b2: nat, b3: nat := bytes[0], bytes[1], bytes[2], bytes[3];
            b0 + 0x100 * b1 + 0x1_0000 * b2 + 0x100_0000 * b3 == v
  {
    var q1 := v / 0x100;
    var q2 := q1 / 0x100;
    [v % 0x100, q1 % 0x100, q2 % 0x100, q2 / 0x100]
  }

  /** The memory differs at most between two addresses. */
  ghost predicate SameOutside(m: memory, m': memory, lo: nat, hi: nat) {
    forall a: nat :: a < B32 && (a < lo || hi <= a) ==> m'[a] == m[a]
  }

  /** An address may be written, and its host address is not null. */
  ghost predicate Writable(g: Guest, a: nat)
    requires g.pages.Valid()
    reads g.pages, g.pages.repr
  {
    g.pages.WriteOutcome(a / PAGE_SIZE, PAGE_READ + PAGE_WRITE) == Ok && !g.Null(a)
  }

  /** All addresses from lo to hi may be written. */
  ghost predicate AllWritable(g: Guest, lo: nat, hi: nat)
    requires g.pages.Valid()
    reads g.pages, g.pages.repr
  {
    forall a: nat :: lo <= a < hi ==> Writable(g, a)
  }

  lemma WritableReadable(g: Guest, a: nat)
    requires g.pages.Valid() && Writable(g, a)
    ensures g.Readable(a)
  {
    assert Has(PAGE_READ + PAGE_WRITE, PAGE_READ);
  }

  lemma Block(addr: word32, n: nat)
    requires 0 < n <= PAGE_SIZE && addr + n <= B32
    ensures !WrapsToNothing(addr, addr + n)
  {
  }

  /** Stores bytes, unless the first page may not be written or its host address is null. */
  method CopyToTarget(g: Guest, addr: word32, bytes: seq<byte>)
    requires g.pages.Valid() && 0 < |bytes| <= PAGE_SIZE && addr + |bytes| <= B32
    modifies g`bytes
    ensures SameOutside(old(g.bytes), g.bytes, addr, addr + |bytes|)
    ensures if Writable(g, addr) then forall i: nat :: i < |bytes| ==> g.bytes[addr + i] == bytes[i]
            else g.bytes == old(g.bytes)
  {
    Block(addr, |bytes|);
    var ok := g.Lock(true, addr, |bytes|);
    if ok == Ok {
      g.bytes := g.bytes[..addr] + bytes + g.bytes[addr + |bytes|..];
    }
  }

  /** Stores a word, least significant byte first. */
  method PutWord(g: Guest, addr: word32, v: word32)
    requires g.pages.Valid() && addr + 4 <= B32
    modifies g`bytes
    ensures SameOutside(old(g.bytes), g.bytes, addr, addr + 4)
    ensures if Writable(g, addr) then GetWord(g.bytes, addr) == v else g.bytes == old(g.bytes)
  {
    CopyToTarget(g, addr, WordBytes(v));
    assert Writable(g, addr) ==> forall i: nat :: i < 4 ==> g.bytes[addr + i] == WordBytes(v)[i];
    assert Writable(g, addr) ==> g.bytes[addr + 0] == WordBytes(v)[0] && g.bytes[addr + 1] == WordBytes(v)[1]
                                 && g.bytes[addr + 2] == WordBytes(v)[2] && g.bytes[addr + 3] == WordBytes(v)[3];
  }

  // ----- The stack -----

  /** Copies page i of the arena to zeroed memory at "at", if it was allocated. */
  method CopyArgPage(arena: Arena, i: nat, g: Guest, at: word32, ghost base: nat)
    requires arena.Valid() && g.pages.Valid() && i < MAX_ARG_PAGES && at == base + i * PAGE_SIZE
    requires at + PAGE_SIZE <= B32 && Writable(g, at)
    requires forall a: nat :: at <= a < at + PAGE_SIZE ==> g.bytes[a] == 0
    modifies g`bytes
    ensures SameOutside(old(g.bytes), g.bytes, at, at + PAGE_SIZE)
    ensures forall a: nat :: i * PAGE_SIZE <= a < (i + 1) * PAGE_SIZE ==> g.bytes[base + a] == arena.At(a)
  {
    var pag := arena.page[i];
    if pag != null {
      CopyToTarget(g, at, pag[..]);
    }
    forall a: nat | i * PAGE_SIZE <= a < (i + 1) * PAGE_SIZE ensures g.bytes[base + a] == arena.At(a) {
      DivModUnique(a, PAGE_SIZE, i, a - i * PAGE_SIZE);
      assert base + a == at + (a - i * PAGE_SIZE);
    }
  }

  /** Copies the arena to the end of a new stack, whose memory is zero; the result is the address of position p. */
  method SetupArgPages(arena: Arena, p: nat, g: Guest, error: word32, size: nat) returns (r: nat)
    requires arena.Valid() && g.pages.Valid() && ARENA <= size && error + size <= B32 && p <= ARENA
    requires AllWritable(g, error, error + size)
    requires forall a: nat :: error <= a < error + size ==> g.bytes[a] == 0
    modifies g`bytes
    ensures r == error + size - ARENA + p
    ensures SameOutside(old(g.bytes), g.bytes, error + size - ARENA, error + size)
    ensures forall a: nat :: a < ARENA ==> g.bytes[error + size - ARENA + a] == arena.At(a)
  {
    ghost var base := error + size - ARENA;
    var stackBase := error + size - ARENA;
    r := p + stackBase;
    var i := 0;
    while i < MAX_ARG_PAGES
      invariant 0 <= i <= MAX_ARG_PAGES && stackBase == base + i * PAGE_SIZE
      invariant SameOutside(old(g.bytes), g.bytes, base, base + i * PAGE_SIZE)
      invariant forall a: nat :: a < i * PAGE_SIZE ==> g.bytes[base + a] == arena.At(a)
    {
      assert Writable(g, stackBase);
      CopyArgPage(arena, i, g, stackBase, base);
      stackBase := stackBase + PAGE_SIZE;
      i := i + 1;
    }
  }

  // ----- The pointer tables -----

  /** The bytes lie in memory from an address on. */
  ghost predicate Holds(m: memory, addr: nat, bytes: seq<byte>) {
    addr + |bytes| <= B32 && forall i: nat :: i < |bytes| ==> m[addr + i] == bytes[i]
  }

  /** A string in readable memory has the length it was copied with. */
  lemma StringLength(g: Guest, addr: word32, s: cstring)
    requires g.pages.Valid() && addr > 0 && Holds(g.bytes, addr, s) && |s| <= 0x7fff_ffff
    requires AllWritable(g, addr, addr + |s|)
    ensures g.HasLength(addr, |s| - 1)
    ensures forall n: nat :: g.HasLength(addr, n) ==> n == |s| - 1
  {
    forall a: nat | addr <= a < addr + |s| ensures g.Readable(a) && !g.Blocked(addr, a) {
      WritableReadable(g, a);
    }
    forall a: nat | addr <= a < addr + |s| ensures g.bytes[a] == s[a - addr] {
      assert g.bytes[addr + (a - addr)] == s[a - addr];
    }
  }

  /** A pointer to each of the strings, which lie one after the other, and a null pointer. */
  ghost predicate Table(m: memory, addr: nat, strings: seq<cstring>, first: nat)
    requires addr + 4 * (|strings| + 1) <= B32
  {
    && TablePart(m, addr, strings, first, |strings|)
    && GetWord(m, addr + 4 * |strings|) == 0
  }

  ghost predicate TablePart(m: memory, addr: nat, strings: seq<cstring>, first: nat, n: nat)
    requires n <= |strings| && addr + 4 * n <= B32
  {
    forall i: nat :: i < n ==> GetWord(m, addr + 4 * i) == first + |Flat(strings[..i])|
  }

  lemma WordKept(m: memory, m': memory, lo: nat, hi: nat, addr: nat)
    requires SameOutside(m, m', lo, hi) && addr + 4 <= B32 && (addr + 4 <= lo || hi <= addr)
    ensures GetWord(m', addr) == GetWord(m, addr)
  {
  }

  lemma TableKept(m: memory, m': memory, lo: nat, hi: nat, addr: nat, strings: seq<cstring>, first: nat, n: nat)
    requires n <= |strings| && addr + 4 * n <= B32 && TablePart(m, addr, strings, first, n)
    requires SameOutside(m, m', lo, hi) && (addr + 4 * n <= lo || hi <= addr)
    ensures TablePart(m', addr, strings, first, n)
  {
    forall i: nat | i < n ensures GetWord(m', addr + 4 * i) == first + |Flat(strings[..i])| {
      WordKept(m, m', lo, hi, addr + 4 * i);
    }
  }

  lemma TableNext(m: memory, addr: nat, strings: seq<cstring>, first: nat, n: nat)
    requires n < |strings| && addr + 4 * (n + 1) <= B32 && TablePart(m, addr, strings, first, n)
    requires GetWord(m, addr + 4 * n) == first + |Flat(strings[..n])|
    ensures TablePart(m, addr, strings, first, n + 1)
  {
  }

  lemma HoldsKept(m: memory, m': memory, lo: nat, hi: nat, addr: nat, bytes: seq<byte>)
    requires SameOutside(m, m', lo, hi) && Holds(m, addr, bytes) && hi <= addr
    ensures Holds(m', addr, bytes)
  {
  }

  /** String i of several that lie one after the other. */
  lemma HoldsAt(m: memory, addr: nat, strings: seq<cstring>, i: nat)
    requires i < |strings| && Holds(m, addr, Flat(strings))
    ensures Holds(m, addr + |Flat(strings[..i])|, strings[i])
    ensures |Flat(strings[..i + 1])| == |Flat(strings[..i])| + |strings[i]| <= |Flat(strings)|
  {
    FlatAt(strings, i);
    var from := |Flat(strings[..i])|;
    forall k: nat | k < |strings[i]| ensures m[addr + from + k] == strings[i][k] {
      assert strings[i][k] == Flat(strings)[from + k];
      assert m[addr + (from + k)] == Flat(strings)[from + k];
    }
  }

  /** One round of a loop over a table: stores a pointer to a string and moves on to the next string. */
  method PutPointer(g: Guest, slot: word32, stringp: word32, ghost s: cstring) returns (next: nat)
    requires g.pages.Valid() && slot + 4 <= stringp && Writable(g, slot)
    requires Holds(g.bytes, stringp, s) && |s| <= 0x7fff_ffff && AllWritable(g, stringp, stringp + |s|)
    modifies g`bytes
    ensures SameOutside(old(g.bytes), g.bytes, slot, slot + 4)
    ensures GetWord(g.bytes, slot) == stringp && next == stringp + |s|
  {
    PutWord(g, slot, stringp);
    HoldsKept(old(g.bytes), g.bytes, slot, slot + 4, stringp, s);
    var length := g.TargetStrlen(stringp);
    StringLength(g, stringp, s);
    next := stringp + length + 1;
  }

  /** The round for string i. */
  method FillSlot(g: Guest, slot: nat, stringp: nat, ghost i: nat, ghost table: nat, ghost first: nat,
                  ghost strings: seq<cstring>, ghost m: memory)
    returns (next: nat)
    requires g.pages.Valid() && i < |strings| && slot == table + 4 * i && table + 4 * (|strings| + 1) <= first
    requires Writable(g, slot) && AllWritable(g, first, first + |Flat(strings)|) && |Flat(strings)| <= 0x7fff_ffff
    requires Holds(m, first, Flat(strings)) && SameOutside(m, g.bytes, table, slot)
    requires stringp == first + |Flat(strings[..i])| && TablePart(g.bytes, table, strings, first, i)
    modifies g`bytes
    ensures SameOutside(m, g.bytes, table, slot + 4)
    ensures next == first + |Flat(strings[..i + 1])| && TablePart(g.bytes, table, strings, first, i + 1)
  {
    ghost var was := g.bytes;
    HoldsKept(m, was, table, slot, first, Flat(strings));
    HoldsAt(was, first, strings, i);
    next := PutPointer(g, slot, stringp, strings[i]);
    TableKept(was, g.bytes, slot, slot + 4, table, strings, first, i);
    TableNext(g.bytes, table, strings, first, i);
  }

  /** Fills a table of pointers to strings that lie one after the other, finding each string by the length of the
      one before it. */
  method FillTable(g: Guest, table: word32, stringp: nat, count: nat, ghost strings: seq<cstring>) returns (next: nat)
    requires g.pages.Valid() && count == |strings| && table + 4 * (count + 1) <= stringp
    requires AllWritable(g, table, table + 4 * (count + 1))
    requires AllWritable(g, stringp, stringp + |Flat(strings)|) && |Flat(strings)| <= 0x7fff_ffff
    requires Holds(g.bytes, stringp, Flat(strings))
    modifies g`bytes
    ensures SameOutside(old(g.bytes), g.bytes, table, table + 4 * (count + 1))
    ensures Table(g.bytes, table, strings, stringp)
    ensures next == stringp + |Flat(strings)|
  {
    var slot: nat, left := table, count;
    next := stringp;
    ghost var i, m := 0, g.bytes;
    assert strings[..0] == [];
    while left > 0
      invariant 0 <= left <= count && i == count - left && slot == table + 4 * i
      invariant next == stringp + |Flat(strings[..i])|
      invariant SameOutside(m, g.bytes, table, table + 4 * i)
      invariant TablePart(g.bytes, table, strings, stringp, i)
      decreases left
    {
      assert Writable(g, slot);
      next := FillSlot(g, slot, next, i, table, stringp, strings, m);
      slot, left, i := slot + 4, left - 1, i + 1;
    }
    assert strings[..count] == strings;
    assert Writable(g, slot);
    EndTable(g, slot, table, stringp, strings);
  }

  /** Stores the null pointer behind the others. */
  method EndTable(g: Guest, slot: nat, ghost table: nat, ghost first: nat, ghost strings: seq<cstring>)
    requires g.pages.Valid() && slot == table + 4 * |strings| && slot + 4 <= B32 && Writable(g, slot)
    requires TablePart(g.bytes, table, strings, first, |strings|)
    modifies g`bytes
    ensures SameOutside(old(g.bytes), g.bytes, slot, slot + 4)
    ensures Table(g.bytes, table, strings, first)
  {
    PutWord(g, slot, 0);
    TableKept(old(g.bytes), g.bytes, slot, slot + 4, table, strings, first, |strings|);
  }

  /** The number of words of the tables, with argc and, on request, the addresses of the tables. */
  function TableWords(argc: nat, envc: nat, pushPtr: bool): nat {
    argc + envc + 3 + if pushPtr then 2 else 0
  }

  /** What is below the tables. */
  ghost predicate Head(m: memory, sp: nat, argvAt: nat, envpAt: nat, argc: nat, pushPtr: bool)
    requires sp + (if pushPtr then 12 else 4) == argvAt <= B32
  {
    GetWord(m, sp) == argc && (pushPtr ==> GetWord(m, sp + 4) == argvAt && GetWord(m, sp + 8) == envpAt)
  }

  /** What the stack pointer points to: argc, on request the addresses of the two tables, and the tables. */
  ghost predicate StartFrame(m: memory, sp: nat, argv: seq<cstring>, envp: seq<cstring>, pushPtr: bool, stringp: nat)
    requires sp + 4 * TableWords(|argv|, |envp|, pushPtr) <= B32
  {
    var argvAt := sp + if pushPtr then 12 else 4;
    var envpAt := argvAt + 4 * (|argv| + 1);
    && Head(m, sp, argvAt, envpAt, |argv|, pushPtr)
    && Table(m, argvAt, argv, stringp)
    && Table(m, envpAt, envp, stringp + |Flat(argv)|)
  }

  /** The strings end before the end of memory and can be read. */
  ghost predicate StringsThere(g: Guest, stringp: nat, argv: seq<cstring>, envp: seq<cstring>)
    requires g.pages.Valid()
    reads g, g.pages, g.pages.repr
  {
    && |Flat(argv)| + |Flat(envp)| <= 0x7fff_ffff
    && AllWritable(g, stringp, stringp + |Flat(argv)| + |Flat(envp)|)
    && Holds(g.bytes, stringp, Flat(argv))
    && Holds(g.bytes, stringp + |Flat(argv)|, Flat(envp))
  }

  /** Builds the tables below sp for strings at or above it. */
  method BuildArgptr(g: Guest, envc: nat, argc: nat, sp0: word32, stringp: word32, pushPtr: bool,
                     ghost argv: seq<cstring>, ghost envp: seq<cstring>)
    returns (sp: nat)
    requires g.pages.Valid() && argc == |argv| && envc == |envp| && sp0 <= stringp
    requires 4 * TableWords(argc, envc, pushPtr) <= sp0
    requires AllWritable(g, sp0 - 4 * TableWords(argc, envc, pushPtr), sp0) && StringsThere(g, stringp, argv, envp)
    modifies g`bytes
    ensures sp == sp0 - 4 * TableWords(argc, envc, pushPtr)
    ensures StartFrame(g.bytes, sp, argv, envp, pushPtr, stringp)
    ensures SameOutside(old(g.bytes), g.bytes, sp, sp0)
  {
    var envpAt := sp0 - (envc + 1) * 4;
    var argvAt := envpAt - (argc + 1) * 4;
    sp := PushHead(g, argvAt, envpAt, argc, pushPtr);
    ghost var m := g.bytes;
    HoldsKept(old(g.bytes), m, sp, argvAt, stringp, Flat(argv));
    HoldsKept(old(g.bytes), m, sp, argvAt, stringp + |Flat(argv)|, Flat(envp));
    FillTables(g, argvAt, envpAt, argc, envc, stringp, argv, envp);
    HeadKept(m, g.bytes, sp, argvAt, envpAt, argc, pushPtr, argvAt, sp0);
  }

  method FillTables(g: Guest, argvAt: word32, envpAt: word32, argc: nat, envc: nat, stringp: word32,
                    ghost argv: seq<cstring>, ghost envp: seq<cstring>)
    requires g.pages.Valid() && argc == |argv| && envc == |envp|
    requires argvAt + 4 * (argc + 1) == envpAt && envpAt + 4 * (envc + 1) <= stringp
    requires AllWritable(g, argvAt, envpAt + 4 * (envc + 1)) && StringsThere(g, stringp, argv, envp)
    modifies g`bytes
    ensures Table(g.bytes, argvAt, argv, stringp)
    ensures Table(g.bytes, envpAt, envp, stringp + |Flat(argv)|)
    ensures SameOutside(old(g.bytes), g.bytes, argvAt, envpAt + 4 * (envc + 1))
  {
    var next := FillTable(g, argvAt, stringp, argc, argv);
    ghost var m := g.bytes;
    HoldsKept(old(g.bytes), m, argvAt, envpAt, stringp + |Flat(argv)|, Flat(envp));
    next := FillTable(g, envpAt, next, envc, envp);
    ghost var end := envpAt + 4 * (envc + 1);
    TableKept(m, g.bytes, envpAt, end, argvAt, argv, stringp, argc);
    WordKept(m, g.bytes, envpAt, end, argvAt + 4 * argc);
  }

  lemma HeadKept(m: memory, m': memory, sp: nat, argvAt: nat, envpAt: nat, argc: nat, pushPtr: bool, lo: nat, hi: nat)
    requires sp + (if pushPtr then 12 else 4) == argvAt <= B32 && Head(m, sp, argvAt, envpAt, argc, pushPtr)
    requires SameOutside(m, m', lo, hi) && argvAt <= lo
    ensures Head(m', sp, argvAt, envpAt, argc, pushPtr)
  {
    WordKept(m, m', lo, hi, sp);
    if pushPtr {
      WordKept(m, m', lo, hi, sp + 4);
      WordKept(m, m', lo, hi, sp + 8);
    }
  }

  method PushHead(g: Guest, argvAt: word32, envpAt: word32, argc: word32, pushPtr: bool) returns (sp: nat)
    requires g.pages.Valid() && argvAt >= (if pushPtr then 12 else 4)
    requires AllWritable(g, argvAt - (if pushPtr then 12 else 4), argvAt)
    modifies g`bytes
    ensures sp == argvAt - (if pushPtr then 12 else 4) && Head(g.bytes, sp, argvAt, envpAt, argc, pushPtr)
    ensures SameOutside(old(g.bytes), g.bytes, sp, argvAt)
  {
    sp := argvAt;
    ghost var m0, m1 := g.bytes, g.bytes;
    if pushPtr {
      sp := sp - 4;
      assert Writable(g, sp);
      PutWord(g, sp, envpAt);
      m0 := g.bytes;
      sp := sp - 4;
      assert Writable(g, sp);
      PutWord(g, sp, argvAt);
      m1 := g.bytes;
      WordKept(m0, m1, sp, sp + 4, sp + 4);
    }
    sp := sp - 4;
    assert Writable(g, sp);
    PutWord(g, sp, argc);
    if pushPtr {
      WordKept(m1, g.bytes, sp, sp + 4, sp + 4);
      WordKept(m1, g.bytes, sp, sp + 4, sp + 8);
    }
  }

  // ----- What the program finds -----

  /** Slot i of a table holds the address of a copy of string i, with its zero byte, and a null pointer follows. */
  ghost predicate Vector(m: memory, addr: nat, strings: seq<cstring>)
    requires addr + 4 * (|strings| + 1) <= B32
  {
    && (forall i: nat :: i < |strings| ==> Holds(m, GetWord(m, addr + 4 * i), strings[i]))
    && GetWord(m, addr + 4 * |strings|) == 0
  }

  lemma TableIsVector(m: memory, addr: nat, strings: seq<cstring>, first: nat)
    requires addr + 4 * (|strings| + 1) <= B32 && Table(m, addr, strings, first) && Holds(m, first, Flat(strings))
    ensures Vector(m, addr, strings)
  {
    forall i: nat | i < |strings| ensures Holds(m, GetWord(m, addr + 4 * i), strings[i]) {
      HoldsAt(m, first, strings, i);
      assert GetWord(m, addr + 4 * i) == first + |Flat(strings[..i])|;
    }
  }

  /** What the program finds on its stack; these words are all that lies at and behind the stack pointer. */
  ghost predicate Started(m: memory, sp: nat, argv: seq<cstring>, envp: seq<cstring>, pushPtr: bool)
    requires sp + 4 * TableWords(|argv|, |envp|, pushPtr) <= B32
  {
    var argvAt := sp + if pushPtr then 12 else 4;
    var envpAt := argvAt + 4 * (|argv| + 1);
    && sp + 4 * TableWords(|argv|, |envp|, pushPtr) == envpAt + 4 * (|envp| + 1)
    && Head(m, sp, argvAt, envpAt, |argv|, pushPtr)
    && Vector(m, argvAt, argv)
    && Vector(m, envpAt, envp)
  }

  /** Moves the collected strings to the new stack. */
  method MoveStrings(ghost filename: cstring, ghost argv: seq<cstring>, ghost envp: seq<cstring>, arena: Arena, p: nat,
                     g: Guest, error: word32, size: nat)
    returns (stringp: nat)
    requires g.pages.Valid() && ARENA <= size && error + size <= B32 && AllWritable(g, error, error + size)
    requires forall a: nat :: error <= a < error + size ==> g.bytes[a] == 0
    requires arena.Valid() && p + |AllStrings(filename, argv, envp)| == ARENA - 4
    requires forall a: nat :: p <= a < ARENA - 4 ==> arena.At(a) == AllStrings(filename, argv, envp)[a - p]
    modifies g`bytes
    ensures stringp == error + size - 4 - |AllStrings(filename, argv, envp)|
    ensures StringsThere(g, stringp, argv, envp) && SameOutside(old(g.bytes), g.bytes, error, error + size)
  {
    stringp := SetupArgPages(arena, p, g, error, size);
    StringsInPlace(g.bytes, filename, argv, envp, arena, p, error + size - ARENA);
  }

  method PutTables(g: Guest, envc: nat, argc: nat, sp0: word32, stringp: word32, pushPtr: bool,
                   ghost argv: seq<cstring>, ghost envp: seq<cstring>)
    returns (sp: nat)
    requires g.pages.Valid() && argc == |argv| && envc == |envp| && sp0 <= stringp
    requires 4 * TableWords(argc, envc, pushPtr) <= sp0
    requires AllWritable(g, sp0 - 4 * TableWords(argc, envc, pushPtr), sp0) && StringsThere(g, stringp, argv, envp)
    modifies g`bytes
    ensures sp == sp0 - 4 * TableWords(argc, envc, pushPtr)
    ensures Started(g.bytes, sp, argv, envp, pushPtr) && SameOutside(old(g.bytes), g.bytes, sp, sp0)
  {
    ghost var m := g.bytes;
    sp := BuildArgptr(g, envc, argc, sp0, stringp, pushPtr, argv, envp);
    ghost var argvAt := sp + if pushPtr then 12 else 4;
    TablePoints(m, g.bytes, sp, sp0, argvAt, argv, stringp);
    TablePoints(m, g.bytes, sp, sp0, argvAt + 4 * (|argv| + 1), envp, stringp + |Flat(argv)|);
  }

  lemma TablePoints(m: memory, m': memory, lo: nat, hi: nat, addr: nat, strings: seq<cstring>, first: nat)
    requires addr + 4 * (|strings| + 1) <= B32 && Table(m', addr, strings, first)
    requires SameOutside(m, m', lo, hi) && hi <= first && Holds(m, first, Flat(strings))
    ensures Vector(m', addr, strings)
  {
    HoldsKept(m, m', lo, hi, first, Flat(strings));
    TableIsVector(m', addr, strings, first);
  }

  /** The arguments and the environment in the relocated arena. */
  lemma StringsInPlace(m: memory, filename: cstring, argv: seq<cstring>, envp: seq<cstring>,
                       arena: Arena, p: nat, base: nat)
    requires arena.Valid() && p + |AllStrings(filename, argv, envp)| == ARENA - 4 && base + ARENA <= B32
    requires forall a: nat :: p <= a < ARENA - 4 ==> arena.At(a) == AllStrings(filename, argv, envp)[a - p]
    requires forall a: nat :: a < ARENA ==> m[base + a] == arena.At(a)
    ensures Holds(m, base + p, Flat(argv)) && Holds(m, base + p + |Flat(argv)|, Flat(envp))
  {
    var all := AllStrings(filename, argv, envp);
    forall k: nat | k < |all| ensures m[base + p + k] == all[k] {
      assert m[base + (p + k)] == arena.At(p + k);
    }
    HoldsParts(m, base + p, Flat(argv), Flat(envp), filename);
  }

  lemma HoldsParts(m: memory, addr: nat, first: seq<byte>, second: seq<byte>, third: seq<byte>)
    requires Holds(m, addr, first + second + third)
    ensures Holds(m, addr, first) && Holds(m, addr + |first|, second)
  {
    var all := first + second + third;
    forall k: nat | k < |first| ensures m[addr + k] == first[k] {
      assert m[addr + k] == all[k];
    }
    forall k: nat | k < |second| ensures m[addr + |first| + k] == second[k] {
      assert m[addr + (|first| + k)] == all[|first| + k];
    }
  }
}
