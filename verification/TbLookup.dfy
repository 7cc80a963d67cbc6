/** Finding translated blocks: a direct-mapped jump cache in front of hash chains
    (exec.c, cpu-exec.c, exec-all.h). */
module TbLookup {
  import opened Words

  const CACHE_SIZE := 4096
  const PHYS_HASH_SIZE := 32768
  const NOT_TRANS_YET: nat := 0xDEAD_BEAF
  const NORMAL_TB_TAG: nat := 0

  /** Slot of the jump cache: six bits of the page and six bits of the offset, both mixed. */
  function JmpCacheHash(pc: word32): (h: nat)
    ensures h < CACHE_SIZE
  {
    var tmp := Xor(pc, pc / 64);
    var page := tmp / 64 / 64 % 64;
    assert Shl(page, 6) == page * 64 by {
      ShlIsProduct(page, 6);
      assert Pow2(6) == 64;
    }
    OrDisjoint(page, tmp % 64, 6);
    Or(page * 64, tmp % 64)
  }

  /** The hash is onto: a page and an offset whose upper bits are zero give their own slot. */
  lemma JmpCacheSlot(page: nat, offset: nat)
    requires page < 64 && offset < 64
    ensures JmpCacheHash(page * 4096 + offset) == page * 64 + offset
  {
    MixedBits(page, offset);
    BitsTaken(page, offset);
    HashBits(page * 4096 + offset, 64 * (65 * page) + offset, page, offset);
  }

  lemma HashBits(pc: word32, tmp: nat, page: nat, offset: nat)
    requires tmp == Xor(pc, pc / 64) && page == tmp / 64 / 64 % 64 && offset == tmp % 64
    ensures JmpCacheHash(pc) == page * 64 + offset
  {
    SixBits(page);
    SixBits(1);
    OrDisjoint(page, offset, 6);
  }

  lemma BitsTaken(page: nat, offset: nat)
    requires page < 64 && offset < 64
    ensures (64 * (65 * page) + offset) / 64 / 64 % 64 == page && (64 * (65 * page) + offset) % 64 == offset
  {
    assert (64 * (65 * page) + offset) / 64 == 65 * page;
  }

  /** What the hash makes of such an address before it takes bits from it. */
  lemma MixedBits(page: nat, offset: nat)
    requires page < 64 && offset < 64
    ensures Xor(page * 4096 + offset, (page * 4096 + offset) / 64) == 64 * (65 * page) + offset
  {
    assert (page * 4096 + offset) / 64 == page * 64;
    SixBits(1);
    SixBits(page);
    SixBits(page * 64);
    XorAbove(page * 64, page, offset, 6);
    XorSymmetric(page * 64, page);
    XorAbove(0, page, page, 6);
    SixBits(0);
    assert Xor(0, page) == page;
    SixBits(65 * page);
  }

  lemma SixBits(x: nat)
    ensures Shl(x, 6) == 64 * x
  {
    ShlIsProduct(x, 6);
    assert Pow2(6) == 64;
  }

  function PhysHash(pc: word32): (h: nat)
    ensures h < PHYS_HASH_SIZE
  {
    pc % PHYS_HASH_SIZE
  }

  /** Blocks share a bucket exactly if their program counters agree in the low bits. */
  lemma BucketIs(pc: word32, other: word32)
    ensures PhysHash(pc) == PhysHash(other) <==> (pc - other) % PHYS_HASH_SIZE == 0
  {
    var n := PHYS_HASH_SIZE;
    var d := pc / n - other / n;
    if PhysHash(pc) == PhysHash(other) {
      DivModUnique(pc - other, n, d, 0);
    } else if pc % n > other % n {
      DivModUnique(pc - other, n, d, pc % n - other % n);
    } else {
      DivModUnique(pc - other, n, d - 1, pc % n - other % n + n);
    }
  }

  /** A translation block.  Its tag never changes after its creation. */
  class Tb {
    const pc: word32
    const tag: nat
    const funcAddr: word32
    var tcPtr: nat
    var physHashNext: Tb?

    constructor (pc: word32, funcAddr: word32, tag: nat)
      ensures this.pc == pc && this.tag == tag && this.funcAddr == funcAddr && tcPtr == NOT_TRANS_YET
    {
      this.pc, this.tag, this.funcAddr := pc, tag, funcAddr;
      tcPtr, physHashNext := NOT_TRANS_YET, null;
    }
  }

  // ----- The plain history of created blocks -----

  /** The newest block made for a program counter and a tag. */
  ghost function Newest(history: seq<Tb>, pc: word32, tag: nat): Tb? {
    if history == [] then null
    else
      var tb := history[|history| - 1];
      if tb.pc == pc && tb.tag == tag then tb else Newest(history[..|history| - 1], pc, tag)
  }

  /** The newest block whose program counter falls into a bucket of the hash table. */
  ghost function NewestInBucket(history: seq<Tb>, h: nat): Tb? {
    if history == [] then null
    else
      var tb := history[|history| - 1];
      if PhysHash(tb.pc) == h then tb else NewestInBucket(history[..|history| - 1], h)
  }

  /** What "newest" means: no block exactly if none was ever made, and by NewestAt the one after which no
      other was made. */
  lemma {:induction false} NewestIsLatest(history: seq<Tb>, pc: word32, tag: nat)
    ensures var tb := Newest(history, pc, tag);
            && (tb == null <==> forall i :: 0 <= i < |history| ==> !(history[i].pc == pc && history[i].tag == tag))
            && (tb != null ==> tb.pc == pc && tb.tag == tag && tb in history)
  {
    if history != [] {
      NewestIsLatest(history[..|history| - 1], pc, tag);
    }
  }

  lemma {:induction false} NewestAt(history: seq<Tb>, k: nat, pc: word32, tag: nat)
    requires k < |history| && history[k].pc == pc && history[k].tag == tag
    requires forall i :: k < i < |history| ==> !(history[i].pc == pc && history[i].tag == tag)
    ensures Newest(history, pc, tag) == history[k]
  {
    if k < |history| - 1 { NewestAt(history[..|history| - 1], k, pc, tag); }
  }

  lemma TakeTake<T>(s: seq<T>, m: nat, n: nat)
    requires n <= m <= |s|
    ensures s[..m][..n] == s[..n]
  {
  }

  /** Blocks of other buckets do not matter to the search for a program counter. */
  lemma {:induction false} NewestBeyond(history: seq<Tb>, n: nat, pc: word32, tag: nat)
    requires n <= |history|
    requires forall i :: n <= i < |history| ==> !(history[i].pc == pc && history[i].tag == tag)
    ensures Newest(history, pc, tag) == Newest(history[..n], pc, tag)
    decreases |history|
  {
    if n < |history| {
      NewestBeyond(history[..|history| - 1], n, pc, tag);
      TakeTake(history, |history| - 1, n);
    } else {
      assert history[..n] == history;
    }
  }

  /** The position of the newest block of a bucket among the first n blocks. */
  lemma {:induction false} BucketPosition(history: seq<Tb>, h: nat) returns (k: nat)
    ensures k <= |history|
    ensures NewestInBucket(history, h) == if k == 0 then null else history[k - 1]
    ensures k > 0 ==> PhysHash(history[k - 1].pc) == h
    ensures forall i :: k <= i < |history| ==> PhysHash(history[i].pc) != h
  {
    if history == [] {
      k := 0;
    } else if PhysHash(history[|history| - 1].pc) == h {
      k := |history|;
    } else {
      k := BucketPosition(history[..|history| - 1], h);
    }
  }

  /** A block of the right bucket that does not match can be skipped together with everything made since. */
  lemma SkipBlock(history: seq<Tb>, m: nat, h: nat, pc: word32, tag: nat) returns (k: nat)
    requires m <= |history| && h == PhysHash(pc)
    requires var tb := NewestInBucket(history[..m], h); tb != null && !(tb.pc == pc && tb.tag == tag)
    ensures k < m && history[k] == NewestInBucket(history[..m], h) && PhysHash(history[k].pc) == h
    ensures Newest(history[..m], pc, tag) == Newest(history[..k], pc, tag)
  {
    var n := BucketPosition(history[..m], h);
    k := n - 1;
    NewestBeyond(history[..m], k, pc, tag);
    TakeTake(history, m, k);
  }

  /** Where the chain ends or matches, the search is over. */
  lemma ChainEnd(history: seq<Tb>, h: nat, pc: word32, tag: nat)
    requires h == PhysHash(pc)
    requires var tb := NewestInBucket(history, h); tb == null || (tb.pc == pc && tb.tag == tag)
    ensures Newest(history, pc, tag) == NewestInBucket(history, h)
  {
    var n := BucketPosition(history, h);
    NewestBeyond(history, n, pc, tag);
    if n > 0 { assert history[..n][n - 1] == history[n - 1]; }
  }

  /** A newly made block comes first in its bucket and for its program counter, and changes nothing else. */
  lemma NewestAfterMake(history: seq<Tb>, tb: Tb, h: nat, pc: word32, tag: nat)
    ensures NewestInBucket(history + [tb], h) == if PhysHash(tb.pc) == h then tb else NewestInBucket(history, h)
    ensures Newest(history + [tb], pc, tag) == if tb.pc == pc && tb.tag == tag then tb else Newest(history, pc, tag)
  {
    assert (history + [tb])[..|history + [tb]| - 1] == history;
  }

  ghost predicate SlotOk(history: seq<Tb>, tb: Tb?, c: nat) {
    tb == null || (JmpCacheHash(tb.pc) == c && tb == Newest(history, tb.pc, tb.tag))
  }

  /** What a translation may do with blocks besides emitting code: look one up, make one, place the code of an
      existing one, or, if it has to stop before anything was emitted for a block it has placed, take that back. */
  datatype Action =
    | Find(pc: word32, tag: nat)
    | Make(pc: word32, func: word32)
    | Place(pc: word32, offset: nat)
    | Retract(pc: word32, offset: nat)

  /** How many blocks a translation makes. */
  function Makes(actions: seq<Action>): nat {
    if actions == [] then 0 else (if actions[0].Make? then 1 else 0) + Makes(actions[1..])
  }

  /** How control left the previous block. */
  datatype IndType = NOT_IND | SYSCALL | CALL | JMP | RET | RECUR | OTHER

  /** The function of a block that control has reached: after a call or a return its own address, after an indirect
      jump the destination, and directly or after a system call the function of the block before it. */
  predicate Attributed(tb: Tb, ind: IndType, indDest: word32, prev: Tb?) {
    && (ind == CALL || ind == RET ==> tb.funcAddr == tb.pc)
    && (ind == JMP || ind == RECUR ==> tb.funcAddr == indDest)
    && (ind == NOT_IND || ind == SYSCALL ==> tb.funcAddr == if prev != null then prev.funcAddr else 0)
    && (ind == OTHER ==> tb.funcAddr == 0)
  }

  /** The block, or no return: the original flushes all blocks by aborting. */
  datatype Made = Block(tb: Tb) | Abort

  class Translator {
    const maxBlocks: nat
    const bufferStart: nat
    const bufferMaxSize: nat
    const bufferSize: nat
    const physHash: array<Tb?>
    const jmpCache: array<Tb?>
    var nbTbs: nat
    var codeGenPtr: nat
    ghost var history: seq<Tb>

    /** The chain of every bucket leads from its newest block to ever older ones. */
    ghost predicate Chained()
      reads this, physHash, history
    {
      && physHash.Length == PHYS_HASH_SIZE
      && (forall i, j :: 0 <= i < j < |history| ==> history[i] != history[j])
      && (forall h :: 0 <= h < PHYS_HASH_SIZE ==> physHash[h] == NewestInBucket(history, h))
      && (forall i :: 0 <= i < |history| ==>
            history[i].physHashNext == NewestInBucket(history[..i], PhysHash(history[i].pc)))
    }

    /** Each slot of the jump cache is empty or holds the newest block for a program counter of that slot. */
    ghost predicate Cached()
      reads this, jmpCache
    {
      jmpCache.Length == CACHE_SIZE && forall c :: 0 <= c < CACHE_SIZE ==> SlotOk(history, jmpCache[c], c)
    }

    ghost predicate Valid()
      reads this, physHash, jmpCache, history
    {
      && Chained() && Cached() && physHash != jmpCache
      && nbTbs == |history| <= maxBlocks
      && bufferStart <= codeGenPtr <= bufferStart + bufferSize
      && !(bufferStart <= NOT_TRANS_YET <= bufferStart + bufferSize)
      && (forall i :: 0 <= i < |history| ==> history[i].tag == NORMAL_TB_TAG)
    }

    constructor (maxBlocks: nat, bufferStart: nat, bufferSize: nat, bufferMaxSize: nat)
      requires !(bufferStart <= NOT_TRANS_YET <= bufferStart + bufferSize)
      ensures Valid() && history == [] && codeGenPtr == bufferStart && fresh(physHash) && fresh(jmpCache)
      ensures this.maxBlocks == maxBlocks && this.bufferStart == bufferStart && this.bufferSize == bufferSize
              && this.bufferMaxSize == bufferMaxSize
    {
      this.maxBlocks, this.bufferStart, this.bufferSize := maxBlocks, bufferStart, bufferSize;
      this.bufferMaxSize := bufferMaxSize;
      physHash := new Tb?[PHYS_HASH_SIZE](i => null);
      jmpCache := new Tb?[CACHE_SIZE](i => null);
      nbTbs, codeGenPtr := 0, bufferStart;
      history := [];
    }

    /** Scans the chain of the bucket. */
    method ScanChain(pc: word32, tag: nat) returns (tb: Tb?)
      requires Chained()
      ensures tb == Newest(history, pc, tag)
    {
      var h := PhysHash(pc);
      tb := physHash[h];
      ghost var m: nat := |history|;
      assert history[..m] == history;
      while tb != null && !(tb.pc == pc && tb.tag == tag)
        invariant m <= |history| && tb == NewestInBucket(history[..m], h)
        invariant Newest(history, pc, tag) == Newest(history[..m], pc, tag)
        decreases m
      {
        m := SkipBlock(history, m, h, pc, tag);
        tb := NextInChain(tb, m);
      }
      ChainEnd(history[..m], h, pc, tag);
    }

    /** One step along a chain, from the block at position i to the newest older one in its bucket. */
    method NextInChain(tb: Tb, ghost i: nat) returns (next: Tb?)
      requires Chained() && i < |history| && history[i] == tb
      ensures next == NewestInBucket(history[..i], PhysHash(tb.pc))
    {
      next := tb.physHashNext;
    }

    /** The scan, which leaves what it finds in the jump cache. */
    method FindSlow(pc: word32, tag: nat) returns (tb: Tb?)
      requires Valid()
      modifies jmpCache
      ensures Valid() && tb == Newest(history, pc, tag)
    {
      tb := ScanChain(pc, tag);
      NewestIsLatest(history, pc, tag);
      if tb != null {
        jmpCache[JmpCacheHash(pc)] := tb;
      }
    }

    /** The cached lookup finds exactly what the scan would find. */
    method FindFast(pc: word32, tag: nat) returns (tb: Tb?)
      requires Valid()
      modifies jmpCache
      ensures Valid() && tb == Newest(history, pc, tag)
    {
      tb := jmpCache[JmpCacheHash(pc)];
      assert SlotOk(history, tb, JmpCacheHash(pc));
      if tb == null || tb.pc != pc || tag != tb.tag {
        tb := FindSlow(pc, tag);
      }
    }

    /** Makes a block and puts it at the head of its chain and into the jump cache.  The requested tag is
        ignored.  When the block table or the code buffer is full the program is aborted. */
    method MakeTb(pc: word32, funcAddr: word32, tag: nat) returns (made: Made)
      requires Valid()
      modifies this`nbTbs, this`history, physHash, jmpCache
      ensures Valid()
      ensures made.Abort? <==> |old(history)| >= maxBlocks || codeGenPtr - bufferStart >= bufferMaxSize
      ensures made.Abort? ==> history == old(history)
      ensures made.Block? ==> fresh(made.tb) && history == old(history) + [made.tb]
      ensures made.Block? ==> made.tb.pc == pc && made.tb.tag == NORMAL_TB_TAG && made.tb.funcAddr == funcAddr
      ensures made.Block? ==> made.tb.tcPtr == NOT_TRANS_YET
    {
      if nbTbs >= maxBlocks || codeGenPtr - bufferStart >= bufferMaxSize {
        return Abort;
      }
      nbTbs := nbTbs + 1;
      var tb := new Tb(pc, funcAddr, NORMAL_TB_TAG);
      LinkPage(tb);
      CacheNew(tb, old(history));
      made := Block(tb);
    }

    /** Puts a new block into its slot of the jump cache, where an older one with the same program counter
        would be. */
    method CacheNew(tb: Tb, ghost before: seq<Tb>)
      requires jmpCache.Length == CACHE_SIZE && history == before + [tb]
      requires forall c :: 0 <= c < CACHE_SIZE ==> SlotOk(before, jmpCache[c], c)
      modifies jmpCache
      ensures Cached()
    {
      jmpCache[JmpCacheHash(tb.pc)] := tb;
      forall c | 0 <= c < CACHE_SIZE ensures SlotOk(history, jmpCache[c], c) {
        if jmpCache[c] != null {
          assert c != JmpCacheHash(tb.pc) ==> old(SlotOk(before, jmpCache[c], c));
          NewestAfterMake(before, tb, 0, jmpCache[c].pc, jmpCache[c].tag);
        }
      }
    }

    method LinkPage(tb: Tb)
      requires Chained() && tb !in history && physHash != jmpCache
      modifies this`history, physHash, tb
      ensures Chained() && history == old(history) + [tb] && tb.tcPtr == old(tb.tcPtr)
    {
      var h := PhysHash(tb.pc);
      tb.physHashNext := physHash[h];
      physHash[h] := tb;
      history := history + [tb];
      forall b | 0 <= b < PHYS_HASH_SIZE ensures physHash[b] == NewestInBucket(history, b) {
        NewestAfterMake(old(history), tb, b, 0, 0);
      }
      forall i | 0 <= i < |history|
        ensures history[i].physHashNext == NewestInBucket(history[..i], PhysHash(history[i].pc))
      {
        assert history[..i] == old(history)[..i];
        assert old(history)[..|old(history)|] == old(history);
      }
    }

    // ----- Translation, seen as an oracle -----

    /** There is room to make n more blocks. */
    predicate Room(n: nat)
      reads this
    {
      n == 0 || (nbTbs + n <= maxBlocks && codeGenPtr - bufferStart < bufferMaxSize)
    }

    /** There is room to make n more blocks and to emit code. */
    predicate Fits(n: nat, size: nat)
      reads this
    {
      Room(n) && codeGenPtr + size - bufferStart <= bufferSize
    }

    /** Translates a block: its code starts at the current end of the code buffer.  The translation may look up,
        make and place other blocks, and emits "size" bytes. */
    method GenCode(tb: Tb, actions: seq<Action>, size: nat) returns (ok: bool)
      requires Valid() && tb in history
      modifies this`nbTbs, this`history, this`codeGenPtr, physHash, jmpCache, history
      ensures ok <==> old(Fits(Makes(actions), size))
      ensures ok ==> Valid() && Grown(old(history), Makes(actions))
      ensures ok ==> tb.tcPtr == old(codeGenPtr) != NOT_TRANS_YET && codeGenPtr == old(codeGenPtr) + size
    {
      tb.tcPtr := codeGenPtr;
      ok := Perform(tb, actions);
      if ok && codeGenPtr + size - bufferStart <= bufferSize {
        codeGenPtr := codeGenPtr + size;
      } else {
        ok := false;
      }
    }

    method Translate(tb: Tb, actions: seq<Action>, size: nat) returns (made: Made)
      requires Valid() && tb in history
      modifies this`nbTbs, this`history, this`codeGenPtr, physHash, jmpCache, history
      ensures made == if old(Fits(Makes(actions), size)) then Block(tb) else Abort
      ensures made.Block? ==> Valid() && Grown(old(history), Makes(actions))
      ensures made.Block? ==> tb.tcPtr == old(codeGenPtr) != NOT_TRANS_YET && codeGenPtr == old(codeGenPtr) + size
    {
      var ok := GenCode(tb, actions, size);
      made := if ok then Block(tb) else Abort;
    }

    /** This many blocks have been made. */
    ghost predicate Grown(before: seq<Tb>, n: nat)
      reads this
    {
      before <= history && |history| == |before| + n
    }

    method Perform(tb: Tb, actions: seq<Action>) returns (ok: bool)
      requires Valid() && tb in history && tb.tcPtr != NOT_TRANS_YET
      modifies this`nbTbs, this`history, physHash, jmpCache, history
      ensures ok <==> old(Room(Makes(actions)))
      ensures ok ==> Valid() && Grown(old(history), Makes(actions)) && tb.tcPtr == old(tb.tcPtr)
      decreases |actions|
    {
      if actions == [] {
        return true;
      }
      match actions[0] {
        case Find(pc, tag) =>
          var _ := FindFast(pc, tag);
        case Make(pc, func) =>
          var made := MakeTb(pc, func, NORMAL_TB_TAG);
          if made.Abort? { return false; }
        case Place(pc, offset) =>
          PlaceBlock(tb, pc, codeGenPtr + offset);
        case Retract(pc, offset) =>
          RetractBlock(tb, pc, codeGenPtr + offset);
      }
      ok := Perform(tb, actions[1..]);
    }

    /** Gives an existing block that has no code yet its place in the code being emitted. */
    method PlaceBlock(ghost tb: Tb, pc: word32, address: nat)
      requires Valid() && tb.tcPtr != NOT_TRANS_YET
      modifies jmpCache, history
      ensures Valid() && tb.tcPtr == old(tb.tcPtr)
    {
      var other := FindFast(pc, NORMAL_TB_TAG);
      NewestIsLatest(history, pc, NORMAL_TB_TAG);
      if other != null && other.tcPtr == NOT_TRANS_YET {
        other.tcPtr := address;
      }
    }

    /** Leaves a block other than the one being translated without code again if it was placed at an address. */
    method RetractBlock(tb: Tb, pc: word32, address: nat)
      requires Valid() && tb.tcPtr != NOT_TRANS_YET
      modifies jmpCache, history
      ensures Valid() && tb.tcPtr == old(tb.tcPtr)
    {
      var other := FindFast(pc, NORMAL_TB_TAG);
      NewestIsLatest(history, pc, NORMAL_TB_TAG);
      if other != null && other != tb && other.tcPtr == address {
        other.tcPtr := NOT_TRANS_YET;
      }
    }

    /** Makes the block for a program counter that control has reached: one reached by a call or a return belongs to
        itself, one reached by an indirect jump to the destination, and one reached directly or by a system call to the
        function of the block before it. */
    method MakeNext(curPc: word32, ind: IndType, indDest: word32, prev: Tb?) returns (made: Made)
      requires Valid()
      modifies this`nbTbs, this`history, physHash, jmpCache
      ensures Valid() && (made.Block? <==> old(Room(1)))
      ensures made.Block? ==> fresh(made.tb) && history == old(history) + [made.tb] && made.tb.pc == curPc
                              && made.tb.tag == NORMAL_TB_TAG && made.tb.tcPtr == NOT_TRANS_YET
      ensures made.Block? ==> Attributed(made.tb, ind, indDest, prev)
    {
      made := MakeTb(curPc, FuncAddr(ind, curPc, indDest, prev), NORMAL_TB_TAG);
    }

    method MakeTranslated(curPc: word32, ind: IndType, indDest: word32, prev: Tb?, actions: seq<Action>, size: nat)
      returns (made: Made)
      requires Valid()
      modifies this`nbTbs, this`history, this`codeGenPtr, physHash, jmpCache, history
      ensures made.Block? <==> old(Fits(1 + Makes(actions), size))
      ensures made.Block? ==> Valid() && Grown(old(history) + [made.tb], Makes(actions))
      ensures made.Block? ==> made.tb.pc == curPc && made.tb.tag == NORMAL_TB_TAG
      ensures made.Block? ==>
                made.tb.tcPtr == old(codeGenPtr) != NOT_TRANS_YET && codeGenPtr == old(codeGenPtr) + size
      ensures made.Block? ==> Attributed(made.tb, ind, indDest, prev)
    {
      made := MakeNext(curPc, ind, indDest, prev);
      if made.Abort? { return; }
      made := Translate(made.tb, actions, size);
    }

    /** The block for a program counter: found, or made and translated, so that it can be entered.  Code is emitted
        only for a block that has none. */
    method GetNextTb(curPc: word32, ind: IndType, indDest: word32, prev: Tb?, actions: seq<Action>, size: nat)
      returns (made: Made)
      requires Valid()
      modifies this`nbTbs, this`history, this`codeGenPtr, physHash, jmpCache, history
      ensures made.Block? ==> Valid() && old(history) <= history
      ensures made.Block? ==> made.tb.pc == curPc && made.tb.tag == NORMAL_TB_TAG && made.tb.tcPtr != NOT_TRANS_YET
      ensures var known := Newest(old(history), curPc, NORMAL_TB_TAG);
        made.Block? ==> if known == null then Grown(old(history) + [made.tb], Makes(actions)) else made.tb == known
      ensures var known := Newest(old(history), curPc, NORMAL_TB_TAG);
        var n := Makes(actions) + if known == null then 1 else 0;
        made.Block? <==>
          || (known != null && old(known.tcPtr) != NOT_TRANS_YET)
          || (&& (n > 0 ==> |old(history)| + n <= maxBlocks && old(codeGenPtr) - bufferStart < bufferMaxSize)
              && old(codeGenPtr) + size <= bufferStart + bufferSize)
      ensures made.Block? ==> var known := Newest(old(history), curPc, NORMAL_TB_TAG);
        if known == null || old(known.tcPtr) == NOT_TRANS_YET
        then made.tb.tcPtr == old(codeGenPtr) && codeGenPtr == old(codeGenPtr) + size
        else made.tb.tcPtr == old(known.tcPtr) && codeGenPtr == old(codeGenPtr) && history == old(history)
      ensures made.Block? && Newest(old(history), curPc, NORMAL_TB_TAG) == null ==>
                && (ind == CALL || ind == RET ==> made.tb.funcAddr == made.tb.pc)
                && (ind == JMP || ind == RECUR ==> made.tb.funcAddr == indDest)
                && (ind == NOT_IND || ind == SYSCALL ==> made.tb.funcAddr == if prev != null then prev.funcAddr else 0)
                && (ind == OTHER ==> made.tb.funcAddr == 0)
    {
      var tb := FindFast(curPc, NORMAL_TB_TAG);
      NewestIsLatest(history, curPc, NORMAL_TB_TAG);
      if tb == null {
        made := MakeTranslated(curPc, ind, indDest, prev, actions, size);
      } else {
        made := Block(tb);
        if tb.tcPtr == NOT_TRANS_YET {
          made := Translate(tb, actions, size);
        }
      }
    }
  }

  /** The function a block is attributed to when it is made on the way out of another one. */
  function FuncAddr(ind: IndType, curPc: word32, indDest: word32, prev: Tb?): word32 {
    match ind
    case CALL => curPc
    case RET => curPc
    case JMP => indDest
    case RECUR => indDest
    case OTHER => 0
    case _ => if prev != null then prev.funcAddr else 0
  }

  /** Since every block is made with the normal tag, no other tag is ever found. */
  lemma OnlyNormalTag(history: seq<Tb>, pc: word32, tag: nat)
    requires (forall i :: 0 <= i < |history| ==> history[i].tag == NORMAL_TB_TAG) && tag != NORMAL_TB_TAG
    ensures Newest(history, pc, tag) == null
  {
    NewestIsLatest(history, pc, tag);
  }

  // ----- Direct jumps between blocks -----

  /** The displacement written behind the opcode of a direct jump. */
  function JumpDisplacement(jmpAddr: word32, target: word32): word32 {
    (target - (jmpAddr + 4)) % B32
  }

  /** The processor adds the displacement to the address of the next instruction: the jump lands on its target,
      wherever the two are in the address space. */
  lemma JumpLands(jmpAddr: word32, target: word32)
    ensures (jmpAddr + 4 + JumpDisplacement(jmpAddr, target)) % B32 == target
  {
    var x := target - (jmpAddr + 4);
    DivModUnique(jmpAddr + 4 + x % B32, B32, -(x / B32), target);
  }

  const TB_FROM_MAX := 16

  datatype Jump = Jump(from: nat, stub: nat)

  /** The jumps into a block that are remembered, in a ring of fixed size. */
  class JumpSources {
    const from: array<Jump>
    var index: nat
    ghost var jumps: seq<Jump>

    ghost predicate Valid()
      reads this, from
    {
      && from.Length == TB_FROM_MAX && index == |jumps| % TB_FROM_MAX
      && forall k :: 0 <= k < |jumps| && |jumps| - TB_FROM_MAX <= k ==> from[k % TB_FROM_MAX] == jumps[k]
    }

    constructor ()
      ensures Valid() && jumps == [] && fresh(from)
    {
      from := new Jump[TB_FROM_MAX](i => Jump(0, 0));
      index := 0;
      jumps := [];
    }

    /** The ring always holds the most recent jumps. */
    method Add(j: Jump)
      requires Valid()
      modifies this, from
      ensures Valid() && jumps == old(jumps) + [j]
    {
      from[index] := j;
      index := index + 1;
      if index == TB_FROM_MAX {
        index := 0;
      }
      jumps := jumps + [j];
    }
  }
}
