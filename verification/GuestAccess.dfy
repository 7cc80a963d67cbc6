/** Access to guest memory page by page (linux-user/qemu.h, linux-user/uaccess.c, cutils.c, exec.c).

    Guest memory is 2^32 bytes, of which the page table says which may be accessed.  It lies in the host's memory from
    the guest base on, and a routine takes the host address of what it has locked for a failure if it is null.  The
    routines that work on one page at a time are related to definitions that look at one byte at a time. */
module GuestAccess {
  import opened Common
  import opened Words
  import opened PageTable

  const EFAULT := 14

  /** The address a number of bytes further on, wrapping around at the end of the address space. */
  function After(addr: word32, n: nat): word32
    requires n <= B32
  {
    if addr + n < B32 then addr + n else addr + n - B32
  }

  type memory = m: seq<byte> | |m| == B32 witness seq(B32, i => 0)

  /** The bytes at n consecutive addresses. */
  function Peek(m: memory, addr: word32, n: nat): (r: seq<byte>)
    requires n <= B32
    ensures |r| == n && forall i: nat :: i < n ==> r[i] == m[After(addr, i)]
  {
    seq(n, i requires 0 <= i < n => m[After(addr, i)])
  }

  /** The memory after storing bytes one by one. */
  function Poke(m: memory, addr: word32, bytes: seq<byte>): memory
    requires |bytes| <= B32
    decreases |bytes|
  {
    if bytes == [] then m else Poke(m[addr := bytes[0]], After(addr, 1), bytes[1..])
  }

  /** Storing a block in one piece. */
  lemma {:induction false} PokeBlock(m: memory, addr: word32, bytes: seq<byte>)
    requires addr + |bytes| <= B32
    ensures Poke(m, addr, bytes) == m[..addr] + bytes + m[addr + |bytes|..]
    decreases |bytes|
  {
    if bytes != [] {
      if |bytes| > 1 {
        PokeBlock(m[addr := bytes[0]], addr + 1, bytes[1..]);
      } else {
        assert bytes[1..] == [];
      }
    }
  }

  lemma {:induction false} PokeAppend(m: memory, addr: word32, first: seq<byte>, second: seq<byte>)
    requires |first| + |second| <= B32
    ensures Poke(m, addr, first + second) == Poke(Poke(m, addr, first), After(addr, |first|), second)
    decreases |first|
  {
    if first == [] {
      assert first + second == second;
    } else {
      var rest := first[1..];
      assert (first + second)[1..] == rest + second;
      PokeAppend(m[addr := first[0]], After(addr, 1), rest, second);
    }
  }

  /** What a block of addresses does not contain is not changed by storing to it. */
  lemma {:induction false} PokeElsewhere(m: memory, addr: word32, bytes: seq<byte>, other: word32)
    requires |bytes| <= B32 && forall i: nat :: i < |bytes| ==> After(addr, i) != other
    ensures Poke(m, addr, bytes)[other] == m[other]
    decreases |bytes|
  {
    if bytes != [] {
      assert After(addr, 0) == addr;
      forall i: nat | i < |bytes| - 1 ensures After(After(addr, 1), i) != other {
        assert After(addr, i + 1) != other;
      }
      PokeElsewhere(m[addr := bytes[0]], After(addr, 1), bytes[1..], other);
    }
  }

  /** What was stored can be read back, whatever it was. */
  lemma {:induction false} PeekPoke(m: memory, addr: word32, bytes: seq<byte>)
    requires |bytes| <= B32
    ensures Peek(Poke(m, addr, bytes), addr, |bytes|) == bytes
    decreases |bytes|
  {
    if bytes != [] {
      var m', next, rest := m[addr := bytes[0]], After(addr, 1), bytes[1..];
      PeekPoke(m', next, rest);
      PokeElsewhere(m', next, rest, addr);
      forall i: nat | i < |bytes| ensures Poke(m, addr, bytes)[After(addr, i)] == bytes[i] {
        if i > 0 {
          assert Peek(Poke(m', next, rest), next, |rest|)[i - 1] == rest[i - 1];
        }
      }
    }
  }

  /** Whether one byte may be transferred: its page must permit it, and it must not be the barred one. */
  predicate May(permits: seq<bool>, barred: int, addr: word32)
    requires |permits| == PAGES
  {
    permits[addr / PAGE_SIZE] && addr != barred
  }

  /** The number of bytes that can be transferred one by one until the first one that is not permitted. */
  function Allowed(permits: seq<bool>, barred: int, addr: word32, len: nat): (n: nat)
    requires |permits| == PAGES && len <= B32
    ensures n <= len
    ensures n < len ==> !May(permits, barred, After(addr, n))
    decreases len
  {
    if len == 0 || !May(permits, barred, addr) then 0 else 1 + Allowed(permits, barred, After(addr, 1), len - 1)
  }

  ghost predicate AllPermitted(permits: seq<bool>, barred: int, addr: word32, n: nat)
    requires |permits| == PAGES && n <= B32
  {
    forall i: nat :: i < n ==> May(permits, barred, After(addr, i))
  }

  lemma {:induction false} AllowedIs(permits: seq<bool>, barred: int, addr: word32, n: nat, len: nat)
    requires |permits| == PAGES && n <= len <= B32 && AllPermitted(permits, barred, addr, n)
    requires n < len ==> !May(permits, barred, After(addr, n))
    ensures Allowed(permits, barred, addr, len) == n
    decreases n
  {
    assert After(addr, 0) == addr;
    if n > 0 {
      assert May(permits, barred, After(addr, 0));
      var next := After(addr, 1);
      forall i: nat | i < n - 1 ensures May(permits, barred, After(next, i)) {
        assert After(next, i) == After(addr, i + 1);
      }
      AllowedIs(permits, barred, next, n - 1, len - 1);
    }
  }

  /** A block within one page is permitted as a whole if its page and its first byte are; only the first byte of a
      transfer or of a page may be barred. */
  lemma PermittedBlock(permits: seq<bool>, barred: int, start: word32, done: nat, size: nat)
    requires |permits| == PAGES && done + size < B32 && AllPermitted(permits, barred, start, done)
    requires After(start, done) % PAGE_SIZE + size <= PAGE_SIZE && May(permits, barred, After(start, done))
    requires barred % PAGE_SIZE == 0 || barred == start || barred < 0
    ensures AllPermitted(permits, barred, start, done + size)
  {
    var addr := After(start, done);
    SamePage(addr, size);
    forall i: nat | done <= i < done + size ensures May(permits, barred, After(start, i)) {
      assert After(start, i) == addr + (i - done);
      if i > done { InsidePage(addr, i - done); }
    }
  }

  /** Behind its beginning a page has no multiple of the page size. */
  lemma InsidePage(addr: word32, k: nat)
    requires 0 < k && addr % PAGE_SIZE + k < PAGE_SIZE
    ensures (addr + k) % PAGE_SIZE != 0
  {
    DivModUnique(addr + k, PAGE_SIZE, addr / PAGE_SIZE, addr % PAGE_SIZE + k);
  }

  /** A transfer that fails does so at the beginning of a page, or with its first byte. */
  lemma {:induction false} FailsAtBoundary(permits: seq<bool>, barred: int, addr: word32, len: nat)
    requires |permits| == PAGES && len <= B32 && Allowed(permits, barred, addr, len) < len
    requires barred % PAGE_SIZE == 0 || barred == addr || barred < 0
    ensures var n := Allowed(permits, barred, addr, len); n == 0 || After(addr, n) % PAGE_SIZE == 0
    decreases len
  {
    if May(permits, barred, addr) {
      FailsAtBoundary(permits, barred, After(addr, 1), len - 1);
      NextByte(addr);
    }
  }

  /** The memory and the buffer after a transfer of n bytes, one by one. */
  function Written(m: memory, start: word32, buf: seq<byte>, n: nat, write: bool): memory
    requires n <= |buf| && n <= B32
  {
    if write then Poke(m, start, buf[..n]) else m
  }

  function Received(m: memory, start: word32, buf: seq<byte>, n: nat, write: bool): seq<byte>
    requires n <= |buf| && n <= B32
  {
    if write then buf else Peek(m, start, n) + buf[n..]
  }

  /** What a transfer has written, a later one reads. */
  lemma WriteThenRead(m: memory, start: word32, data: seq<byte>, buf: seq<byte>, n: nat)
    requires n <= |data| && n <= |buf| && n <= B32
    ensures Received(Written(m, start, data, n, true), start, buf, n, false) == data[..n] + buf[n..]
  {
    PeekPoke(m, start, data[..n]);
  }

  /** Where the host keeps the guest's memory, in an address space of a given size. */
  datatype Host = Host(base: nat, space: nat)

  type host = h: Host | h.base < h.space && B32 <= h.space witness Host(0, B32)

  /** The host address of a guest address. */
  function HostAddress(h: host, addr: word32): nat {
    if addr + h.base < h.space then addr + h.base else addr + h.base - h.space
  }

  /** The guest address whose host address is null, if it is one. */
  function NullAt(h: host): nat {
    if h.base == 0 then 0 else h.space - h.base
  }

  lemma NullOnce(h: host, addr: word32)
    ensures HostAddress(h, addr) == 0 <==> addr == NullAt(h)
  {
  }

  /** No guest address is null exactly if there is a base and the guest's memory ends within the host's addresses. */
  lemma NeverNull(h: host)
    ensures (forall addr: word32 :: HostAddress(h, addr) != 0) <==> 0 < h.base && h.base + B32 <= h.space
  {
    if !(0 < h.base && h.base + B32 <= h.space) { NullOnce(h, NullAt(h)); }
    if 0 < h.base && h.base + B32 <= h.space {
      forall addr: word32 ensures HostAddress(h, addr) != 0 { NullOnce(h, addr); }
    }
  }

  class Guest {
    const pages: PageMap
    const host: host
    var bytes: memory

    constructor (pages: PageMap, host: host, bytes: memory)
      ensures this.pages == pages && this.host == host && this.bytes == bytes
    {
      this.pages, this.host, this.bytes := pages, host, bytes;
    }

    // ----- Locking -----

    /** What is locked at this address looks like a failure. */
    predicate Null(addr: nat) {
      addr == NullAt(host)
    }

    /** What a lock makes of the verdict on the range. */
    function Locked(r: Outcome, addr: word32): Outcome {
      if r == Ok && Null(addr) then Fault else r
    }

    /** The verdict on a range for writing: only its first page counts. */
    ghost function RangeWritable(addr: word32, len: word32): Outcome
      requires pages.Valid()
      reads pages, pages.repr
    {
      if len == 0 then Ok
      else if addr + len > B32 then Fault
      else if WrapsToNothing(addr, addr + len) then Ok
      else pages.WriteOutcome(addr / PAGE_SIZE, PAGE_READ + PAGE_WRITE)
    }

    /** Whether a range is taken to be readable: correctly, unless it reaches from the first page into the last. */
    ghost predicate RangeReadable(addr: word32, len: word32)
      requires pages.Valid()
      reads pages, pages.repr
    {
      len == 0
      || (addr + len <= B32
          && (WrapsToNothing(addr, addr + len) || pages.RangeOk(addr, addr + len, PAGE_READ)))
    }

    /** Locks a range for reading or for writing, which fails if it may not be accessed or if its host address is
        null. */
    method Lock(write: bool, addr: word32, len: word32) returns (r: Outcome)
      requires pages.Valid()
      ensures !write ==> (r == Ok <==> RangeReadable(addr, len) && !Null(addr))
      ensures write ==> r == Locked(RangeWritable(addr, len), addr)
    {
      assert !Has(PAGE_READ, PAGE_WRITE) && Has(PAGE_READ + PAGE_WRITE, PAGE_WRITE);
      r := pages.CheckRange(addr, len, if write then PAGE_READ + PAGE_WRITE else PAGE_READ);
      if r == Ok {
        NullOnce(host, addr);
        if HostAddress(host, addr) == 0 {
          return Fault;
        }
      }
    }

    /** Locks a part of one page. */
    method LockBlock(write: bool, addr: word32, len: word32) returns (r: Outcome)
      requires pages.Valid() && len > 0 && addr % PAGE_SIZE + len <= PAGE_SIZE
      ensures !write ==> (r == Ok <==> pages.PageOk(addr / PAGE_SIZE, PAGE_READ) && !Null(addr))
      ensures write ==> r == Locked(pages.WriteOutcome(addr / PAGE_SIZE, PAGE_READ + PAGE_WRITE), addr)
    {
      BlockRange(addr, len);
      r := Lock(write, addr, len);
    }

    /** A range within one page. */
    lemma BlockRange(addr: word32, len: word32)
      requires pages.Valid() && len > 0 && addr % PAGE_SIZE + len <= PAGE_SIZE
      ensures RangeReadable(addr, len) <==> pages.PageOk(addr / PAGE_SIZE, PAGE_READ)
      ensures RangeWritable(addr, len) == pages.WriteOutcome(addr / PAGE_SIZE, PAGE_READ + PAGE_WRITE)
    {
      OnePage(addr, len);
      assert InRange(addr / PAGE_SIZE, addr, addr + len);
    }

    /** Whether an address may be read. */
    ghost predicate Readable(addr: nat)
      requires pages.Valid()
      reads pages, pages.repr
    {
      pages.PageOk(addr / PAGE_SIZE, PAGE_READ)
    }

    // ----- The length of a string -----

    /** The number of bytes from an address up to the first one that is zero, or "max". */
    method Strnlen(addr: word32, max: nat) returns (len: nat)
      requires addr + max <= B32
      ensures len <= max && forall a: nat :: addr <= a < addr + len ==> bytes[a] != 0
      ensures len < max ==> bytes[addr + len] == 0
    {
      len := 0;
      while len < max
        invariant len <= max && forall a: nat :: addr <= a < addr + len ==> bytes[a] != 0
      {
        if bytes[addr + len] == 0 {
          break;
        }
        len := len + 1;
      }
    }

    /** What is locked at an address while scanning from "start" looks like a failure: this matters for the beginnings
        of the parts that are scanned. */
    ghost predicate Blocked(start: nat, a: nat) {
      Null(a) && (a == start || a % PAGE_SIZE == 0)
    }

    /** The string at an address has length n: its first zero byte is n bytes further on, everything up to there
        is readable, and neither the address nor the length overflows - nor is the end at address 0, nor does a page
        that has to be scanned begin where the host's address is null. */
    ghost predicate HasLength(addr: word32, n: nat)
      requires pages.Valid()
      reads this, pages, pages.repr
    {
      && 0 < addr + n < B32 && n <= 0x7fff_ffff
      && bytes[addr + n] == 0 && (forall a: nat :: addr <= a < addr + n ==> bytes[a] != 0)
      && (forall a: nat :: addr <= a <= addr + n ==> Readable(a) && !Blocked(addr, a))
    }

    /** Scans the rest of a page for a zero byte. */
    method ScanPage(addr: word32, max: nat) returns (ok: bool, len: nat)
      requires pages.Valid() && max == PAGE_SIZE - addr % PAGE_SIZE
      ensures ok <==> Readable(addr) && !Null(addr)
      ensures ok ==> len <= max && addr + len <= B32
      ensures ok ==> forall a: nat :: addr <= a < addr + len ==> bytes[a] != 0 && Readable(a)
      ensures ok && len < max ==> addr + len < B32 && bytes[addr + len] == 0 && Readable(addr + len)
    {
      SamePage(addr, max);
      var r := LockBlock(false, addr, max);
      if r != Ok {
        return false, 0;
      }
      ok := true;
      len := Strnlen(addr, max);
    }

    /** Behind its beginning nothing in a scanned part is blocked. */
    lemma NotBlocked(start: word32, addr: word32, len: nat)
      requires !Null(addr) && len <= PAGE_SIZE - addr % PAGE_SIZE
      requires addr == start || (addr > start && addr % PAGE_SIZE == 0)
      ensures forall a: nat :: addr <= a < addr + len ==> !Blocked(start, a)
      ensures len < PAGE_SIZE - addr % PAGE_SIZE ==> !Blocked(start, addr + len)
    {
      forall a: nat | addr < a < addr + PAGE_SIZE - addr % PAGE_SIZE ensures !Blocked(start, a) {
        InsidePage(addr, a - addr);
      }
    }

    lemma LengthFound(start: word32, end: word32)
      requires pages.Valid() && start <= end && end > 0 && end - start <= 0x7fff_ffff && bytes[end] == 0
               && Readable(end) && !Blocked(start, end)
      requires forall a: nat :: start <= a < end ==> bytes[a] != 0 && Readable(a) && !Blocked(start, a)
      ensures HasLength(start, end - start)
    {
    }

    /** No zero byte comes in time. */
    lemma NoLength(start: word32, end: nat)
      requires pages.Valid() && start <= end <= B32 && forall a: nat :: start <= a < end ==> bytes[a] != 0
      requires end == B32 || !Readable(end) || Blocked(start, end) || (end == 0 && bytes[0] == 0)
               || end - start > 0x7fff_ffff
      ensures forall n: nat :: !HasLength(start, n)
    {
      forall n: nat ensures !HasLength(start, n) {
        if start + n < B32 && end <= start + n { assert end < B32 ==> start <= end <= start + n; }
      }
    }

    /** The result is the length of the string, if it has one, and otherwise an error. */
    method TargetStrlen(start: word32) returns (r: int)
      requires pages.Valid()
      ensures r >= 0 ==> HasLength(start, r)
      ensures r < 0 ==> r == -EFAULT && forall n: nat :: !HasLength(start, n)
    {
      var addr := start;
      while true
        invariant start <= addr < B32 && addr - start <= 0x7fff_ffff && (addr == start || addr > 0)
        invariant addr == start || addr % PAGE_SIZE == 0
        invariant Scanned(start, addr)
        decreases B32 - addr
      {
        var done, next := ScanNext(start, addr);
        if done {
          return next;
        }
        addr := next;
      }
    }

    /** Everything up to an address can be scanned and is not zero. */
    ghost predicate Scanned(start: nat, end: nat)
      requires pages.Valid() && end <= B32
      reads this, pages, pages.repr
    {
      forall a: nat :: start <= a < end ==> bytes[a] != 0 && Readable(a) && !Blocked(start, a)
    }

    /** One round of the scan: the result, or where to go on. */
    method ScanNext(start: word32, addr: word32) returns (done: bool, r: int)
      requires pages.Valid() && start <= addr && addr - start <= 0x7fff_ffff && (addr == start || addr > 0)
      requires (addr == start || addr % PAGE_SIZE == 0) && Scanned(start, addr)
      ensures done && r >= 0 ==> HasLength(start, r)
      ensures done && r < 0 ==> r == -EFAULT && forall n: nat :: !HasLength(start, n)
      ensures !done ==> addr < r < B32 && r - start <= 0x7fff_ffff && r % PAGE_SIZE == 0 && Scanned(start, r)
    {
      var max := PAGE_SIZE - addr % PAGE_SIZE;
      var ok, len := ScanPage(addr, max);
      if !ok {
        NoLength(start, addr);
        return true, -EFAULT;
      }
      NotBlocked(start, addr, len);
      var next := After(addr, len);
      if next == 0 || Distance(next, start) > 0x7fff_ffff {
        NoLength(start, addr + len);
        return true, -EFAULT;
      }
      if len != max {
        LengthFound(start, next);
        return true, Distance(next, start);
      }
      PageEnd(addr);
      return false, next;
    }

    // ----- Copying a range as a whole -----

    /** Copies a range from the guest if all of it is readable and it is not at the null address, and nothing
        otherwise. */
    method CopyFromUser(buf: array<byte>, addr: word32, len: word32) returns (r: int)
      requires pages.Valid() && len <= buf.Length
      modifies buf
      ensures r == if RangeReadable(addr, len) && !Null(addr) then 0 else -EFAULT
      ensures buf[..] == if r == 0 then Peek(bytes, addr, len) + old(buf[len..]) else old(buf[..])
    {
      var ok := Lock(false, addr, len);
      if ok == Ok {
        if len > 0 { CopyIn(addr, buf, 0, len); }
        assert buf[..] == Peek(bytes, addr, len) + old(buf[len..]);
        return 0;
      }
      return -EFAULT;
    }

    /** Copies a range to the guest if its first page is writable and it is not at the null address. */
    method CopyToUser(addr: word32, buf: array<byte>, len: word32) returns (r: Outcome)
      requires pages.Valid() && len <= buf.Length
      modifies this`bytes
      ensures r == Locked(RangeWritable(addr, len), addr)
      ensures bytes == if r == Ok then Poke(old(bytes), addr, buf[..len]) else old(bytes)
    {
      r := Lock(true, addr, len);
      if r == Ok && len > 0 {
        PokeBlock(bytes, addr, buf[..len]);
        bytes := bytes[..addr] + buf[..len] + bytes[addr + len..];
      }
    }

    // ----- Access on behalf of a debugger -----

    /** Whether the bytes of a page may be read or written by the debugger. */
    ghost predicate Permits(index: nat, write: bool)
      requires pages.Valid()
      reads pages, pages.repr
    {
      && pages.PageOk(index, PAGE_READ)
      && (write ==> Has(pages.Flags(index), PAGE_WRITE) && Has(pages.Flags(index), PAGE_WRITE_ORG))
    }

    ghost predicate Permitted(permits: seq<bool>, write: bool)
      requires pages.Valid()
      reads pages, pages.repr
    {
      |permits| == PAGES && forall i: nat :: i < PAGES ==> permits[i] == Permits(i, write)
    }

    /** The address where a transfer from "start" finds a null lock: only the first byte of the transfer or of a page
        can be the beginning of what is locked. */
    function Barred(start: word32): (b: int)
      ensures b % PAGE_SIZE == 0 || b == start || b < 0
    {
      if NullAt(host) == start || NullAt(host) % PAGE_SIZE == 0 then NullAt(host) else -1
    }

    /** Transfers a part of one page. */
    method TransferPage(addr: word32, buf: array<byte>, from: nat, size: word32, write: bool) returns (ok: bool)
      requires pages.Valid() && size > 0 && addr % PAGE_SIZE + size <= PAGE_SIZE && from + size <= buf.Length
      modifies this`bytes, buf
      ensures ok <==> Permits(addr / PAGE_SIZE, write) && !Null(addr)
      ensures write ==> buf[..] == old(buf[..])
      ensures write ==> bytes == if ok then Poke(old(bytes), addr, buf[from..from + size]) else old(bytes)
      ensures !write ==> bytes == old(bytes)
      ensures !write ==> buf[..] == if ok then old(buf[..from]) + Peek(bytes, addr, size) + old(buf[from + size..])
                                   else old(buf[..])
    {
      PageNumber(addr / PAGE_SIZE);
      var flags := pages.GetFlags(addr / PAGE_SIZE * PAGE_SIZE);
      if !Has(flags, PAGE_VALID) {
        return false;
      }
      if write {
        if !Has(flags, PAGE_WRITE) {
          return false;
        }
        ok := CopyOut(addr, buf[from..from + size]);
      } else {
        if !Has(flags, PAGE_READ) {
          return false;
        }
        var r := LockBlock(false, addr, size);
        if r != Ok {
          return false;
        }
        SamePage(addr, size);
        CopyIn(addr, buf, from, size);
        ok := true;
      }
    }

    /** Stores bytes in a page whose stored flags let it be written, if it may be locked. */
    method CopyOut(addr: word32, block: seq<byte>) returns (ok: bool)
      requires pages.Valid() && 0 < |block| && addr % PAGE_SIZE + |block| <= PAGE_SIZE
      requires Has(pages.Flags(addr / PAGE_SIZE), PAGE_WRITE)
      modifies this`bytes
      ensures ok <==> Permits(addr / PAGE_SIZE, true) && !Null(addr)
      ensures bytes == if ok then Poke(old(bytes), addr, block) else old(bytes)
    {
      assert Has(PAGE_READ + PAGE_WRITE, PAGE_READ) && Has(PAGE_READ + PAGE_WRITE, PAGE_WRITE);
      var r := LockBlock(true, addr, |block|);
      if r != Ok {
        return false;
      }
      SamePage(addr, |block|);
      PokeBlock(bytes, addr, block);
      bytes := bytes[..addr] + block + bytes[addr + |block|..];
      return true;
    }

    method CopyIn(addr: word32, buf: array<byte>, from: nat, size: nat)
      requires addr + size <= B32 && from + size <= buf.Length
      modifies buf
      ensures buf[..] == old(buf[..from]) + Peek(bytes, addr, size) + old(buf[from + size..])
    {
      for i := 0 to size
        invariant buf[..from] == old(buf[..from]) && buf[from + size..] == old(buf[from + size..])
        invariant forall j: nat :: from <= j < from + i ==> buf[j] == bytes[After(addr, j - from)]
      {
        DivModUnique(addr + i, B32, 0, addr + i);
        buf[from + i] := bytes[addr + i];
      }
      assert buf[from..from + size] == Peek(bytes, addr, size);
      assert buf[..] == buf[..from] + buf[from..from + size] + buf[from + size..];
    }

    /** Transfers a part of one page, given what was transferred before. */
    method TransferBlock(start: word32, buf: array<byte>, done: nat, size: word32, write: bool, addr: word32,
                         ghost before: memory, ghost was: seq<byte>)
      returns (ok: bool)
      requires pages.Valid() && size > 0 && addr % PAGE_SIZE + size <= PAGE_SIZE
      requires done + size <= buf.Length == |was| && done + size < B32 && addr == After(start, done)
      requires bytes == Written(before, start, was, done, write) && buf[..] == Received(before, start, was, done, write)
      modifies this`bytes, buf
      ensures ok <==> Permits(addr / PAGE_SIZE, write) && !Null(addr)
      ensures bytes == Written(before, start, was, if ok then done + size else done, write)
      ensures buf[..] == Received(before, start, was, if ok then done + size else done, write)
    {
      ghost var m, seen := bytes, buf[..];
      assert buf[done..done + size] == seen[done..done + size];
      assert buf[..done] == seen[..done] && buf[done + size..] == seen[done + size..];
      ok := TransferPage(addr, buf, done, size, write);
      if ok {
        Moved(before, start, was, done, size, write, m, seen, bytes, buf[..]);
      }
    }

    /** Whether the next part may be transferred, and what that means for the whole. */
    lemma NextPermitted(start: word32, done: nat, size: nat, write: bool, addr: word32, total: nat, permits: seq<bool>)
      requires pages.Valid() && 0 < size && addr % PAGE_SIZE + size <= PAGE_SIZE
      requires (done == 0 || addr % PAGE_SIZE == 0) && done + size <= total < B32 && addr == After(start, done)
      requires Permitted(permits, write) && AllPermitted(permits, Barred(start), start, done)
      ensures if Permits(addr / PAGE_SIZE, write) && !Null(addr)
              then AllPermitted(permits, Barred(start), start, done + size)
              else Allowed(permits, Barred(start), start, total) == done
    {
      assert After(start, 0) == start;
      assert May(permits, Barred(start), addr) <==> Permits(addr / PAGE_SIZE, write) && !Null(addr);
      if May(permits, Barred(start), addr) {
        PermittedBlock(permits, Barred(start), start, done, size);
      } else {
        AllowedIs(permits, Barred(start), start, done, total);
      }
    }

    method TransferNext(start: word32, buf: array<byte>, done: nat, size: word32, write: bool, addr: word32,
                        ghost total: nat, ghost permits: seq<bool>, ghost before: memory, ghost was: seq<byte>)
      returns (ok: bool, ghost now: nat)
      requires pages.Valid() && size > 0 && addr % PAGE_SIZE + size <= PAGE_SIZE
      requires done == 0 || addr % PAGE_SIZE == 0
      requires done + size <= total <= buf.Length == |was| && total < B32 && addr == After(start, done)
      requires bytes == Written(before, start, was, done, write) && buf[..] == Received(before, start, was, done, write)
      requires Permitted(permits, write) && AllPermitted(permits, Barred(start), start, done)
      modifies this`bytes, buf
      ensures now == (if ok then done + size else done) && After(start, now) == if ok then After(addr, size) else addr
      ensures !ok ==> Allowed(permits, Barred(start), start, total) == done
      ensures AllPermitted(permits, Barred(start), start, now)
      ensures bytes == Written(before, start, was, now, write)
      ensures buf[..] == Received(before, start, was, now, write)
    {
      NextPermitted(start, done, size, write, addr, total, permits);
      ok := TransferBlock(start, buf, done, size, write, addr, before, was);
      now := if ok then done + size else done;
    }

    /** Transfers bytes until one is not permitted: the same as transferring them one by one. */
    method RwDebug(start: word32, buf: array<byte>, length: int, write: bool, ghost permits: seq<bool>) returns (r: int)
      requires pages.Valid() && Permitted(permits, write) && length <= buf.Length && length < B32
      modifies this`bytes, buf
      ensures var n := if length <= 0 then 0 else Allowed(permits, Barred(start), start, length);
              && r == (if n < length then -1 else 0)
              && bytes == Written(old(bytes), start, old(buf[..]), n, write)
              && buf[..] == Received(old(bytes), start, old(buf[..]), n, write)
    {
      var addr, done, len := start, 0, length;
      ghost var before, was, total, now := bytes, buf[..], if length <= 0 then 0 else length, 0;
      assert After(start, 0) == start && was[0..] == was && Peek(bytes, start, 0) == [];
      while len > 0
        invariant len == length - done && done == now <= total && addr == After(start, now)
        invariant bytes == Written(before, start, was, now, write)
        invariant buf[..] == Received(before, start, was, now, write)
        invariant AllPermitted(permits, Barred(start), start, now) && (now == 0 || len <= 0 || addr % PAGE_SIZE == 0)
        decreases len
      {
        var size := ChunkSize(addr, len);
        var ok;
        ok, now := TransferNext(start, buf, done, size, write, addr, total, permits, before, was);
        if !ok {
          return -1;
        }
        len, done, addr := len - size, done + size, After(addr, size);
      }
      AllowedIs(permits, Barred(start), start, done, total);
      return 0;
    }

    /** The number of bytes up to the end of the page, but no more than are left. */
    method ChunkSize(addr: word32, len: int) returns (size: word32)
      requires 0 < len
      ensures 0 < size <= len && addr % PAGE_SIZE + size <= PAGE_SIZE
      ensures size < len ==> After(addr, size) % PAGE_SIZE == 0
    {
      PageEnd(addr);
      SamePage(addr, PAGE_SIZE - addr % PAGE_SIZE);
      var page := addr / PAGE_SIZE * PAGE_SIZE;
      var room := PAGE_SIZE - (addr - page);
      size := if room > len then len else room;
    }
  }

  /** Without a guest base nothing can be read at address 0, even if its page is mapped and readable. */
  method NothingAtZero(g: Guest, buf: array<byte>, n: word32, ghost permits: seq<bool>)
    returns (length: int, copied: int, debugged: int)
    requires g.pages.Valid() && g.host.base == 0 && g.Permitted(permits, false) && 0 < n <= buf.Length
    modifies g`bytes, buf
    ensures length == copied == -EFAULT && debugged == -1
    ensures g.bytes == old(g.bytes) && buf[..] == old(buf[..])
  {
    length := g.TargetStrlen(0);
    assert length >= 0 ==> g.Blocked(0, 0);
    copied := g.CopyFromUser(buf, 0, n);
    AllowedIs(permits, g.Barred(0), 0, 0, n);
    debugged := g.RwDebug(0, buf, n, false, permits);
    assert buf[..] == Peek(old(g.bytes), 0, 0) + old(buf[..])[0..];
  }

  lemma PageEnd(addr: word32)
    ensures (addr + (PAGE_SIZE - addr % PAGE_SIZE)) % PAGE_SIZE == 0
  {
    PageNumber(addr / PAGE_SIZE + 1);
  }

  lemma NextByte(addr: word32)
    ensures After(addr, 1) % PAGE_SIZE != 0 ==> After(addr, 1) / PAGE_SIZE == addr / PAGE_SIZE
    ensures addr % PAGE_SIZE + 1 < PAGE_SIZE ==>
              After(addr, 1) / PAGE_SIZE == addr / PAGE_SIZE && After(addr, 1) % PAGE_SIZE == addr % PAGE_SIZE + 1
  {
    if addr + 1 < B32 {
      DivModUnique(addr + 1, B32, 0, addr + 1);
      if addr % PAGE_SIZE + 1 < PAGE_SIZE {
        DivModUnique(addr + 1, PAGE_SIZE, addr / PAGE_SIZE, addr % PAGE_SIZE + 1);
      }
    }
  }

  /** One more block stored, and one more block read. */
  lemma WriteStep(m: memory, start: word32, buf: seq<byte>, done: nat, size: nat)
    requires done + size <= |buf| && done + size < B32
    ensures Poke(Poke(m, start, buf[..done]), After(start, done), buf[done..done + size])
            == Poke(m, start, buf[..done + size])
  {
    assert buf[..done + size] == buf[..done] + buf[done..done + size];
    PokeAppend(m, start, buf[..done], buf[done..done + size]);
  }

  lemma ReadStep(m: memory, start: word32, was: seq<byte>, now: seq<byte>, done: nat, size: nat)
    requires done + size <= |was| && done + size < B32 && now == Peek(m, start, done) + was[done..]
    ensures now[..done] + Peek(m, After(start, done), size) + now[done + size..]
            == Peek(m, start, done + size) + was[done + size..]
  {
    forall i: nat | i < size ensures m[After(After(start, done), i)] == m[After(start, done + i)] {
    }
    assert Peek(m, start, done) + Peek(m, After(start, done), size) == Peek(m, start, done + size);
    assert now[..done] == Peek(m, start, done) && now[done + size..] == was[done + size..];
  }

  /** The memory and the buffer after one more block. */
  lemma Moved(before: memory, start: word32, was: seq<byte>, done: nat, size: nat, write: bool, m: memory,
              seen: seq<byte>, m': memory, now: seq<byte>)
    requires done + size <= |was| == |seen| && done + size < B32
    requires m == Written(before, start, was, done, write) && seen == Received(before, start, was, done, write)
    requires write ==> now == seen && m' == Poke(m, After(start, done), seen[done..done + size])
    requires !write ==> m' == m && now == seen[..done] + Peek(m, After(start, done), size) + seen[done + size..]
    ensures m' == Written(before, start, was, done + size, write)
    ensures now == Received(before, start, was, done + size, write)
  {
    if write {
      WriteStep(before, start, was, done, size);
    } else {
      ReadStep(m, start, was, seen, done, size);
    }
  }

  /** The difference of two addresses. */
  function Distance(a: word32, b: word32): word32 {
    if a >= b then a - b else a - b + B32
  }

  lemma OnePage(addr: word32, size: word32)
    requires size > 0 && addr % PAGE_SIZE + size <= PAGE_SIZE
    ensures addr + size <= B32 && !WrapsToNothing(addr, addr + size)
    ensures (addr + size - 1) / PAGE_SIZE == addr / PAGE_SIZE
  {
    DivModUnique(addr + size - 1, PAGE_SIZE, addr / PAGE_SIZE, addr % PAGE_SIZE + size - 1);
    assert addr / PAGE_SIZE < PAGES;
  }

  lemma SamePage(addr: word32, size: nat)
    requires addr % PAGE_SIZE + size <= PAGE_SIZE
    ensures addr + size <= B32
    ensures forall a: nat :: addr <= a < addr + size ==> a / PAGE_SIZE == addr / PAGE_SIZE
  {
    assert addr / PAGE_SIZE < PAGES;
    forall a: nat | addr <= a < addr + size ensures a / PAGE_SIZE == addr / PAGE_SIZE {
      DivModUnique(a, PAGE_SIZE, addr / PAGE_SIZE, addr % PAGE_SIZE + (a - addr));
    }
  }
}
