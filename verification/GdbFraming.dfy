/** The packet layer of the remote debugging protocol (gdbstub.c, user-mode emulation): a packet is
    "$", its payload, "#" and a two-digit checksum, and is answered by "+" or "-". */
module GdbFraming {
  import opened Common
  import Words

  const DOLLAR: byte := 0x24
  const HASH: byte := 0x23
  const PLUS: byte := 0x2B
  const MINUS: byte := 0x2D
  const MAX_PACKET_LENGTH := 4096

  // ----- Hexadecimal digits -----

  function ToHex(v: nat): (c: byte)
    requires v < 16
  {
    if v < 10 then v + 0x30 else v - 10 + 0x61
  }

  function FromHex(c: int): (v: nat)
    ensures v < 16
  {
    if 0x30 <= c <= 0x39 then c - 0x30
    else if 0x41 <= c <= 0x46 then c - 0x41 + 10
    else if 0x61 <= c <= 0x66 then c - 0x61 + 10
    else 0
  }

  /** Digits are sent in lower case and read in either; anything else reads as 0. */
  lemma Digits(v: nat)
    requires v < 16
    ensures ToHex(v) == "0123456789abcdef"[v] as nat
    ensures FromHex("0123456789abcdef"[v] as int) == v == FromHex("0123456789ABCDEF"[v] as int)
  {
    if v < 8 {
      if v < 4 { assert v == 0 || v == 1 || v == 2 || v == 3; } else { assert v == 4 || v == 5 || v == 6 || v == 7; }
    } else if v < 12 {
      assert v == 8 || v == 9 || v == 10 || v == 11;
    } else {
      assert v == 12 || v == 13 || v == 14 || v == 15;
    }
  }

  lemma OtherCharacters(c: int)
    ensures FromHex(c) != 0 ==> c == "0123456789abcdef"[FromHex(c)] as int || c == "0123456789ABCDEF"[FromHex(c)] as int
  {
    Digits(FromHex(c));
  }

  function OrNibbles(high: nat, low: nat): (b: byte)
    requires high < 16 && low < 16
    ensures b == 16 * high + low
  {
    Words.ShlIsProduct(high, 4);
    assert Words.Pow2(4) == 16;
    Words.OrDisjoint(high, low, 4);
    Words.Or(16 * high, low)
  }

  /** Two digits per byte, high nibble first. */
  function Hex(mem: seq<byte>): (text: seq<byte>)
    ensures |text| == 2 * |mem|
  {
    if mem == [] then [] else [ToHex(mem[0] / 16), ToHex(mem[0] % 16)] + Hex(mem[1..])
  }

  function UnHex(text: seq<byte>): (mem: seq<byte>)
    requires |text| % 2 == 0
    ensures 2 * |mem| == |text|
  {
    if text == [] then [] else [OrNibbles(FromHex(text[0]), FromHex(text[1]))] + UnHex(text[2..])
  }

  lemma {:induction false} HexRoundTrip(mem: seq<byte>)
    ensures UnHex(Hex(mem)) == mem
  {
    if mem != [] {
      HexRoundTrip(mem[1..]);
      assert Hex(mem)[2..] == Hex(mem[1..]);
    }
  }

  /** The digits of byte i, the more significant one first. */
  lemma {:induction false} HexAt(mem: seq<byte>, i: nat)
    requires i < |mem|
    ensures Hex(mem)[2 * i] == ToHex(mem[i] / 16) && Hex(mem)[2 * i + 1] == ToHex(mem[i] % 16)
    decreases i
  {
    if i > 0 { HexAt(mem[1..], i - 1); }
  }

  lemma {:induction false} UnHexAt(text: seq<byte>, i: nat)
    requires |text| % 2 == 0 && 2 * i < |text|
    ensures UnHex(text)[i] == 16 * FromHex(text[2 * i]) + FromHex(text[2 * i + 1])
    decreases i
  {
    if i > 0 { UnHexAt(text[2..], i - 1); }
  }

  lemma {:induction false} HexAppend(mem: seq<byte>, b: byte)
    ensures Hex(mem + [b]) == Hex(mem) + [ToHex(b / 16), ToHex(b % 16)]
  {
    if mem == [] {
      assert mem + [b] == [b];
      assert [b][1..] == [];
    } else {
      HexAppend(mem[1..], b);
      assert (mem + [b])[1..] == mem[1..] + [b];
    }
  }

  lemma {:induction false} UnHexAppend(text: seq<byte>, c: byte, d: byte)
    requires |text| % 2 == 0
    ensures UnHex(text + [c, d]) == UnHex(text) + [OrNibbles(FromHex(c), FromHex(d))]
  {
    if text == [] {
      assert text + [c, d] == [c, d];
      assert [c, d][2..] == [];
    } else {
      UnHexAppend(text[2..], c, d);
      assert (text + [c, d])[2..] == text[2..] + [c, d];
    }
  }

  method MemToHex(buf: array<byte>, mem: seq<byte>)
    requires buf.Length > 2 * |mem|
    modifies buf
    ensures buf[..2 * |mem|] == Hex(mem) && buf[2 * |mem|] == 0
    ensures buf[2 * |mem| + 1..] == old(buf[2 * |mem| + 1..])
  {
    var q := 0;
    for i := 0 to |mem|
      invariant q == 2 * i
      invariant buf[..q] == Hex(mem[..i])
      invariant forall k :: 2 * |mem| < k < buf.Length ==> buf[k] == old(buf[k])
    {
      var c := mem[i];
      HexAppend(mem[..i], c);
      assert mem[..i + 1] == mem[..i] + [c];
      ghost var before := buf[..q];
      buf[q] := ToHex(c / 16);
      buf[q + 1] := ToHex(c % 16);
      q := q + 2;
      assert buf[..q] == before + [ToHex(c / 16), ToHex(c % 16)];
    }
    assert mem[..|mem|] == mem;
    buf[q] := 0;
  }

  method HexToMem(mem: array<byte>, buf: seq<byte>, len: nat)
    requires len <= mem.Length && 2 * len <= |buf|
    modifies mem
    ensures mem[..len] == UnHex(buf[..2 * len])
    ensures mem[len..] == old(mem[len..])
  {
    for i := 0 to len
      invariant mem[..i] == UnHex(buf[..2 * i])
      invariant forall k :: len <= k < mem.Length ==> mem[k] == old(mem[k])
    {
      UnHexAppend(buf[..2 * i], buf[2 * i], buf[2 * i + 1]);
      assert buf[..2 * (i + 1)] == buf[..2 * i] + [buf[2 * i], buf[2 * i + 1]];
      ghost var before := mem[..i];
      mem[i] := OrNibbles(FromHex(buf[2 * i]), FromHex(buf[2 * i + 1]));
      assert mem[..i + 1] == before + [mem[i]];
    }
  }

  // ----- Checksums -----

  /** The host's "char" is signed. */
  function Signed(b: byte): (c: int)
    ensures -128 <= c < 128 && (c - b) % 256 == 0
  {
    if b < 128 then b else b - 256
  }

  function SignedSum(bytes: seq<byte>): int {
    if bytes == [] then 0 else SignedSum(bytes[..|bytes| - 1]) + Signed(bytes[|bytes| - 1])
  }

  /** The protocol's checksum: the sum of the payload modulo 256. */
  function Sum(bytes: seq<byte>): nat {
    if bytes == [] then 0 else Sum(bytes[..|bytes| - 1]) + bytes[|bytes| - 1]
  }

  function Checksum(bytes: seq<byte>): byte {
    Sum(bytes) % 256
  }

  lemma {:induction false} SignedSumIsChecksum(bytes: seq<byte>)
    ensures SignedSum(bytes) % 256 == Checksum(bytes)
  {
    if bytes != [] { SignedSumIsChecksum(bytes[..|bytes| - 1]); }
  }

  method SumBuffer(buf: seq<byte>) returns (csum: int)
    ensures csum == SignedSum(buf) && csum % 256 == Checksum(buf)
  {
    csum := 0;
    for i := 0 to |buf|
      invariant csum == SignedSum(buf[..i])
    {
      assert buf[..i + 1][..i] == buf[..i];
      csum := csum + Signed(buf[i]);
    }
    assert buf[..|buf|] == buf;
    SignedSumIsChecksum(buf);
  }

  lemma {:induction false} SumReplace(p: seq<byte>, k: nat, b: byte)
    requires k < |p|
    ensures Sum(p[k := b]) == Sum(p) - p[k] + b
  {
    var n := |p| - 1;
    if k < n {
      SumReplace(p[..n], k, b);
      assert p[k := b][..n] == p[..n][k := b];
    } else {
      assert p[k := b][..n] == p[..n];
    }
  }

  // ----- Sending -----

  /** A packet on the wire. */
  function Frame(payload: seq<byte>): seq<byte> {
    Wire(payload, ToHex(Checksum(payload) / 16), ToHex(Checksum(payload) % 16))
  }

  function Wire(payload: seq<byte>, digit1: byte, digit2: byte): seq<byte> {
    [DOLLAR] + payload + [HASH, digit1, digit2]
  }

  function Repeat(frame: seq<byte>, times: nat): seq<byte> {
    if times == 0 then [] else Repeat(frame, times - 1) + frame
  }

  /** Retransmits a packet until it is acknowledged or the connection fails.  "incoming" is what the
      debugger answers before it disconnects. */
  method PutPacketBinary(buf: seq<byte>, incoming: seq<byte>)
    returns (ok: bool, sent: seq<byte>, lastPacket: array<byte>, tries: nat)
    requires |buf| <= MAX_PACKET_LENGTH
    ensures sent == Repeat(Frame(buf), tries)
    ensures |buf| + 4 <= lastPacket.Length && lastPacket[..|buf| + 4] == Frame(buf)
    ensures ok ==> 0 < tries <= |incoming| && incoming[tries - 1] == PLUS && PLUS !in incoming[..tries - 1]
    ensures !ok ==> tries == |incoming| + 1 && PLUS !in incoming
  {
    lastPacket := new byte[MAX_PACKET_LENGTH + 4];
    tries := 0;
    sent := [];
    var next := 0;
    while true
      invariant tries == next <= |incoming| && PLUS !in incoming[..next]
      invariant sent == Repeat(Frame(buf), tries)
      decreases |incoming| - next
    {
      lastPacket[0] := DOLLAR;
      forall i | 0 <= i < |buf| { lastPacket[i + 1] := buf[i]; }
      var csum := SumBuffer(buf);
      NibblesOfSum(csum, Checksum(buf));
      var p := |buf| + 1;
      lastPacket[p] := HASH;
      lastPacket[p + 1] := ToHex(csum / 16 % 16);
      lastPacket[p + 2] := ToHex(csum % 16);
      assert lastPacket[..p + 3] == Frame(buf);
      sent := sent + lastPacket[..p + 3];
      tries := tries + 1;
      if next == |incoming| {
        assert incoming[..next] == incoming;
        return false, sent, lastPacket, tries;
      }
      var c := incoming[next];
      next := next + 1;
      if c == PLUS {
        return true, sent, lastPacket, tries;
      }
      assert incoming[..next] == incoming[..next - 1] + [c];
    }
  }

  lemma NibblesOfSum(csum: int, b: byte)
    requires csum % 256 == b
    ensures csum / 16 % 16 == b / 16 && csum % 16 == b % 16
  {
  }

  // ----- Receiving -----

  datatype Mode = IDLE | GETLINE | CHKSUM1 | CHKSUM2

  /** The receiver: the parser's state, the line received so far, the first checksum digit, and what
      has been sent back and handed to the packet handler. */
  datatype Receiver = Receiver(mode: Mode, line: seq<byte>, csum: nat, sent: seq<byte>, handled: seq<seq<byte>>)

  predicate ValidReceiver(r: Receiver) {
    |r.line| < MAX_PACKET_LENGTH && (r.mode == CHKSUM2 ==> r.csum < 256 && r.csum % 16 == 0)
  }

  function Feed(r: Receiver, ch: byte): Receiver {
    match r.mode
    case IDLE => if ch == DOLLAR then r.(mode := GETLINE, line := []) else r
    case GETLINE =>
      if ch == HASH then r.(mode := CHKSUM1)
      else if |r.line| >= MAX_PACKET_LENGTH - 1 then r.(mode := IDLE)
      else r.(line := r.line + [ch])
    case CHKSUM1 => r.(mode := CHKSUM2, csum := 16 * FromHex(ch))
    case CHKSUM2 =>
      var csum := r.csum + FromHex(ch);
      if csum == Checksum(r.line)
      then r.(mode := IDLE, csum := csum, sent := r.sent + [PLUS], handled := r.handled + [r.line])
      else r.(mode := IDLE, csum := csum, sent := r.sent + [MINUS])
  }

  function FeedAll(r: Receiver, bytes: seq<byte>): Receiver {
    if bytes == [] then r else Feed(FeedAll(r, bytes[..|bytes| - 1]), bytes[|bytes| - 1])
  }

  class GdbState {
    var mode: Mode
    const lineBuf: array<byte>
    var lineBufIndex: nat
    var lineCsum: nat
    var sent: seq<byte>
    var handled: seq<seq<byte>>

    ghost predicate Valid()
      reads this, lineBuf
    {
      lineBuf.Length == MAX_PACKET_LENGTH && lineBufIndex < MAX_PACKET_LENGTH && ValidReceiver(Value())
    }

    ghost function Value(): Receiver
      reads this, lineBuf
    {
      Receiver(mode, if lineBufIndex <= lineBuf.Length then lineBuf[..lineBufIndex] else [], lineCsum, sent, handled)
    }

    constructor ()
      ensures Valid() && fresh(lineBuf)
      ensures Value() == Receiver(IDLE, [], 0, [], [])
    {
      lineBuf := new byte[MAX_PACKET_LENGTH];
      mode, lineBufIndex, lineCsum, sent, handled := IDLE, 0, 0, [], [];
    }

    method ReadByte(ch: byte)
      requires Valid()
      modifies this, lineBuf
      ensures Valid() && Value() == Feed(old(Value()), ch)
    {
      match mode {
        case IDLE =>
          if ch == DOLLAR {
            lineBufIndex := 0;
            mode := GETLINE;
          }
        case GETLINE =>
          if ch == HASH {
            mode := CHKSUM1;
          } else if lineBufIndex >= lineBuf.Length - 1 {
            mode := IDLE;
          } else {
            lineBuf[lineBufIndex] := ch;
            lineBufIndex := lineBufIndex + 1;
          }
        case CHKSUM1 =>
          lineBuf[lineBufIndex] := 0;
          lineCsum := FromHex(ch) * 16;
          mode := CHKSUM2;
        case CHKSUM2 =>
          lineCsum := OrNibbles(lineCsum / 16, FromHex(ch));
          var csum := SumBuffer(lineBuf[..lineBufIndex]);
          if lineCsum != csum % 256 {
            sent := sent + [MINUS];
            mode := IDLE;
          } else {
            sent := sent + [PLUS];
            handled := handled + [lineBuf[..lineBufIndex]];
            mode := IDLE;
          }
      }
    }
  }

  // ----- The link as a whole -----

  lemma {:induction false} FeedAllAppend(r: Receiver, a: seq<byte>, b: seq<byte>)
    ensures FeedAll(r, a + b) == FeedAll(FeedAll(r, a), b)
  {
    if b == [] {
      assert a + b == a;
    } else {
      var n := |b| - 1;
      FeedAllAppend(r, a, b[..n]);
      assert (a + b)[..|a + b| - 1] == a + b[..n];
    }
  }

  /** Bytes other than "#" accumulate in the line buffer as long as it has room. */
  lemma {:induction false} FeedPayload(r: Receiver, p: seq<byte>)
    requires r.mode == GETLINE && r.line == [] && HASH !in p && |p| < MAX_PACKET_LENGTH
    ensures FeedAll(r, p) == r.(line := p)
  {
    if p != [] {
      FeedPayload(r, p[..|p| - 1]);
    }
  }

  /** Whatever payload and checksum digits arrive, the packet is acknowledged and handled, with exactly
      the payload received, if and only if the digits spell the payload's checksum. */
  lemma Reception(r: Receiver, p: seq<byte>, digit1: byte, digit2: byte)
    requires r.mode == IDLE && HASH !in p && |p| < MAX_PACKET_LENGTH
    ensures var r' := FeedAll(r, Wire(p, digit1, digit2));
            var accepted := 16 * FromHex(digit1) + FromHex(digit2) == Checksum(p);
            && r'.mode == IDLE
            && r'.sent == r.sent + [if accepted then PLUS else MINUS]
            && r'.handled == r.handled + (if accepted then [p] else [])
  {
    var tail := [HASH, digit1, digit2];
    FeedAllAppend(r, [DOLLAR] + p, tail);
    FeedAllAppend(r, [DOLLAR], p);
    var r1 := FeedAll(r, [DOLLAR]);
    assert [DOLLAR][..0] == [];
    FeedPayload(r1, p);
    var r2 := r1.(line := p);
    assert tail[..2] == [HASH, digit1] && [HASH, digit1][..1] == [HASH] && [HASH][..0] == [];
    assert FeedAll(r2, [HASH]) == Feed(r2, HASH);
    assert FeedAll(r2, [HASH, digit1]) == Feed(Feed(r2, HASH), digit1);
    assert FeedAll(r2, tail) == Feed(Feed(Feed(r2, HASH), digit1), digit2);
  }

  /** A packet that is sent arrives. */
  lemma FramingRoundTrip(r: Receiver, payload: seq<byte>)
    requires r.mode == IDLE && HASH !in payload && |payload| < MAX_PACKET_LENGTH
    ensures var r' := FeedAll(r, Frame(payload));
            && r'.mode == IDLE && r'.sent == r.sent + [PLUS] && r'.handled == r.handled + [payload]
  {
    DigitsSpell(Checksum(payload));
    Reception(r, payload, ToHex(Checksum(payload) / 16), ToHex(Checksum(payload) % 16));
  }

  /** A packet in which one payload byte was changed on the way is refused. */
  lemma CorruptionDetected(r: Receiver, payload: seq<byte>, k: nat, b: byte)
    requires r.mode == IDLE && HASH !in payload && |payload| < MAX_PACKET_LENGTH
    requires k < |payload| && b != payload[k] && b != HASH
    ensures var r' := FeedAll(r, Frame(payload)[k + 1 := b]);
            && r'.mode == IDLE && r'.sent == r.sent + [MINUS] && r'.handled == r.handled
  {
    var digit1, digit2 := ToHex(Checksum(payload) / 16), ToHex(Checksum(payload) % 16);
    var q := payload[k := b];
    assert Frame(payload)[k + 1 := b] == Wire(q, digit1, digit2);
    SumReplace(payload, k, b);
    DigitsSpell(Checksum(payload));
    DifferentResidues(Sum(payload), b - payload[k]);
    Reception(r, q, digit1, digit2);
  }

  /** The bytes of a text. */
  function Ascii(text: seq<char>): (bytes: seq<byte>)
    requires forall i :: 0 <= i < |text| ==> text[i] as int < 0x100
    ensures |bytes| == |text| && forall i :: 0 <= i < |text| ==> bytes[i] == text[i] as int
  {
    seq(|text|, i requires 0 <= i < |text| => text[i] as int)
  }

  /** A packet in full: "OK" is sent as "$OK#9a".  It is acknowledged with "+", and so it is with the digits in upper
      case, but not with other digits. */
  lemma OkPacket(r: Receiver)
    requires r.mode == IDLE
    ensures Frame(Ascii("OK")) == Ascii("$OK#9a")
    ensures var r' := FeedAll(r, Ascii("$OK#9A"));
            r'.sent == r.sent + Ascii("+") && r'.handled == r.handled + [Ascii("OK")]
    ensures var r' := FeedAll(r, Ascii("$OK#9b")); r'.sent == r.sent + Ascii("-") && r'.handled == r.handled
  {
    var p := Ascii("OK");
    assert Checksum(p) == 0x9A by { SumTwo(0x4F, 0x4B); assert p == [0x4F, 0x4B]; }
    assert Frame(p) == Ascii("$OK#9a");
    Reception(r, p, 0x39, 0x41);
    Reception(r, p, 0x39, 0x62);
    assert Wire(p, 0x39, 0x41) == Ascii("$OK#9A") && Wire(p, 0x39, 0x62) == Ascii("$OK#9b");
    assert [PLUS] == Ascii("+") && [MINUS] == Ascii("-");
  }

  lemma DigitsSpell(b: byte)
    ensures 16 * FromHex(ToHex(b / 16)) + FromHex(ToHex(b % 16)) == b
  {
  }

  lemma DifferentResidues(x: int, d: int)
    requires -256 < d < 256 && d != 0
    ensures (x + d) % 256 != x % 256
  {
  }

  // ----- Payloads that do not fit -----

  /** When the line buffer is full, the packet is dropped and the parser is idle again; the bytes left over are
      read as the beginning of a stream. */
  lemma BufferFull(r: Receiver, p: seq<byte>)
    requires r.mode == IDLE && HASH !in p && |p| == MAX_PACKET_LENGTH
    ensures FeedAll(r, [DOLLAR] + p) == r.(line := p[..MAX_PACKET_LENGTH - 1])
  {
    FeedAllAppend(r, [DOLLAR], p);
    assert [DOLLAR][..0] == [];
    FeedPayload(FeedAll(r, [DOLLAR]), p[..|p| - 1]);
  }

  /** An idle parser skips everything up to the next "$". */
  lemma {:induction false} IdleSkips(r: Receiver, bytes: seq<byte>)
    requires r.mode == IDLE && DOLLAR !in bytes
    ensures FeedAll(r, bytes) == r
  {
    if bytes != [] { IdleSkips(r, bytes[..|bytes| - 1]); }
  }

  /** Where a byte occurs first, or the length. */
  function Find(bytes: seq<byte>, b: byte): (k: nat)
    ensures k <= |bytes| && b !in bytes[..k]
    ensures k < |bytes| ==> bytes[k] == b
  {
    if bytes == [] || bytes[0] == b then 0
    else
      var k := Find(bytes[1..], b);
      assert bytes[..k + 1] == [bytes[0]] + bytes[1..][..k];
      k + 1
  }

  datatype Survivor = Nothing | Payload(bytes: seq<byte>)

  /** What the receiver takes for the payload: all of it if it fits.  Otherwise the bytes that fill the buffer are
      lost, and a "$" among the rest begins another packet. */
  function Surviving(p: seq<byte>): Survivor
    decreases |p|
  {
    if |p| < MAX_PACKET_LENGTH then Payload(p)
    else
      var rest := p[MAX_PACKET_LENGTH..];
      var k := Find(rest, DOLLAR);
      if k == |rest| then Nothing else Surviving(rest[k + 1..])
  }

  /** For payloads of any length: there is an answer if and only if something survives, and then it is the answer
      to that. */
  lemma {:induction false} AnyReception(r: Receiver, p: seq<byte>, digit1: byte, digit2: byte)
    requires r.mode == IDLE && HASH !in p
    ensures var r' := FeedAll(r, Wire(p, digit1, digit2));
            match Surviving(p)
            case Nothing => r'.sent == r.sent && r'.handled == r.handled
            case Payload(q) =>
              var accepted := 16 * FromHex(digit1) + FromHex(digit2) == Checksum(q);
              && r'.sent == r.sent + [if accepted then PLUS else MINUS]
              && r'.handled == r.handled + (if accepted then [q] else [])
    decreases |p|
  {
    if |p| < MAX_PACKET_LENGTH {
      Reception(r, p, digit1, digit2);
    } else if Find(p[MAX_PACKET_LENGTH..], DOLLAR) == |p| - MAX_PACKET_LENGTH {
      NothingSurvives(r, p, digit1, digit2);
    } else {
      var q := p[MAX_PACKET_LENGTH + Find(p[MAX_PACKET_LENGTH..], DOLLAR) + 1..];
      assert q == p[MAX_PACKET_LENGTH..][Find(p[MAX_PACKET_LENGTH..], DOLLAR) + 1..];
      StartsAgain(r, p, q, digit1, digit2);
      AnyReception(r.(line := p[..MAX_PACKET_LENGTH - 1]), q, digit1, digit2);
    }
  }

  lemma NothingSurvives(r: Receiver, p: seq<byte>, digit1: byte, digit2: byte)
    requires r.mode == IDLE && HASH !in p && |p| >= MAX_PACKET_LENGTH && DOLLAR !in p[MAX_PACKET_LENGTH..]
    ensures var r' := FeedAll(r, Wire(p, digit1, digit2)); r'.sent == r.sent && r'.handled == r.handled
  {
    var lost, rest, tail := p[..MAX_PACKET_LENGTH], p[MAX_PACKET_LENGTH..], [HASH, digit1, digit2];
    BufferFull(r, lost);
    var r1 := r.(line := lost[..MAX_PACKET_LENGTH - 1]);
    assert Wire(p, digit1, digit2) == ([DOLLAR] + lost) + (rest + tail);
    FeedAllAppend(r, [DOLLAR] + lost, rest + tail);
    FeedAllAppend(r1, rest, tail);
    IdleSkips(r1, rest);
    TailAlone(r1, digit1, digit2);
  }

  /** A "$" among the bytes left over begins a packet. */
  lemma StartsAgain(r: Receiver, p: seq<byte>, q: seq<byte>, digit1: byte, digit2: byte)
    requires r.mode == IDLE && HASH !in p && |p| >= MAX_PACKET_LENGTH
    requires var k := Find(p[MAX_PACKET_LENGTH..], DOLLAR);
             MAX_PACKET_LENGTH + k < |p| && q == p[MAX_PACKET_LENGTH + k + 1..]
    ensures FeedAll(r, Wire(p, digit1, digit2))
            == FeedAll(r.(line := p[..MAX_PACKET_LENGTH - 1]), Wire(q, digit1, digit2))
  {
    var lost, rest := p[..MAX_PACKET_LENGTH], p[MAX_PACKET_LENGTH..];
    var skipped, wire := rest[..Find(rest, DOLLAR)], Wire(q, digit1, digit2);
    BufferFull(r, lost);
    var r1 := r.(line := lost[..MAX_PACKET_LENGTH - 1]);
    assert lost[..MAX_PACKET_LENGTH - 1] == p[..MAX_PACKET_LENGTH - 1];
    assert rest == skipped + [DOLLAR] + q && p == lost + rest;
    Regroup(lost, skipped, q, [HASH, digit1, digit2]);
    FeedAllAppend(r, [DOLLAR] + lost, skipped + wire);
    FeedAllAppend(r1, skipped, wire);
    IdleSkips(r1, skipped);
  }

  lemma Regroup(lost: seq<byte>, skipped: seq<byte>, q: seq<byte>, tail: seq<byte>)
    ensures [DOLLAR] + (lost + (skipped + [DOLLAR] + q)) + tail == ([DOLLAR] + lost) + (skipped + ([DOLLAR] + q + tail))
  {
  }

  /** An end mark and two digits that come alone have no effect beyond the start of a packet. */
  lemma TailAlone(r: Receiver, digit1: byte, digit2: byte)
    requires r.mode == IDLE
    ensures var r' := FeedAll(r, [HASH, digit1, digit2]); r'.sent == r.sent && r'.handled == r.handled
  {
    var tail := [HASH, digit1, digit2];
    assert tail[..2] == [HASH, digit1] && [HASH, digit1][..1] == [HASH] && [HASH][..0] == [];
    assert FeedAll(r, [HASH]) == Feed(r, HASH);
    assert FeedAll(r, [HASH, digit1]) == Feed(Feed(r, HASH), digit1);
    assert FeedAll(r, tail) == Feed(Feed(Feed(r, HASH), digit1), digit2);
  }

  /** An overlong payload without a "$" behind the bytes that fill the buffer is dropped without an answer. */
  lemma OverlongDropped(r: Receiver, p: seq<byte>, digit1: byte, digit2: byte)
    requires r.mode == IDLE && HASH !in p && |p| >= MAX_PACKET_LENGTH && DOLLAR !in p[MAX_PACKET_LENGTH..]
    ensures var r' := FeedAll(r, Wire(p, digit1, digit2)); r'.sent == r.sent && r'.handled == r.handled
  {
    AnyReception(r, p, digit1, digit2);
  }

  /** An overlong payload with the checksum of its end: 4095 zeros, a byte that makes up for the "$", a "$", and
      the end. */
  function WithEnd(q: seq<byte>): seq<byte> {
    Zeros(MAX_PACKET_LENGTH - 1) + [0x100 - DOLLAR, DOLLAR] + q
  }

  /** The end is handled as a packet of its own, and acknowledged. */
  lemma OverlongEndHandled(r: Receiver, q: seq<byte>)
    requires r.mode == IDLE && HASH !in q && |q| < MAX_PACKET_LENGTH
    ensures var r' := FeedAll(r, Frame(WithEnd(q)));
            HASH !in WithEnd(q) && r'.sent == r.sent + [PLUS] && r'.handled == r.handled + [q]
  {
    var p := WithEnd(q);
    EndSurvives(q);
    EndChecksum(q);
    AnyReception(r, p, ToHex(Checksum(p) / 16), ToHex(Checksum(p) % 16));
    DigitsSpell(Checksum(p));
  }

  lemma EndSurvives(q: seq<byte>)
    requires HASH !in q && |q| < MAX_PACKET_LENGTH
    ensures HASH !in WithEnd(q) && Surviving(WithEnd(q)) == Payload(q)
  {
    assert WithEnd(q)[MAX_PACKET_LENGTH..] == [DOLLAR] + q && ([DOLLAR] + q)[1..] == q;
  }

  lemma EndChecksum(q: seq<byte>)
    ensures Checksum(WithEnd(q)) == Checksum(q)
  {
    var zeros, two := Zeros(MAX_PACKET_LENGTH - 1), [0x100 - DOLLAR, DOLLAR];
    ZerosSum(MAX_PACKET_LENGTH - 1);
    SumAppend(zeros + two, q);
    SumAppend(zeros, two);
    SumTwo(0x100 - DOLLAR, DOLLAR);
  }

  lemma SumTwo(x: byte, y: byte)
    ensures Sum([x, y]) == x + y
  {
    assert [x, y][..1] == [x] && [x][..0] == [];
    assert Sum([x]) == x;
  }

  function Zeros(n: nat): (r: seq<byte>)
    ensures |r| == n && forall i :: 0 <= i < n ==> r[i] == 0
  {
    seq(n, i => 0)
  }

  lemma {:induction false} ZerosSum(n: nat)
    ensures Sum(Zeros(n)) == 0
  {
    if n > 0 {
      ZerosSum(n - 1);
      assert Zeros(n)[..n - 1] == Zeros(n - 1);
    }
  }

  lemma {:induction false} SumAppend(a: seq<byte>, b: seq<byte>)
    ensures Sum(a + b) == Sum(a) + Sum(b)
  {
    if b == [] {
      assert a + b == a;
    } else {
      var n := |b| - 1;
      SumAppend(a, b[..n]);
      assert (a + b)[..|a + b| - 1] == a + b[..n];
    }
  }

  function Acks(sent: seq<byte>): nat {
    if sent == [] then 0 else Acks(sent[..|sent| - 1]) + (if sent[|sent| - 1] == PLUS then 1 else 0)
  }

  /** On any stream whatsoever the line buffer keeps room for its terminator, no "#" enters it, and there is
      one acknowledgement for every packet handled. */
  lemma {:induction false} AnyStream(r: Receiver, bytes: seq<byte>)
    requires ValidReceiver(r) && HASH !in r.line && Acks(r.sent) == |r.handled|
    ensures var r' := FeedAll(r, bytes);
            ValidReceiver(r') && HASH !in r'.line && Acks(r'.sent) == |r'.handled|
  {
    if bytes != [] {
      var n := |bytes| - 1;
      AnyStream(r, bytes[..n]);
      var before, after := FeedAll(r, bytes[..n]), FeedAll(r, bytes);
      if after.sent != before.sent {
        assert after.sent[..|after.sent| - 1] == before.sent;
      }
    }
  }
}
