/** The sorted list of active timers of a clock (qemu-timer.c). */
module Timers {

  /** A timer; "next" is meaningful only while the timer is active. */
  class Timer {
    var expireTime: int
    var next: Timer?

    constructor ()
    {
      expireTime, next := 0, null;
    }
  }

  // ----- Lists of active timers as values -----

  datatype Entry = Entry(timer: Timer, expire: int)

  ghost predicate Sorted(s: seq<Entry>) {
    forall i, j :: 0 <= i < j < |s| ==> s[i].expire <= s[j].expire
  }

  ghost predicate Distinct(s: seq<Entry>) {
    forall i, j :: 0 <= i < j < |s| ==> s[i].timer != s[j].timer
  }

  ghost predicate Active(s: seq<Entry>, t: Timer) {
    exists i :: 0 <= i < |s| && s[i].timer == t
  }

  /** The list without a timer. */
  ghost function Without(s: seq<Entry>, t: Timer): seq<Entry> {
    if s == [] then []
    else if s[0].timer == t then s[1..]
    else [s[0]] + Without(s[1..], t)
  }

  /** The list with an entry added behind everything that expires no later. */
  ghost function With(s: seq<Entry>, e: Entry): seq<Entry> {
    if s == [] || s[0].expire > e.expire then [e] + s
    else [s[0]] + With(s[1..], e)
  }

  lemma {:induction false} WithoutAt(s: seq<Entry>, t: Timer, k: nat)
    requires k <= |s| && forall i :: 0 <= i < k ==> s[i].timer != t
    requires k < |s| ==> s[k].timer == t
    ensures Without(s, t) == if k < |s| then s[..k] + s[k + 1..] else s
  {
    if s != [] && k > 0 {
      WithoutAt(s[1..], t, k - 1);
      assert s == [s[0]] + s[1..];
      if k < |s| {
        assert s[..k] == [s[0]] + s[1..][..k - 1];
        assert s[1..][k..] == s[k + 1..];
      }
    }
  }

  lemma {:induction false} WithAt(s: seq<Entry>, e: Entry, k: nat)
    requires k <= |s| && forall i :: 0 <= i < k ==> s[i].expire <= e.expire
    requires k < |s| ==> s[k].expire > e.expire
    ensures With(s, e) == s[..k] + [e] + s[k..]
  {
    if k > 0 {
      var rest := s[1..];
      WithAt(rest, e, k - 1);
      assert With(s, e) == [s[0]] + With(rest, e);
      assert [s[0]] + rest[..k - 1] == s[..k] && rest[k - 1..] == s[k..];
      assert [s[0]] + (rest[..k - 1] + [e] + rest[k - 1..]) == ([s[0]] + rest[..k - 1]) + [e] + rest[k - 1..];
    }
  }

  /** Where a timer is, or the length of the list if it is not active. */
  ghost function Position(s: seq<Entry>, t: Timer): (k: nat)
    ensures k <= |s| && forall i :: 0 <= i < k ==> s[i].timer != t
    ensures k < |s| ==> s[k].timer == t
  {
    if s == [] || s[0].timer == t then 0 else 1 + Position(s[1..], t)
  }

  /** How many entries at the front expire no later than a given time. */
  ghost function DueCount(s: seq<Entry>, now: int): (k: nat)
    ensures k <= |s| && forall i :: 0 <= i < k ==> s[i].expire <= now
    ensures k < |s| ==> s[k].expire > now
  {
    if s == [] || s[0].expire > now then 0 else 1 + DueCount(s[1..], now)
  }

  lemma {:induction false} DueCountIs(s: seq<Entry>, now: int, k: nat)
    requires k <= |s| && forall i :: 0 <= i < k ==> s[i].expire <= now
    requires k < |s| ==> s[k].expire > now
    ensures DueCount(s, now) == k
  {
    if k > 0 { DueCountIs(s[1..], now, k - 1); }
  }

  /** Removing a timer leaves everything else in place and makes it inactive. */
  lemma WithoutKeeps(s: seq<Entry>, t: Timer)
    requires Sorted(s) && Distinct(s)
    ensures var r := Without(s, t); Sorted(r) && Distinct(r) && !Active(r, t)
  {
    var k := Position(s, t);
    WithoutAt(s, t, k);
    if k < |s| { CutKeeps(s, k); }
  }

  lemma CutKeeps(s: seq<Entry>, k: nat)
    requires k < |s| && Sorted(s) && Distinct(s)
    ensures var r := s[..k] + s[k + 1..]; Sorted(r) && Distinct(r) && !Active(r, s[k].timer)
  {
    var r := s[..k] + s[k + 1..];
    assert forall i :: 0 <= i < |r| ==> r[i] == s[if i < k then i else i + 1];
  }

  /** A new entry keeps the list sorted; it comes after all entries with the same expiry time and
      before all later ones. */
  lemma WithKeeps(s: seq<Entry>, e: Entry)
    requires Sorted(s) && Distinct(s) && !Active(s, e.timer)
    ensures var k := DueCount(s, e.expire);
            && With(s, e) == s[..k] + [e] + s[k..]
            && (forall i :: k <= i < |s| ==> s[i].expire > e.expire)
            && Sorted(With(s, e)) && Distinct(With(s, e))
  {
    var k := DueCount(s, e.expire);
    WithAt(s, e, k);
    if k < |s| { assert forall i :: k < i < |s| ==> s[k].expire <= s[i].expire; }
    PasteKeeps(s, e, k);
  }

  lemma PasteKeeps(s: seq<Entry>, e: Entry, k: nat)
    requires k <= |s| && Sorted(s) && Distinct(s) && !Active(s, e.timer)
    requires forall i :: 0 <= i < k ==> s[i].expire <= e.expire
    requires forall i :: k <= i < |s| ==> s[i].expire > e.expire
    ensures var r := s[..k] + [e] + s[k..]; Sorted(r) && Distinct(r)
  {
    var r := s[..k] + [e] + s[k..];
    assert forall i :: 0 <= i < |r| ==> r[i] == if i < k then s[i] else if i == k then e else s[i - 1];
  }

  // ----- Running the timers that are due -----

  /** What a callback may do with the timers of the clock that is being run. */
  datatype Op = Del(timer: Timer) | Mod(timer: Timer, expire: int)

  ghost function Apply(s: seq<Entry>, op: Op): seq<Entry> {
    match op
    case Del(t) => Without(s, t)
    case Mod(t, x) => With(Without(s, t), Entry(t, x))
  }

  ghost function ApplyAll(s: seq<Entry>, ops: seq<Op>): seq<Entry>
    decreases |ops|
  {
    if ops == [] then s else ApplyAll(Apply(s, ops[0]), ops[1..])
  }

  /** The timers that fire and the list that remains, when the callbacks that run do in turn what the
      scripts say; callbacks beyond the last script leave the list alone.  A timer has left the list
      when its callback runs. */
  ghost function Firing(s: seq<Entry>, now: int, scripts: seq<seq<Op>>): (r: (seq<Entry>, seq<Entry>))
    decreases |scripts|, |s|
  {
    if s == [] || s[0].expire > now then ([], s)
    else if scripts == [] then
      var (fired, rest) := Firing(s[1..], now, []);
      ([s[0]] + fired, rest)
    else
      var (fired, rest) := Firing(ApplyAll(s[1..], scripts[0]), now, scripts[1..]);
      ([s[0]] + fired, rest)
  }

  /** The lists as the callbacks find them. */
  ghost function Found(s: seq<Entry>, now: int, scripts: seq<seq<Op>>): seq<seq<Entry>>
    decreases |scripts|, |s|
  {
    if s == [] || s[0].expire > now then []
    else if scripts == [] then [s[1..]] + Found(s[1..], now, [])
    else [s[1..]] + Found(ApplyAll(s[1..], scripts[0]), now, scripts[1..])
  }

  /** A run has come to a list and the scripts that are left, after the given timers have fired. */
  ghost predicate Comes(s: seq<Entry>, now: int, scripts: seq<seq<Op>>,
                        fired: seq<Entry>, found: seq<seq<Entry>>, t: seq<Entry>, later: seq<seq<Op>>) {
    && Firing(s, now, scripts).0 == fired + Firing(t, now, later).0
    && Firing(s, now, scripts).1 == Firing(t, now, later).1
    && Found(s, now, scripts) == found + Found(t, now, later)
  }

  lemma ComesFurther(s: seq<Entry>, now: int, scripts: seq<seq<Op>>,
                     fired: seq<Entry>, found: seq<seq<Entry>>, t: seq<Entry>, later: seq<seq<Op>>)
    requires Comes(s, now, scripts, fired, found, t, later) && t != [] && t[0].expire <= now
    ensures Comes(s, now, scripts, fired + [t[0]], found + [t[1..]],
                  ApplyAll(t[1..], if later == [] then [] else later[0]), if later == [] then [] else later[1..])
  {
  }

  lemma ComesToEnd(s: seq<Entry>, now: int, scripts: seq<seq<Op>>,
                   fired: seq<Entry>, found: seq<seq<Entry>>, t: seq<Entry>, later: seq<seq<Op>>)
    requires Comes(s, now, scripts, fired, found, t, later) && (t == [] || t[0].expire > now)
    ensures Firing(s, now, scripts) == (fired, t) && Found(s, now, scripts) == found
  {
    assert fired + [] == fired && found + [] == found;
  }

  /** Whatever the callbacks do, each of them finds its own timer off the list. */
  lemma {:induction false} OffBeforeCallback(s: seq<Entry>, now: int, scripts: seq<seq<Op>>)
    requires Sorted(s) && Distinct(s)
    ensures var fired, found := Firing(s, now, scripts).0, Found(s, now, scripts);
            |found| == |fired| && forall i :: 0 <= i < |fired| ==> !Active(found[i], fired[i].timer)
    decreases |scripts|, |s|
  {
    if s != [] && s[0].expire <= now {
      if scripts == [] {
        OffBeforeCallback(s[1..], now, []);
      } else {
        ApplyAllKeeps(s[1..], scripts[0]);
        OffBeforeCallback(ApplyAll(s[1..], scripts[0]), now, scripts[1..]);
      }
    }
  }

  lemma {:induction false} ApplyAllKeeps(s: seq<Entry>, ops: seq<Op>)
    requires Sorted(s) && Distinct(s)
    ensures Sorted(ApplyAll(s, ops)) && Distinct(ApplyAll(s, ops))
    decreases |ops|
  {
    if ops != [] {
      var op := ops[0];
      WithoutKeeps(s, op.timer);
      if op.Mod? { WithKeeps(Without(s, op.timer), Entry(op.timer, op.expire)); }
      ApplyAllKeeps(Apply(s, op), ops[1..]);
    }
  }

  /** Whatever the callbacks do, only due timers fire, none is still due afterwards, and the list is
      sorted and free of repetition. */
  lemma {:induction false} FiringIsSafe(s: seq<Entry>, now: int, scripts: seq<seq<Op>>)
    requires Sorted(s) && Distinct(s)
    ensures var (fired, rest) := Firing(s, now, scripts);
            && (forall i :: 0 <= i < |fired| ==> fired[i].expire <= now)
            && (forall i :: 0 <= i < |rest| ==> rest[i].expire > now)
            && Sorted(rest) && Distinct(rest)
    decreases |scripts|, |s|
  {
    if s != [] && s[0].expire <= now {
      if scripts == [] {
        FiringIsSafe(s[1..], now, []);
      } else {
        ApplyAllKeeps(s[1..], scripts[0]);
        FiringIsSafe(ApplyAll(s[1..], scripts[0]), now, scripts[1..]);
      }
    }
  }

  /** Passive callbacks: exactly the due timers fire, in list order. */
  lemma {:induction false} FiringInOrder(s: seq<Entry>, now: int)
    ensures var k := DueCount(s, now); Firing(s, now, []) == (s[..k], s[k..])
    decreases |s|
  {
    if s != [] && s[0].expire <= now {
      FiringInOrder(s[1..], now);
      var k := DueCount(s[1..], now);
      assert s[..k + 1] == [s[0]] + s[1..][..k];
    }
  }

  lemma {:induction false} WithoutOthers(s: seq<Entry>, t: Timer, e: Entry)
    requires e.timer != t
    ensures e in Without(s, t) <==> e in s
  {
    if s != [] { WithoutOthers(s[1..], t, e); }
  }

  lemma {:induction false} WithOthers(s: seq<Entry>, added: Entry, e: Entry)
    ensures e in With(s, added) <==> e == added || e in s
  {
    if s != [] { WithOthers(s[1..], added, e); }
  }

  /** The list after one operation: a timer that was deleted is not on it, one that was armed is on it with its new
      time only, and all others are as before. */
  lemma AfterOp(s: seq<Entry>, op: Op, e: Entry)
    requires Sorted(s) && Distinct(s)
    ensures e in Apply(s, op) <==> if e.timer == op.timer then op.Mod? && e.expire == op.expire else e in s
  {
    WithoutKeeps(s, op.timer);
    if e.timer != op.timer {
      WithoutOthers(s, op.timer, e);
    } else {
      var r := Without(s, op.timer);
      assert forall i :: 0 <= i < |r| ==> r[i].timer != op.timer;
    }
    if op.Mod? { WithOthers(Without(s, op.timer), Entry(op.timer, op.expire), e); }
  }

  /** No operation concerns the timer. */
  ghost predicate Silent(ops: seq<Op>, t: Timer) {
    forall i :: 0 <= i < |ops| ==> ops[i].timer != t
  }

  lemma {:induction false} SilentOps(s: seq<Entry>, ops: seq<Op>, e: Entry)
    requires Sorted(s) && Distinct(s) && Silent(ops, e.timer)
    ensures e in ApplyAll(s, ops) <==> e in s
    decreases |ops|
  {
    if ops != [] {
      AfterOp(s, ops[0], e);
      ApplyAllKeeps(s, ops[..1]);
      assert ApplyAll(s, ops[..1]) == Apply(s, ops[0]);
      SilentOps(Apply(s, ops[0]), ops[1..], e);
    }
  }

  /** A timer that is not due and that no callback concerns stays as it is: on the list with its time, or off it. */
  lemma {:induction false} SilentScripts(s: seq<Entry>, now: int, scripts: seq<seq<Op>>, e: Entry)
    requires Sorted(s) && Distinct(s) && e.expire > now
    requires forall k :: 0 <= k < |scripts| ==> Silent(scripts[k], e.timer)
    ensures e in Firing(s, now, scripts).1 <==> e in s
    decreases |scripts|, |s|
  {
    if s != [] && s[0].expire <= now {
      assert e in s <==> e in s[1..];
      if scripts == [] {
        SilentScripts(s[1..], now, [], e);
      } else {
        ApplyAllKeeps(s[1..], scripts[0]);
        SilentOps(s[1..], scripts[0], e);
        SilentScripts(ApplyAll(s[1..], scripts[0]), now, scripts[1..], e);
      }
    }
  }

  /** The last operation on a timer decides: if it arms it for later, the timer is on the list with that time when
      the run ends, and if it deletes it, the timer is off the list. */
  lemma {:induction false} LastOpDecides(s: seq<Entry>, now: int, scripts: seq<seq<Op>>, k: nat, i: nat, e: Entry)
    requires Sorted(s) && Distinct(s) && k < |scripts| && i < |scripts[k]| && scripts[k][i].timer == e.timer
    requires Silent(scripts[k][i + 1..], e.timer)
    requires forall j :: k < j < |scripts| ==> Silent(scripts[j], e.timer)
    requires k < |Firing(s, now, scripts).0| && e.expire > now
    ensures e in Firing(s, now, scripts).1 <==> scripts[k][i].Mod? && scripts[k][i].expire == e.expire
    decreases k
  {
    var rest, ops := s[1..], scripts[0];
    ApplyAllKeeps(rest, ops);
    if k > 0 {
      LastOpDecides(ApplyAll(rest, ops), now, scripts[1..], k - 1, i, e);
    } else {
      ApplyAllSplit(rest, ops, i);
      ApplyAllKeeps(rest, ops[..i]);
      var before := ApplyAll(rest, ops[..i]);
      AfterOp(before, ops[i], e);
      ApplyAllKeeps(rest, ops[..i + 1]);
      SilentOps(Apply(before, ops[i]), ops[i + 1..], e);
      SilentScripts(ApplyAll(rest, ops), now, scripts[1..], e);
    }
  }

  lemma {:induction false} ApplyAllSplit(s: seq<Entry>, ops: seq<Op>, i: nat)
    requires i < |ops|
    ensures ApplyAll(s, ops[..i + 1]) == Apply(ApplyAll(s, ops[..i]), ops[i])
    ensures ApplyAll(s, ops) == ApplyAll(Apply(ApplyAll(s, ops[..i]), ops[i]), ops[i + 1..])
    decreases i
  {
    if i > 0 {
      ApplyAllSplit(Apply(s, ops[0]), ops[1..], i - 1);
      assert ops[..i][1..] == ops[1..][..i - 1] && ops[..i + 1][1..] == ops[1..][..i];
      assert ops[1..][i - 1 + 1..] == ops[i + 1..];
    } else {
      assert ops[..1][1..] == [];
    }
  }

  ghost predicate Subsequence(a: seq<Entry>, b: seq<Entry>)
    decreases |b|
  {
    if a == [] then true
    else if b == [] then false
    else (a[0] == b[0] && Subsequence(a[1..], b[1..])) || Subsequence(a, b[1..])
  }

  ghost function Due(s: seq<Entry>, now: int): seq<Entry> {
    s[..DueCount(s, now)]
  }

  /** Callbacks that arm timers only for later: no timer fires that was not already due, none fires
      twice, and the order of firing is the order of the list.  So however long the scripts are, no more
      callbacks run than timers were due. */
  lemma LateArming(s: seq<Entry>, now: int, scripts: seq<seq<Op>>)
    requires Sorted(s) && Distinct(s)
    requires forall k, i :: 0 <= k < |scripts| && 0 <= i < |scripts[k]| && scripts[k][i].Mod? ==>
             scripts[k][i].expire > now
    ensures Subsequence(Firing(s, now, scripts).0, Due(s, now))
    ensures |Firing(s, now, scripts).0| <= DueCount(s, now)
    decreases |scripts|, |s|
  {
    SubsequenceOf(s, now, scripts);
    SubsequenceLength(Firing(s, now, scripts).0, Due(s, now));
  }

  lemma {:induction false} SubsequenceLength(a: seq<Entry>, b: seq<Entry>)
    requires Subsequence(a, b)
    ensures |a| <= |b|
    decreases |b|
  {
    if a != [] {
      if a[0] == b[0] && Subsequence(a[1..], b[1..]) {
        SubsequenceLength(a[1..], b[1..]);
      } else {
        SubsequenceLength(a, b[1..]);
      }
    }
  }

  lemma {:induction false} SubsequenceOf(s: seq<Entry>, now: int, scripts: seq<seq<Op>>)
    requires Sorted(s) && Distinct(s)
    requires forall k, i :: 0 <= k < |scripts| && 0 <= i < |scripts[k]| && scripts[k][i].Mod? ==>
             scripts[k][i].expire > now
    ensures Subsequence(Firing(s, now, scripts).0, Due(s, now))
    decreases |scripts|, |s|
  {
    if s != [] && s[0].expire <= now {
      var rest := s[1..];
      DueCons(s, now);
      var fired := Firing(s, now, scripts).0;
      if scripts == [] {
        SubsequenceOf(rest, now, []);
        assert fired[1..] == Firing(rest, now, []).0;
      } else {
        ApplyAllKeeps(rest, scripts[0]);
        LateScript(rest, now, scripts[0]);
        SubsequenceOf(ApplyAll(rest, scripts[0]), now, scripts[1..]);
        assert fired[1..] == Firing(ApplyAll(rest, scripts[0]), now, scripts[1..]).0;
        SubsequenceTrans(fired[1..], Due(ApplyAll(rest, scripts[0]), now), Due(rest, now));
      }
    }
  }

  lemma {:induction false} LateScript(s: seq<Entry>, now: int, ops: seq<Op>)
    requires Sorted(s) && Distinct(s)
    requires forall i :: 0 <= i < |ops| && ops[i].Mod? ==> ops[i].expire > now
    ensures Subsequence(Due(ApplyAll(s, ops), now), Due(s, now))
    decreases |ops|
  {
    if ops == [] {
      SubsequenceRefl(Due(s, now));
    } else {
      var op := ops[0];
      WithoutKeeps(s, op.timer);
      if op.Mod? { WithKeeps(Without(s, op.timer), Entry(op.timer, op.expire)); }
      LateScript(Apply(s, op), now, ops[1..]);
      WithoutDue(s, now, op.timer);
      if op.Mod? { WithDue(Without(s, op.timer), now, Entry(op.timer, op.expire)); }
      SubsequenceTrans(Due(ApplyAll(s, ops), now), Due(Apply(s, op), now), Due(s, now));
    }
  }

  lemma DueCons(s: seq<Entry>, now: int)
    requires s != [] && s[0].expire <= now
    ensures Due(s, now) == [s[0]] + Due(s[1..], now) && Due(s, now)[1..] == Due(s[1..], now)
  {
  }

  lemma {:induction false} WithoutDue(s: seq<Entry>, now: int, t: Timer)
    requires Sorted(s)
    ensures Subsequence(Due(Without(s, t), now), Due(s, now))
    decreases |s|
  {
    if s == [] {
    } else if s[0].expire > now {
      if s[0].timer == t && |s| > 1 { assert s[0].expire <= s[1].expire; }
      DueCountIs(Without(s, t), now, 0);
    } else if s[0].timer == t {
      DueCons(s, now);
      SubsequenceRefl(Due(s[1..], now));
    } else {
      DueCons(s, now);
      WithoutDue(s[1..], now, t);
      assert Without(s, t)[1..] == Without(s[1..], t);
      DueCons(Without(s, t), now);
    }
  }

  lemma {:induction false} WithDue(s: seq<Entry>, now: int, e: Entry)
    requires e.expire > now
    ensures Due(With(s, e), now) == Due(s, now)
    decreases |s|
  {
    if s != [] && s[0].expire <= now {
      WithDue(s[1..], now, e);
      assert With(s, e)[1..] == With(s[1..], e);
      DueCons(With(s, e), now);
      DueCons(s, now);
    }
  }

  lemma {:induction false} SubsequenceRefl(a: seq<Entry>)
    ensures Subsequence(a, a)
    decreases |a|
  {
    if a != [] { SubsequenceRefl(a[1..]); }
  }

  lemma {:induction false} SubsequenceTrans(a: seq<Entry>, b: seq<Entry>, c: seq<Entry>)
    requires Subsequence(a, b) && Subsequence(b, c)
    ensures Subsequence(a, c)
    decreases |c|, |b|
  {
    if a != [] && b != [] && c != [] {
      if b[0] == c[0] && Subsequence(b[1..], c[1..]) {
        if a[0] == b[0] && Subsequence(a[1..], b[1..]) {
          SubsequenceTrans(a[1..], b[1..], c[1..]);
        } else {
          SubsequenceTrans(a, b[1..], c[1..]);
        }
      } else {
        SubsequenceTrans(a, b, c[1..]);
      }
    }
  }

  // ----- The list in memory -----

  /** The address of a pointer to a timer. */
  datatype Cell = HeadCell | NextOf(t: Timer)

  class Clock {
    var enabled: bool
    var activeTimers: Timer?
    ghost var timers: seq<Timer>

    constructor ()
      ensures Valid() && timers == [] && enabled
    {
      enabled, activeTimers := true, null;
      timers := [];
    }

    /** The pointer at position i of the list leads to the timer there, or is the final null. */
    ghost predicate Joint(s: seq<Timer>, i: nat)
      requires i <= |s|
      reads this, s
    {
      (if i == 0 then activeTimers else s[i - 1].next) == (if i < |s| then s[i] else null)
    }

    /** The pointers run through exactly the listed timers, without repetition. */
    ghost predicate Chained()
      reads this, timers
    {
      && (forall i, j :: 0 <= i < j < |timers| ==> timers[i] != timers[j])
      && (forall i :: 0 <= i <= |timers| ==> Joint(timers, i))
    }

    /** The active timers with their expiry times. */
    ghost function Entries(): (s: seq<Entry>)
      reads this, timers
      ensures |s| == |timers|
      ensures forall i :: 0 <= i < |s| ==> s[i] == Entry(timers[i], timers[i].expireTime)
    {
      seq(|timers|, i requires 0 <= i < |timers| reads this, timers => Entry(timers[i], timers[i].expireTime))
    }

    ghost predicate Valid()
      reads this, timers
    {
      Chained() && Sorted(Entries())
    }

    function Load(c: Cell): Timer?
      reads this, if c.NextOf? then {c.t} else {}
    {
      if c.HeadCell? then activeTimers else c.t.next
    }

    ghost predicate CellBefore(c: Cell, i: nat)
      requires i <= |timers|
      reads this
    {
      if i == 0 then c == HeadCell else c == NextOf(timers[i - 1])
    }

    /** Removes the timer at position i; the cell before it leads there. */
    method Unlink(pt: Cell, t: Timer, ghost i: nat)
      requires Chained() && i < |timers| && timers[i] == t && CellBefore(pt, i)
      modifies this, timers
      ensures Chained() && timers == old(timers[..i] + timers[i + 1..]) && enabled == old(enabled)
      ensures Entries() == old(Entries()[..i] + Entries()[i + 1..])
    {
      ghost var s, was := Entries(), timers;
      SkipCell(pt, t, i);
      forall j | 0 <= j < |timers| ensures Entries()[j] == (s[..i] + s[i + 1..])[j] {
        var k := if j < i then j else j + 1;
        assert timers[j] == was[k] && (s[..i] + s[i + 1..])[j] == s[k];
      }
    }

    /** Lets the cell before position i skip the timer there. */
    method SkipCell(pt: Cell, t: Timer, ghost i: nat)
      requires Chained() && i < |timers| && timers[i] == t && CellBefore(pt, i)
      modifies this, timers
      ensures Chained() && timers == old(timers[..i] + timers[i + 1..]) && enabled == old(enabled)
      ensures forall x :: x in old(timers) ==> x.expireTime == old(x.expireTime)
    {
      assert Joint(timers, i + 1);
      match pt {
        case HeadCell => activeTimers := t.next;
        case NextOf(p) => p.next := t.next;
      }
      timers := timers[..i] + timers[i + 1..];
      forall j | 0 <= j <= |timers| ensures Joint(timers, j) {
        if j < i {
          assert old(Joint(timers, j));
        } else if j > i {
          assert old(Joint(timers, j + 1));
        }
      }
    }

    /** Puts a timer between the cell before position i and the timer there. */
    method Link(pt: Cell, ts: Timer, expireTime: int, ghost i: nat)
      requires Chained() && i <= |timers| && CellBefore(pt, i) && ts !in timers
      modifies this, timers, ts
      ensures forall t :: t in timers <==> t in old(timers) || t == ts
      ensures Chained() && enabled == old(enabled)
      ensures Entries() == old(Entries()[..i]) + [Entry(ts, expireTime)] + old(Entries()[i..])
    {
      ghost var s, e := Entries(), Entry(ts, expireTime);
      ts.expireTime := expireTime;
      LinkCells(pt, ts, i);
      forall j | 0 <= j < |timers| ensures Entries()[j] == (s[..i] + [e] + s[i..])[j] {
        if j != i { assert timers[j] == old(timers)[if j < i then j else j - 1]; }
      }
    }

    method LinkCells(pt: Cell, ts: Timer, ghost i: nat)
      requires Chained() && i <= |timers| && CellBefore(pt, i) && ts !in timers
      modifies this, timers, ts
      ensures Chained() && timers == old(timers[..i] + [ts] + timers[i..]) && enabled == old(enabled)
      ensures forall x :: x in timers ==> x.expireTime == old(x.expireTime)
    {
      assert Joint(timers, i);
      ts.next := Load(pt);
      match pt {
        case HeadCell => activeTimers := ts;
        case NextOf(p) => p.next := ts;
      }
      timers := timers[..i] + [ts] + timers[i..];
      forall j | 0 <= j <= |timers| ensures Joint(timers, j) {
        if j < i {
          assert old(Joint(timers, j));
        } else if j > i + 1 {
          assert old(Joint(timers, j - 1));
        }
      }
    }

    method DelTimer(ts: Timer)
      requires Valid()
      modifies this, timers
      ensures Valid() && Entries() == Without(old(Entries()), ts) && enabled == old(enabled)
      ensures forall t :: t in timers <==> t in old(timers) && t != ts
      ensures forall i :: 0 <= i < |timers| ==> timers[i] in old(timers)
    {
      var pt, t, i := FindTimer(ts);
      if t == null {
        WithoutAt(Entries(), ts, i);
        return;
      }
      Remove(pt, t, i);
    }

    /** Removes the timer behind a cell from the list. */
    method Remove(pt: Cell, t: Timer, ghost i: nat)
      requires Valid() && i < |timers| && timers[i] == t && CellBefore(pt, i)
      modifies this, timers
      ensures Valid() && Entries() == Without(old(Entries()), t) && enabled == old(enabled)
      ensures forall x :: x in timers <==> x in old(timers) && x != t
    {
      ghost var s := Entries();
      Unlink(pt, t, i);
      CutKeeps(s, i);
      WithoutAt(s, t, i);
    }

    /** The cell that leads to a timer, or the last cell if the timer is not active. */
    method FindTimer(ts: Timer) returns (pt: Cell, t: Timer?, ghost i: nat)
      requires Valid()
      ensures i <= |timers| && CellBefore(pt, i)
      ensures if i < |timers| then t == ts == timers[i] else t == null
      ensures forall j :: 0 <= j < i ==> timers[j] != ts
    {
      i := 0;
      pt := HeadCell;
      assert Joint(timers, 0);
      t := Load(pt);
      while t != null && t != ts
        invariant 0 <= i <= |timers| && CellBefore(pt, i) && t == if i < |timers| then timers[i] else null
        invariant forall j :: 0 <= j < i ==> timers[j] != ts
        decreases |timers| - i
      {
        pt := NextOf(t);
        i := i + 1;
        assert Joint(timers, i);
        t := Load(pt);
      }
    }

    /** The result says that the timer has become the first one, so that the host's alarm has to be rearmed. */
    method ModTimer(ts: Timer, expireTime: int) returns (first: bool)
      requires Valid()
      modifies this, timers, ts
      ensures Valid() && enabled == old(enabled)
      ensures Entries() == With(Without(old(Entries()), ts), Entry(ts, expireTime))
      ensures forall t :: t in timers <==> t in old(timers) || t == ts
      ensures first <==> Entries()[0].timer == ts
    {
      DelTimer(ts);
      first := Arm(ts, expireTime);
    }

    /** The second half of ModTimer: adds an inactive timer to the sorted list. */
    method Arm(ts: Timer, expireTime: int) returns (first: bool)
      requires Valid() && ts !in timers
      modifies this, timers, ts
      ensures Valid() && enabled == old(enabled)
      ensures Entries() == With(old(Entries()), Entry(ts, expireTime))
      ensures forall t :: t in timers <==> t in old(timers) || t == ts
      ensures first <==> Entries()[0].timer == ts
    {
      ghost var s, e := Entries(), Entry(ts, expireTime);
      var pt, i := FindSlot(expireTime);
      assert Sorted(With(s, e)) && With(s, e) == s[..i] + [e] + s[i..] by { WithKeeps(s, e); }
      assert i > 0 ==> s[0].timer == timers[0];
      Link(pt, ts, expireTime, i);
      first := pt == HeadCell;
    }

    /** The cell behind all timers that expire no later than a given time. */
    method FindSlot(expireTime: int) returns (pt: Cell, ghost i: nat)
      requires Valid()
      ensures i == DueCount(Entries(), expireTime) && i <= |timers| && CellBefore(pt, i)
    {
      ghost var s := Entries();
      i := 0;
      pt := HeadCell;
      assert Joint(timers, 0);
      var t := Load(pt);
      while t != null && t.expireTime <= expireTime
        invariant 0 <= i <= |timers| && CellBefore(pt, i) && t == if i < |timers| then timers[i] else null
        invariant forall j :: 0 <= j < i ==> s[j].expire <= expireTime
        decreases |timers| - i
      {
        pt := NextOf(t);
        i := i + 1;
        assert Joint(timers, i);
        t := Load(pt);
      }
      DueCountIs(s, expireTime, i);
    }

    method TimerPending(ts: Timer) returns (pending: bool)
      requires Valid()
      ensures pending <==> Active(Entries(), ts)
    {
      ghost var i := 0;
      assert Joint(timers, 0);
      var t := activeTimers;
      while t != null
        invariant 0 <= i <= |timers| && t == if i < |timers| then timers[i] else null
        invariant forall j :: 0 <= j < i ==> timers[j] != ts
        decreases |timers| - i
      {
        if t == ts {
          assert Entries()[i].timer == ts;
          return true;
        }
        i := i + 1;
        assert Joint(timers, i);
        t := t.next;
      }
      return false;
    }

    /** The body of a callback. */
    method RunScript(ops: seq<Op>, ghost universe: set<Timer>)
      requires Valid() && (forall t :: t in timers ==> t in universe)
      requires forall op :: op in ops ==> op.timer in universe
      modifies this, universe
      ensures Valid() && Entries() == ApplyAll(old(Entries()), ops) && enabled == old(enabled)
      ensures forall t :: t in timers ==> t in universe
      decreases |ops|
    {
      if ops != [] {
        match ops[0] {
          case Del(t) => DelTimer(t);
          case Mod(t, x) => var _ := ModTimer(t, x);
        }
        RunScript(ops[1..], universe);
      }
    }

    /** Takes the first timer off the list before its callback runs. */
    method PopFirst() returns (ts: Timer)
      requires Valid() && timers != []
      modifies this, timers
      ensures Valid() && ts == old(timers[0]) && timers == old(timers[1..]) && enabled == old(enabled)
      ensures Entries() == old(Entries())[1..]
    {
      assert Joint(timers, 0) && Joint(timers, 1);
      ts := activeTimers;
      activeTimers := ts.next;
      ts.next := null;
      timers := timers[1..];
      forall j | 0 <= j <= |timers| ensures Joint(timers, j) {
        assert old(Joint(timers, j + 1));
      }
    }

    /** One round: takes the first timer off the list and runs its callback. */
    method RunFirst(ops: seq<Op>, ghost universe: set<Timer>)
      requires Valid() && timers != [] && (forall t :: t in timers ==> t in universe)
      requires forall op :: op in ops ==> op.timer in universe
      modifies this, universe
      ensures Valid() && Entries() == ApplyAll(old(Entries())[1..], ops) && enabled == old(enabled)
      ensures forall t :: t in timers ==> t in universe
    {
      var ts := PopFirst();
      RunScript(ops, universe);
    }

    /** Runs the timers of the clock at a given time. */
    method RunTimers(now: int, scripts: seq<seq<Op>>, ghost universe: set<Timer>)
      returns (ghost fired: seq<Entry>, ghost found: seq<seq<Entry>>)
      requires Valid() && (forall t :: t in timers ==> t in universe)
      requires forall k, op :: 0 <= k < |scripts| && op in scripts[k] ==> op.timer in universe
      modifies this, universe
      ensures Valid() && enabled == old(enabled)
      ensures enabled ==> fired == Firing(old(Entries()), now, scripts).0
      ensures enabled ==> Entries() == Firing(old(Entries()), now, scripts).1
      ensures enabled ==> found == Found(old(Entries()), now, scripts)
      ensures !enabled ==> fired == [] && Entries() == old(Entries())
    {
      fired, found := [], [];
      if !enabled {
        return;
      }
      ghost var s := Entries();
      var called := 0;
      assert scripts[0..] == scripts;
      assert Joint(timers, 0);
      while activeTimers != null && activeTimers.expireTime <= now
        invariant Valid() && enabled && (forall t :: t in timers ==> t in universe)
        invariant 0 <= called <= |scripts|
        invariant activeTimers == if timers == [] then null else timers[0]
        invariant Comes(s, now, scripts, fired, found, Entries(), scripts[called..])
        decreases |scripts| - called, |timers|
      {
        ComesFurther(s, now, scripts, fired, found, Entries(), scripts[called..]);
        fired, found := fired + [Entries()[0]], found + [Entries()[1..]];
        if called < |scripts| {
          RunFirst(scripts[called], universe);
          called := called + 1;
        } else {
          RunFirst([], universe);
        }
        assert Joint(timers, 0);
      }
      ComesToEnd(s, now, scripts, fired, found, Entries(), scripts[called..]);
    }
  }
}
