/** Pruning of daemon/disk_manager.cpp: one loop over a listing sorted by age mixes a size and
    an age limit, file by file. */
module DiskManager {
  import opened Bytes

  /** A .dmp file (its .meta sidecar has the same stem) or an exported file. */
  datatype Report = Report(stem: string, size: FileSize, mtime: int)

  /** 0 means unlimited. */
  datatype Limits = Limits(maxBytes: u64, maxAge: nat)

  datatype Status = Ok | NotFound | Internal

  type u64 = x: int | 0 <= x < TWO64

  /** `st_size` is a signed 64-bit number, which the source casts to `uint64_t`. */
  type FileSize = x: int | 0 <= x < TWO64 / 2

  const TWO64: int := 0x1_0000_0000_0000_0000

  /** The difference of two `uint64_t` values: it wraps modulo 2^64. */
  function Sub64(a: u64, b: u64): u64 {
    if b <= a then a - b else a - b + TWO64
  }

  function Add64(a: u64, b: u64): u64 {
    if a + b < TWO64 then a + b else a + b - TWO64
  }

  function Sum(rs: seq<Report>): nat {
    if rs == [] then 0 else rs[0].size + Sum(rs[1..])
  }

  /** What the 64-bit counter of the source holds for the files `rs`. */
  function Counter(rs: seq<Report>): u64 {
    if rs == [] then 0 else Add64(rs[0].size, Counter(rs[1..]))
  }

  lemma {:induction false} CounterIsSum(rs: seq<Report>)
    ensures Counter(rs) == Sum(rs) % TWO64
  {
    if rs != [] {
      CounterIsSum(rs[1..]);
      AddMod(rs[0].size, Sum(rs[1..]));
    }
  }

  lemma AddMod(a: u64, n: nat)
    ensures Add64(a, n % TWO64) == (a + n) % TWO64
  {
  }

  predicate OldestFirst(rs: seq<Report>) {
    forall i, j :: 0 <= i < j < |rs| ==> rs[i].mtime <= rs[j].mtime
  }

  predicate OverSize(l: Limits, total: nat) {
    l.maxBytes > 0 && total > l.maxBytes
  }

  predicate OverAge(l: Limits, now: int, r: Report) {
    l.maxAge > 0 && now > r.mtime && now - r.mtime > l.maxAge
  }

  // ----- The loop

  /** What a pass removes, and whether it got to the end. */
  datatype Pass = Pass(removed: seq<Report>, ok: bool)

  /** The prune loop over the files still to visit; `total` is its running counter, and files
      whose stem is in `stuck` cannot be removed. */
  function Loop(l: Limits, now: int, rs: seq<Report>, total: u64, stuck: set<string>): (p: Pass)
    ensures |p.removed| <= |rs|
    decreases |rs|
  {
    if rs == [] then Pass([], true)
    else if !OverSize(l, total) && !OverAge(l, now, rs[0]) then Loop(l, now, rs[1..], total, stuck)
    else if rs[0].stem in stuck then Pass([], false)
    else
      var rest := Loop(l, now, rs[1..], Sub64(total, rs[0].size), stuck);
      Pass([rs[0]] + rest.removed, rest.ok)
  }

  function Prune(l: Limits, now: int, rs: seq<Report>, stuck: set<string>): (p: Pass)
    ensures |p.removed| <= |rs|
  {
    if l.maxBytes == 0 && l.maxAge == 0 then Pass([], true) else Loop(l, now, rs, Counter(rs), stuck)
  }

  // ----- What it is for

  /** Both limits hold of the files `rs`, in numbers: their sizes add up to `maxBytes` at most
      and none is more than `maxAge` seconds old; 0 means no limit. */
  predicate Meets(l: Limits, now: int, rs: seq<Report>) {
    && (l.maxBytes > 0 ==> Sum(rs) <= l.maxBytes)
    && (l.maxAge > 0 ==> forall r :: r in rs ==> now - r.mtime <= l.maxAge)
  }

  /** The length of the shortest prefix whose removal leaves files that meet both limits. */
  function Cut(l: Limits, now: int, rs: seq<Report>): (k: nat)
    ensures k <= |rs|
    decreases |rs|
  {
    if Meets(l, now, rs) then 0 else assert rs != []; 1 + Cut(l, now, rs[1..])
  }

  lemma {:induction false} CutIsShortest(l: Limits, now: int, rs: seq<Report>, k: nat)
    requires k <= |rs|
    ensures Meets(l, now, rs[k..]) <==> k >= Cut(l, now, rs)
    decreases |rs|
  {
    if k == 0 {
      assert rs[0..] == rs;
    } else {
      assert rs[1..][k - 1..] == rs[k..];
      CutIsShortest(l, now, rs[1..], k - 1);
      if Meets(l, now, rs) {
        SuffixMeets(l, now, rs, k);
      }
    }
  }

  lemma {:induction false} SuffixMeets(l: Limits, now: int, rs: seq<Report>, k: nat)
    requires k <= |rs| && Meets(l, now, rs)
    ensures Meets(l, now, rs[k..])
    decreases |rs|
  {
    if k == 0 {
      assert rs[0..] == rs;
    } else {
      assert rs[1..][k - 1..] == rs[k..];
      SuffixMeets(l, now, rs[1..], k - 1);
    }
  }

  /** Once the limits hold, the loop passes over everything younger. */
  lemma {:induction false} LoopIdle(l: Limits, now: int, rs: seq<Report>, total: u64, stuck: set<string>)
    requires !OverSize(l, total) && forall r :: r in rs ==> !OverAge(l, now, r)
    ensures Loop(l, now, rs, total, stuck) == Pass([], true)
    decreases |rs|
  {
    if rs != [] {
      LoopIdle(l, now, rs[1..], total, stuck);
    }
  }

  /** What the loop sees of the limits. */
  predicate SeemsMet(l: Limits, now: int, rs: seq<Report>) {
    && !OverSize(l, Counter(rs))
    && forall r :: r in rs ==> !OverAge(l, now, r)
  }

  /** If the oldest file may stay, every file may. */
  lemma YoungestMeet(l: Limits, now: int, rs: seq<Report>)
    requires OldestFirst(rs) && rs != [] && !OverSize(l, Counter(rs)) && !OverAge(l, now, rs[0])
    ensures SeemsMet(l, now, rs)
  {
  }

  /** How far a pass gets: until the limits seem met, or to a file that cannot be removed. */
  function Reach(l: Limits, now: int, rs: seq<Report>, stuck: set<string>): (k: nat)
    ensures k <= |rs|
    ensures SeemsMet(l, now, rs[k..]) || (k < |rs| && rs[k].stem in stuck)
    ensures forall j :: 0 <= j < k ==> !SeemsMet(l, now, rs[j..]) && rs[j].stem !in stuck
    decreases |rs|
  {
    if SeemsMet(l, now, rs) then assert rs[0..] == rs; 0
    else
      assert rs != [] && rs[0..] == rs;
      if rs[0].stem in stuck then 0
      else
        var k := Reach(l, now, rs[1..], stuck);
        assert rs[k + 1..] == rs[1..][k..];
        assert forall j :: 1 <= j <= k ==> rs[j..] == rs[1..][j - 1..];
        k + 1
  }

  lemma YoungerOldestFirst(rs: seq<Report>)
    requires OldestFirst(rs) && rs != []
    ensures OldestFirst(rs[1..])
  {
  }

  lemma CounterAfter(r: Report, rest: seq<Report>)
    ensures Sub64(Counter([r] + rest), r.size) == Counter(rest)
  {
    assert ([r] + rest)[1..] == rest;
  }

  function Prepend(done: seq<Report>, p: Pass): Pass {
    Pass(done + p.removed, p.ok)
  }

  lemma LoopEnd(l: Limits, now: int, total: u64, stuck: set<string>)
    ensures Loop(l, now, [], total, stuck) == Pass([], true)
  {
  }

  lemma LoopStep(l: Limits, now: int, r: Report, rest: seq<Report>, total: u64, stuck: set<string>)
    ensures Loop(l, now, [r] + rest, total, stuck) ==
      if !OverSize(l, total) && !OverAge(l, now, r) then Loop(l, now, rest, total, stuck)
      else if r.stem in stuck then Pass([], false)
      else Prepend([r], Loop(l, now, rest, Sub64(total, r.size), stuck))
  {
    assert ([r] + rest)[1..] == rest;
  }

  lemma ReachStep(l: Limits, now: int, r: Report, rest: seq<Report>, stuck: set<string>)
    ensures Reach(l, now, [r] + rest, stuck) ==
      if SeemsMet(l, now, [r] + rest) || r.stem in stuck then 0 else 1 + Reach(l, now, rest, stuck)
  {
    assert ([r] + rest)[1..] == rest;
  }

  lemma {:induction false} LoopRemovesPrefix(l: Limits, now: int, rs: seq<Report>, stuck: set<string>)
    requires OldestFirst(rs)
    ensures var k := Reach(l, now, rs, stuck);
      Loop(l, now, rs, Counter(rs), stuck) == Pass(rs[..k], SeemsMet(l, now, rs[k..]))
    decreases |rs|
  {
    hide SeemsMet, OverAge, OverSize, Counter, OldestFirst, Sub64, Loop, Reach;
    assert rs[0..] == rs;
    if SeemsMet(l, now, rs) {
      SeemsParts(l, now, rs);
      LoopIdle(l, now, rs, Counter(rs), stuck);
      assert Reach(l, now, rs, stuck) == 0 by { NothingToDo(l, now, rs, stuck); }
    } else {
      NothingSeemsMet(l, now);
      var r, rest := rs[0], rs[1..];
      assert rs == [r] + rest;
      LoopStep(l, now, r, rest, Counter(rs), stuck);
      ReachStep(l, now, r, rest, stuck);
      if !OverSize(l, Counter(rs)) && !OverAge(l, now, r) {
        YoungestMeet(l, now, rs);
      } else if r.stem !in stuck {
        YoungerOldestFirst(rs);
        LoopRemovesPrefix(l, now, rest, stuck);
        CounterAfter(r, rest);
        var k := Reach(l, now, rest, stuck);
        assert rs[k + 1..] == rest[k..] && rs[..k + 1] == [r] + rest[..k];
      }
    }
  }

  lemma NothingToDo(l: Limits, now: int, rs: seq<Report>, stuck: set<string>)
    requires SeemsMet(l, now, rs)
    ensures Reach(l, now, rs, stuck) == 0
  {
  }

  lemma SeemsParts(l: Limits, now: int, rs: seq<Report>)
    ensures SeemsMet(l, now, rs) <==> !OverSize(l, Counter(rs)) && forall r :: r in rs ==> !OverAge(l, now, r)
  {
  }

  lemma NothingSeemsMet(l: Limits, now: int)
    ensures SeemsMet(l, now, [])
  {
  }

  /** Without limits the early return spares only an idle pass. */
  lemma PruneIsLoop(l: Limits, now: int, rs: seq<Report>, stuck: set<string>)
    ensures Prune(l, now, rs, stuck) == Loop(l, now, rs, Counter(rs), stuck)
  {
    if l.maxBytes == 0 && l.maxAge == 0 {
      LoopIdle(l, now, rs, Counter(rs), stuck);
    }
  }

  /** The files `rs` break the size limit alone, and their sum modulo 2^64 does not show it. */
  predicate SumHides(l: Limits, now: int, rs: seq<Report>) {
    && l.maxBytes > 0 && Sum(rs) > l.maxBytes >= Sum(rs) % 0x1_0000_0000_0000_0000
    && (l.maxAge > 0 ==> forall r :: r in rs ==> now - r.mtime <= l.maxAge)
  }

  /** That is so of what is left at some file, with none before it that cannot be removed. */
  ghost predicate Misled(l: Limits, now: int, rs: seq<Report>, stuck: set<string>) {
    exists k {:trigger SumHides(l, now, rs[k..])} ::
      0 <= k <= |rs| && (forall j :: 0 <= j < k ==> rs[j].stem !in stuck) && SumHides(l, now, rs[k..])
  }

  lemma SumHidesIs(l: Limits, now: int, rs: seq<Report>)
    ensures SumHides(l, now, rs) <==> SeemsMet(l, now, rs) && !Meets(l, now, rs)
  {
    CounterIsSum(rs);
  }

  /** Sums that fit the counter, or no size limit, never mislead. */
  lemma {:induction false} NotMisled(l: Limits, now: int, rs: seq<Report>, stuck: set<string>)
    requires l.maxBytes == 0 || Sum(rs) < 0x1_0000_0000_0000_0000
    ensures !Misled(l, now, rs, stuck)
  {
    hide Sum;
    forall k | 0 <= k <= |rs|
      ensures !SumHides(l, now, rs[k..])
    {
      SumOfSuffix(rs, k);
    }
  }

  lemma MetSeemsMet(l: Limits, now: int, rs: seq<Report>)
    requires Meets(l, now, rs)
    ensures SeemsMet(l, now, rs)
  {
    CounterIsSum(rs);
  }

  /** What a pass promises: an oldest-first prefix, never more than the least that meets both
      limits, stopped early only by a failed removal; if it gets to its end, the files that are
      left meet both limits and after no shorter prefix would they. */
  predicate LeastPass(l: Limits, now: int, rs: seq<Report>, stuck: set<string>, p: Pass) {
    && p.removed <= rs && |p.removed| <= Cut(l, now, rs)
    && (p.ok <==> |p.removed| == Cut(l, now, rs))
    && (p.ok <==> Meets(l, now, rs[|p.removed|..]))
    && (!p.ok ==> rs[|p.removed|].stem in stuck)
    && (forall j :: 0 <= j < |p.removed| ==> !Meets(l, now, rs[j..]))
  }

  /** The main theorem: although age and size are tested file by file with a running 64-bit
      total, a pass removes exactly the shortest oldest-first prefix that leaves both limits
      met, or the part of it before the first file that cannot be removed; this holds if and
      only if the total does not mislead the pass. */
  lemma PruneIsLeastExactly(l: Limits, now: int, rs: seq<Report>, stuck: set<string>)
    requires OldestFirst(rs)
    ensures LeastPass(l, now, rs, stuck, Prune(l, now, rs, stuck)) <==> !Misled(l, now, rs, stuck)
  {
    hide Prune, Loop, Meets, SeemsMet, SumHides, Sum, Counter, Cut, Reach;
    PruneIsLoop(l, now, rs, stuck);
    LoopRemovesPrefix(l, now, rs, stuck);
    var stop := Reach(l, now, rs, stuck);
    if Misled(l, now, rs, stuck) {
      var k :| 0 <= k <= |rs| && (forall j :: 0 <= j < k ==> rs[j].stem !in stuck) && SumHides(l, now, rs[k..]);
      SumHidesIs(l, now, rs[k..]);
      assert stop <= k && SeemsMet(l, now, rs[stop..]);
      CutIsShortest(l, now, rs, k);
      CutIsShortest(l, now, rs, stop);
    } else {
      SeemsWhereMet(l, now, rs);
      SumHidesIs(l, now, rs[stop..]);
      CutIsShortest(l, now, rs, stop);
      if stop > 0 {
        CutIsShortest(l, now, rs, stop - 1);
      }
    }
  }

  lemma SeemsWhereMet(l: Limits, now: int, rs: seq<Report>)
    ensures forall k :: 0 <= k <= |rs| && Meets(l, now, rs[k..]) ==> SeemsMet(l, now, rs[k..])
  {
    forall k | 0 <= k <= |rs| && Meets(l, now, rs[k..])
      ensures SeemsMet(l, now, rs[k..])
    {
      MetSeemsMet(l, now, rs[k..]);
    }
  }

  /** In particular for all files that add up to less than 2^64 bytes. */
  lemma PruneIsLeast(l: Limits, now: int, rs: seq<Report>, stuck: set<string>)
    requires OldestFirst(rs) && (l.maxBytes == 0 || Sum(rs) < 0x1_0000_0000_0000_0000)
    ensures LeastPass(l, now, rs, stuck, Prune(l, now, rs, stuck))
  {
    hide Prune, Sum, LeastPass, Misled;
    NotMisled(l, now, rs, stuck);
    PruneIsLeastExactly(l, now, rs, stuck);
  }

  /** The total does mislead: three files of 2^64 bytes together look like none at all. */
  lemma TotalCanMislead(now: int)
    ensures var rs := [Report("a", TWO64 / 2 - 1, now), Report("b", TWO64 / 2 - 1, now), Report("c", 2, now)];
      var l := Limits(1, 0);
      && Prune(l, now, rs, {}) == Pass([], true)
      && !Meets(l, now, rs)
  {
    var rs := [Report("a", TWO64 / 2 - 1, now), Report("b", TWO64 / 2 - 1, now), Report("c", 2, now)];
    var l := Limits(1, 0);
    var tail, last := [Report("b", TWO64 / 2 - 1, now), Report("c", 2, now)], [Report("c", 2, now)];
    assert rs[1..] == tail && tail[1..] == last && last[1..] == [];
    assert Counter([]) == 0 && Sum([]) == 0;
    assert Counter(last) == Add64(2, Counter([])) && Sum(last) == 2 + Sum([]);
    assert Counter(tail) == Add64(TWO64 / 2 - 1, Counter(last)) && Sum(tail) == TWO64 / 2 - 1 + Sum(last);
    PruneIsLoop(l, now, rs, {});
    LoopIdle(l, now, rs, 0, {});
  }

  predicate Tighter(l: Limits, m: Limits) {
    && (l.maxBytes > 0 ==> 0 < m.maxBytes <= l.maxBytes)
    && (l.maxAge > 0 ==> 0 < m.maxAge <= l.maxAge)
  }

  /** Tightening either limit, or letting time pass, only enlarges the removed prefix. */
  lemma {:induction false} TighterRemovesMore(l: Limits, m: Limits, now: int, later: int, rs: seq<Report>)
    requires Tighter(l, m) && now <= later
    ensures Cut(l, now, rs) <= Cut(m, later, rs)
    decreases |rs|
  {
    if !Meets(l, now, rs) {
      assert rs != [];
      TighterRemovesMore(l, m, now, later, rs[1..]);
      assert !Meets(m, later, rs);
    }
  }

  // ----- Accounting

  /** Where the loop stands when it comes to a file: its counter and what it has removed. */
  datatype Iteration = Iteration(total: u64, removed: seq<Report>)

  /** The loop at its iteration `i`, which is the end for i == |rs|; None if it has stopped before. */
  function Reached(l: Limits, now: int, rs: seq<Report>, total: u64, stuck: set<string>, i: nat): Option<Iteration>
    requires i <= |rs|
    decreases |rs|
  {
    if i == 0 then Some(Iteration(total, []))
    else if !OverSize(l, total) && !OverAge(l, now, rs[0]) then Reached(l, now, rs[1..], total, stuck, i - 1)
    else if rs[0].stem in stuck then None
    else
      match Reached(l, now, rs[1..], Sub64(total, rs[0].size), stuck, i - 1)
      case None => None
      case Some(it) => Some(Iteration(it.total, [rs[0]] + it.removed))
  }

  /** From there on the loop does what it would do if it started there. */
  lemma {:induction false} ReachedIsLoop(l: Limits, now: int, rs: seq<Report>, total: u64, stuck: set<string>, i: nat)
    requires i <= |rs|
    ensures match Reached(l, now, rs, total, stuck, i)
      case None => !Loop(l, now, rs, total, stuck).ok
      case Some(it) =>
        var rest := Loop(l, now, rs[i..], it.total, stuck);
        Loop(l, now, rs, total, stuck) == Pass(it.removed + rest.removed, rest.ok)
    decreases |rs|
  {
    hide OverSize, OverAge, Sub64;
    if i == 0 {
      assert rs[0..] == rs;
      var p := Loop(l, now, rs, total, stuck);
      assert [] + p.removed == p.removed;
    } else {
      assert rs[1..][i - 1..] == rs[i..];
      if !OverSize(l, total) && !OverAge(l, now, rs[0]) {
        ReachedIsLoop(l, now, rs[1..], total, stuck, i - 1);
      } else if rs[0].stem !in stuck {
        var left := Sub64(total, rs[0].size);
        ReachedIsLoop(l, now, rs[1..], left, stuck, i - 1);
        if Reached(l, now, rs[1..], left, stuck, i - 1).Some? {
          var it := Reached(l, now, rs[1..], left, stuck, i - 1).value;
          var rest := Loop(l, now, rs[i..], it.total, stuck).removed;
          assert [rs[0]] + (it.removed + rest) == [rs[0]] + it.removed + rest;
        }
      }
    }
  }

  /** The accounting: at every iteration the counter is, modulo 2^64, the size of the files that
      have not been removed. If all sizes add up to less than 2^64 it is that size, and taking
      the next file off it does not underflow. */
  lemma CounterIsExact(l: Limits, now: int, rs: seq<Report>, stuck: set<string>, i: nat)
    requires i <= |rs| && Reached(l, now, rs, Counter(rs), stuck, i).Some?
    ensures var it := Reached(l, now, rs, Counter(rs), stuck, i).value;
      && multiset(it.removed) <= multiset(rs[..i])
      && it.total == (Sum(rs) - Sum(it.removed)) % TWO64
      && (Sum(rs) < TWO64 ==> it.total == Sum(rs) - Sum(it.removed) && (i < |rs| ==> rs[i].size <= it.total))
  {
    hide Reached, Sum;
    var it := Reached(l, now, rs, Counter(rs), stuck, i).value;
    CounterIsSum(rs);
    ReachedTotal(l, now, rs, Counter(rs), stuck, i);
    ReachedRemoves(l, now, rs, Counter(rs), stuck, i);
    SumOfSuffix(rs, i);
    Mod64(it.total, Sum(it.removed), Sum(rs));
    if i < |rs| {
      SumOfSuffix(rs[i..], 1);
      SumOfOne(rs[i]);
      assert rs[i..][..1] == [rs[i]];
    }
  }

  /** What is removed is among the files visited. */
  lemma {:induction false} ReachedRemoves(l: Limits, now: int, rs: seq<Report>, total: u64, stuck: set<string>, i: nat)
    requires i <= |rs|
    ensures match Reached(l, now, rs, total, stuck, i)
      case None => true
      case Some(it) => multiset(it.removed) <= multiset(rs[..i]) && Sum(it.removed) <= Sum(rs[..i])
    decreases |rs|
  {
    hide OverSize, OverAge, Sub64, Sum;
    NoneSum();
    if i > 0 {
      var visited := rs[1..][..i - 1];
      assert rs[..i] == [rs[0]] + visited;
      RemoveFirst(rs[0], [], visited);
      if !OverSize(l, total) && !OverAge(l, now, rs[0]) {
        ReachedRemoves(l, now, rs[1..], total, stuck, i - 1);
      } else if rs[0].stem !in stuck {
        var left := Sub64(total, rs[0].size);
        ReachedRemoves(l, now, rs[1..], left, stuck, i - 1);
        if Reached(l, now, rs[1..], left, stuck, i - 1).Some? {
          var it := Reached(l, now, rs[1..], left, stuck, i - 1).value;
          RemoveFirst(rs[0], it.removed, visited);
        }
      }
    }
  }

  lemma RemoveFirst(r: Report, removed: seq<Report>, rs: seq<Report>)
    requires multiset(removed) <= multiset(rs)
    ensures multiset([r] + removed) <= multiset([r] + rs) && Sum([r] + removed) == r.size + Sum(removed)
    ensures Sum([r] + rs) == r.size + Sum(rs)
  {
    assert ([r] + removed)[1..] == removed && ([r] + rs)[1..] == rs;
  }

  lemma NoneSum()
    ensures Sum([]) == 0
  {
  }

  lemma {:induction false} ReachedTotal(l: Limits, now: int, rs: seq<Report>, total: u64, stuck: set<string>, i: nat)
    requires i <= |rs|
    ensures match Reached(l, now, rs, total, stuck, i)
      case None => true
      case Some(it) => (it.total + Sum(it.removed)) % TWO64 == total
    decreases |rs|
  {
    hide OverSize, OverAge;
    if i > 0 {
      if !OverSize(l, total) && !OverAge(l, now, rs[0]) {
        ReachedTotal(l, now, rs[1..], total, stuck, i - 1);
      } else if rs[0].stem !in stuck {
        var left := Sub64(total, rs[0].size);
        ReachedTotal(l, now, rs[1..], left, stuck, i - 1);
        if Reached(l, now, rs[1..], left, stuck, i - 1).Some? {
          var it := Reached(l, now, rs[1..], left, stuck, i - 1).value;
          assert ([rs[0]] + it.removed)[1..] == it.removed;
          AddBack(it.total + Sum(it.removed), total, rs[0].size);
        }
      }
    }
  }

  lemma AddBack(n: nat, total: u64, size: FileSize)
    requires n % TWO64 == Sub64(total, size)
    ensures (n + size) % TWO64 == total
  {
  }

  lemma Mod64(total: u64, removed: nat, all: nat)
    requires (total + removed) % TWO64 == all % TWO64 && removed <= all
    ensures total == (all - removed) % TWO64
  {
  }

  // ----- Listings of the same files

  lemma {:induction false} SumOfConcat(a: seq<Report>, b: seq<Report>)
    ensures Sum(a + b) == Sum(a) + Sum(b)
  {
    if a == [] {
      assert a + b == b;
    } else {
      assert (a + b)[1..] == a[1..] + b;
      SumOfConcat(a[1..], b);
    }
  }

  function Without(rs: seq<Report>, i: nat): (r: seq<Report>)
    requires i < |rs|
  {
    rs[..i] + rs[i + 1..]
  }

  lemma WithoutMultiset(rs: seq<Report>, i: nat)
    requires i < |rs|
    ensures multiset(Without(rs, i)) == multiset(rs) - multiset{rs[i]}
  {
    assert rs == rs[..i] + [rs[i]] + rs[i + 1..];
  }

  lemma SumWithout(rs: seq<Report>, i: nat)
    requires i < |rs|
    ensures Sum(rs) == rs[i].size + Sum(Without(rs, i))
  {
    hide Sum;
    var head, tail := rs[..i], rs[i + 1..];
    SumOfConcat(head, tail);
    SumOfConcat(head, [rs[i]]);
    SumOfConcat(head + [rs[i]], tail);
    assert rs == head + [rs[i]] + tail;
    SumOfOne(rs[i]);
  }

  lemma SumOfOne(r: Report)
    ensures Sum([r]) == r.size
  {
  }

  lemma {:induction false} SumOfPermutation(a: seq<Report>, b: seq<Report>)
    requires multiset(a) == multiset(b)
    ensures Sum(a) == Sum(b)
    decreases |a|
  {
    hide Without;
    assert |a| == |multiset(a)| == |multiset(b)| == |b|;
    if a != [] {
      hide Sum;
      assert a[0] in multiset(b);
      var i :| 0 <= i < |b| && b[i] == a[0];
      SumWithout(a, 0);
      SumWithout(b, i);
      WithoutMultiset(a, 0);
      WithoutMultiset(b, i);
      assert |multiset(Without(a, 0))| == |a| - 1;
      SumOfPermutation(Without(a, 0), Without(b, i));
    }
  }

  lemma SeemsPermutation(l: Limits, now: int, a: seq<Report>, b: seq<Report>)
    requires multiset(a) == multiset(b) && SeemsMet(l, now, a)
    ensures SeemsMet(l, now, b)
  {
    SumOfPermutation(a, b);
    CounterIsSum(a);
    CounterIsSum(b);
    forall r | r in b
      ensures !OverAge(l, now, r)
    {
      assert r in multiset(b);
      assert r in multiset(a);
    }
  }

  lemma SumOfSuffix(rs: seq<Report>, k: nat)
    requires k <= |rs|
    ensures Sum(rs) == Sum(rs[..k]) + Sum(rs[k..])
  {
    SumOfConcat(rs[..k], rs[k..]);
    assert rs == rs[..k] + rs[k..];
  }

  /** After a pass that succeeded a second one at the same time removes nothing, whatever the
      sizes add up to and in whatever order the directory lists the files that are left. */
  lemma PruneTwice(l: Limits, now: int, rs: seq<Report>, again: seq<Report>, stuck: set<string>)
    requires OldestFirst(rs)
    ensures var Pass(removed, ok) := Prune(l, now, rs, stuck);
      ok && multiset(again) == multiset(rs[|removed|..]) ==> Prune(l, now, again, stuck) == Pass([], true)
  {
    hide Prune, SeemsMet, OldestFirst, Loop, Counter, Reach;
    PruneIsLoop(l, now, rs, stuck);
    LoopRemovesPrefix(l, now, rs, stuck);
    var p := Prune(l, now, rs, stuck);
    if p.ok && multiset(again) == multiset(rs[|p.removed|..]) {
      SeemsPermutation(l, now, rs[|p.removed|..], again);
      PruneIsLoop(l, now, again, stuck);
      SeemsParts(l, now, again);
      LoopIdle(l, now, again, Counter(again), stuck);
    }
  }
}
