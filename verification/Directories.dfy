/** The directories that the pruner works on, and its methods. */
module Directories {
  import opened DiskManager

  /** The 64-bit counter `total` is right for the files. */
  predicate Counts(files: seq<Report>, total: u64) {
    total == Sum(files) % TWO64
  }

  lemma WithoutCounts(files: seq<Report>, i: nat, total: u64)
    requires i < |files|
    ensures Counts(files, total) ==> Counts(Without(files, i), Sub64(total, files[i].size))
  {
    hide Sum, Without;
    SumWithout(files, i);
  }

  /** No two files have the same stem. */
  predicate Distinct(files: seq<Report>) {
    forall i, j :: 0 <= i < j < |files| ==> files[i].stem != files[j].stem
  }

  lemma WithoutKeepsStems(files: seq<Report>, i: nat)
    requires i < |files| && Distinct(files)
    ensures Distinct(Without(files, i))
  {
  }

  /** A database or export directory, restricted to the files of one extension. */
  class Directory {
    var present: bool
    var readable: bool          // false: the directory iterator reports an error
    var files: seq<Report>      // in the order the file system lists them
    var metas: set<string>      // stems that have a .meta sidecar
    var stuck: set<string>      // stems whose file cannot be removed
    var stuckMetas: set<string> // stems whose sidecar cannot be removed

    predicate Valid()
      reads this
    {
      Distinct(files)
    }

    function Listable(): (status: Status)
      reads this
      ensures !present <==> status == NotFound
      ensures present && readable <==> status == Ok
    {
      if !present then NotFound else if !readable then Internal else Ok
    }

    /** ListCrashReports and ListExportFiles: a snapshot sorted oldest first. */
    method List() returns (status: Status, rs: seq<Report>)
      ensures status == Listable()
      ensures status == Ok ==> OldestFirst(rs) && multiset(rs) == multiset(files)
      ensures status != Ok ==> rs == []
    {
      if !present {
        return NotFound, [];
      }
      if !readable {
        return Internal, [];
      }
      rs := [];
      for i := 0 to |files|
        invariant OldestFirst(rs) && multiset(rs) == multiset(files[..i])
      {
        assert files[..i + 1] == files[..i] + [files[i]];
        rs := InsertByAge(files[i], rs);
      }
      assert files[..|files|] == files;
      return Ok, rs;
    }

    /** RemoveCrashReport: the file must go, its sidecar goes if it can. */
    method Remove(r: Report, total: u64) returns (ok: bool, left: u64)
      requires Valid() && r in files
      modifies this`files, this`metas
      ensures Valid()
      ensures ok <==> r.stem !in stuck
      ensures !ok ==> files == old(files) && metas == old(metas) && left == total
      ensures ok ==> multiset(files) == multiset(old(files)) - multiset{r}
      ensures ok ==> metas == old(metas) - ({r.stem} - stuckMetas)
      ensures ok ==> left == Sub64(total, r.size)
      ensures Counts(old(files), total) ==> Counts(files, left)
    {
      hide Counts, Without, Sub64;
      if r.stem in stuck {
        return false, total;
      }
      var i := IndexOf(r);
      WithoutMultiset(files, i);
      WithoutCounts(files, i, total);
      WithoutKeepsStems(files, i);
      files := Without(files, i);
      metas := metas - ({r.stem} - stuckMetas);
      return true, Sub64(total, r.size);
    }

    method IndexOf(r: Report) returns (i: nat)
      requires Valid() && r in files
      ensures i < |files| && files[i] == r
    {
      ghost var at :| 0 <= at < |files| && files[at] == r;
      i := 0;
      while files[i].stem != r.stem
        invariant 0 <= i <= at
        decreases at - i
      {
        i := i + 1;
      }
    }

    /** The effect of one prune of this directory: nothing without limits or without a listing;
        else exactly the files that the pass over a sorted listing removes are gone, with
        those of their sidecars that could be removed. */
    twostate predicate Pruned(l: Limits, now: int, status: Status, listing: seq<Report>)
      reads this
    {
      if (l.maxBytes == 0 && l.maxAge == 0) || old(Listable()) != Ok then
        && status == (if l.maxBytes == 0 && l.maxAge == 0 then Ok else old(Listable()))
        && files == old(files) && metas == old(metas)
      else
        && OldestFirst(listing) && multiset(listing) == multiset(old(files))
        && var pass := DiskManager.Prune(l, now, listing, old(stuck));
        && status == (if pass.ok then Ok else Internal)
        && multiset(files) == multiset(old(files)) - multiset(pass.removed)
        && metas == MetasWithout(old(metas), pass.removed, old(stuckMetas))
    }

    /** PrunePendingDir and PruneExportDir; without sidecars `metas` is empty. */
    method Prune(l: Limits, now: int) returns (status: Status, ghost listing: seq<Report>)
      requires Valid()
      modifies this`files, this`metas
      ensures Valid()
      ensures Pruned(l, now, status, listing)
    {
      listing := files;
      if l.maxBytes == 0 && l.maxAge == 0 {
        return Ok, listing;
      }
      var listed, rs := List();
      if listed != Ok {
        return listed, listing;
      }
      listing := rs;
      var total := Total(rs);
      CounterIsSum(rs);
      var ok := PruneOldest(l, now, rs, total);
      return if ok then Ok else Internal, listing;
    }

    /** The loop over the sorted listing. If the counter is right at the start, it is right for
        the files that are there at every iteration. */
    method PruneOldest(l: Limits, now: int, rs: seq<Report>, counter: u64) returns (ok: bool)
      requires Valid() && multiset(rs) == multiset(files)
      modifies this`files, this`metas
      ensures Valid()
      ensures var pass := Loop(l, now, rs, counter, stuck);
        && ok == pass.ok
        && multiset(files) == multiset(old(files)) - multiset(pass.removed)
        && metas == MetasWithout(old(metas), pass.removed, stuckMetas)
    {
      hide Loop, MetasWithout, Holds, Lost, Prepend, Counts, Sub64, OverSize, OverAge, Distinct;
      ghost var whole := Loop(l, now, rs, counter, stuck);
      ghost var done: seq<Report> := [];
      var total := counter;
      HoldsAll(files, rs);
      NoMetasLost(metas, stuckMetas);
      PrependNothing(whole);
      for i := 0 to |rs|
        invariant Valid()
        invariant Holds(files, rs[i..]) && Lost(old(files), files, done)
        invariant metas == MetasWithout(old(metas), done, stuckMetas)
        invariant Counts(old(files), counter) ==> Counts(files, total)
        invariant whole == Prepend(done, Loop(l, now, rs[i..], total, stuck))
      {
        var r := rs[i];
        ghost var rest := rs[i + 1..];
        assert rs[i..] == [r] + rest;
        LoopStep(l, now, r, rest, total, stuck);
        HoldsRest(files, r, rest);
        if OverSize(l, total) || OverAge(l, now, r) {
          ghost var was := files;
          var removed, left := Remove(r, total);
          if !removed {
            LostIs(old(files), files, done);
            PrependToEnd(done, false);
            return false;
          }
          NextMetaLost(old(metas), done, r, stuckMetas);
          TakenOut(old(files), was, files, done, r, rest);
          PrependTwice(done, r, Loop(l, now, rest, left, stuck));
          total, done := left, done + [r];
        }
      }
      LoopEnd(l, now, total, stuck);
      LostIs(old(files), files, done);
      PrependToEnd(done, true);
      return true;
    }
  }

  /** All of `rs` is among the files. */
  ghost predicate Holds(files: seq<Report>, rs: seq<Report>) {
    multiset(rs) <= multiset(files)
  }

  /** The files are what is left of `before` without `done`. */
  ghost predicate Lost(before: seq<Report>, files: seq<Report>, done: seq<Report>) {
    multiset(files) == multiset(before) - multiset(done)
  }

  lemma HoldsAll(files: seq<Report>, rs: seq<Report>)
    requires multiset(rs) == multiset(files)
    ensures Holds(files, rs[0..]) && Lost(files, files, []) && rs[0..] == rs
  {
  }

  lemma HoldsRest(files: seq<Report>, r: Report, rest: seq<Report>)
    requires Holds(files, [r] + rest)
    ensures r in files && Holds(files, rest)
  {
    assert multiset([r] + rest) == multiset{r} + multiset(rest);
    assert r in multiset(files);
  }

  lemma TakenOut(before: seq<Report>, was: seq<Report>, files: seq<Report>, done: seq<Report>,
                 r: Report, rest: seq<Report>)
    requires Holds(was, [r] + rest) && Lost(before, was, done)
    requires multiset(files) == multiset(was) - multiset{r}
    ensures Holds(files, rest) && Lost(before, files, done + [r])
  {
    assert multiset([r] + rest) == multiset{r} + multiset(rest);
    assert multiset(done + [r]) == multiset(done) + multiset{r};
  }

  lemma LostIs(before: seq<Report>, files: seq<Report>, done: seq<Report>)
    ensures Lost(before, files, done) <==> multiset(files) == multiset(before) - multiset(done)
  {
  }

  /** Best effort: the sidecars of removed files go, unless they cannot be removed. */
  function MetasWithout(metas: set<string>, removed: seq<Report>, stuckMetas: set<string>): set<string> {
    metas - ((set r | r in removed :: r.stem) - stuckMetas)
  }

  lemma NoMetasLost(metas: set<string>, stuckMetas: set<string>)
    ensures MetasWithout(metas, [], stuckMetas) == metas
  {
  }

  lemma NextMetaLost(metas: set<string>, done: seq<Report>, r: Report, stuckMetas: set<string>)
    ensures MetasWithout(metas, done + [r], stuckMetas)
         == MetasWithout(metas, done, stuckMetas) - ({r.stem} - stuckMetas)
  {
    assert (set x | x in done + [r] :: x.stem) == (set x | x in done :: x.stem) + {r.stem};
  }

  lemma PrependNothing(p: Pass)
    ensures Prepend([], p) == p
  {
  }

  lemma PrependToEnd(done: seq<Report>, ok: bool)
    ensures Prepend(done, Pass([], ok)) == Pass(done, ok)
  {
  }

  lemma PrependTwice(done: seq<Report>, r: Report, p: Pass)
    ensures Prepend(done, Prepend([r], p)) == Prepend(done + [r], p)
  {
    assert done + ([r] + p.removed) == done + [r] + p.removed;
  }

  /** The sort by modification time. */
  function InsertByAge(r: Report, rs: seq<Report>): (s: seq<Report>)
    requires OldestFirst(rs)
    ensures OldestFirst(s) && multiset(s) == multiset(rs) + multiset{r}
  {
    if rs == [] || r.mtime <= rs[0].mtime then [r] + rs
    else
      var s := [rs[0]] + InsertByAge(r, rs[1..]);
      assert rs == [rs[0]] + rs[1..];
      InsertedAfter(r, rs, InsertByAge(r, rs[1..]));
      s
  }

  lemma InsertedAfter(r: Report, rs: seq<Report>, s: seq<Report>)
    requires OldestFirst(rs) && rs != [] && rs[0].mtime < r.mtime
    requires OldestFirst(s) && multiset(s) == multiset(rs[1..]) + multiset{r}
    ensures OldestFirst([rs[0]] + s)
  {
    forall x | x in s
      ensures rs[0].mtime <= x.mtime
    {
      assert x in multiset(s);
    }
  }

  /** The sum of the sizes, as the 64-bit counter holds it. */
  method Total(rs: seq<Report>) returns (total: u64)
    ensures Counts(rs, total)
  {
    total := 0;
    for i := 0 to |rs|
      invariant total == Sum(rs[..i]) % TWO64
    {
      SumOfConcat(rs[..i], [rs[i]]);
      assert rs[..i + 1] == rs[..i] + [rs[i]];
      total := Add64(total, rs[i].size);
    }
    assert rs[..|rs|] == rs;
  }

  /** GetTotalMinidumpSize: a directory that cannot be listed counts as empty. */
  method GetTotalMinidumpSize(pending: Directory) returns (total: u64)
    ensures total == if pending.Listable() == Ok then Sum(pending.files) % TWO64 else 0
  {
    var listed, rs := pending.List();
    if listed != Ok {
      return 0;
    }
    total := Total(rs);
    SumOfPermutation(rs, pending.files);
  }

  /** PruneMinidumps: first pending/, which may be missing, then the export directory if one is
      configured. An error in pending/ leaves the export directory alone. */
  method PruneMinidumps(pending: Directory, exports: seq<Directory>, l: Limits, now: int, later: int)
    returns (status: Status, ghost first: Status, ghost listing: seq<Report>, ghost exported: seq<Report>)
    requires |exports| <= 1 && pending !in exports
    requires pending.Valid() && forall e :: e in exports ==> e.Valid()
    modifies pending, exports
    ensures pending.Valid() && pending.Pruned(l, now, first, listing)
    ensures first == Internal ==> status == Internal && forall e :: e in exports ==> e.files == old(e.files)
    ensures first != Internal ==>
      if exports == [] then status == Ok else exports[0].Valid() && exports[0].Pruned(l, later, status, exported)
  {
    status, listing := pending.Prune(l, now);
    first, exported := status, [];
    if status != Ok && status != NotFound {
      return;
    }
    if exports != [] {
      status, exported := exports[0].Prune(l, later);
    } else {
      status := Ok;
    }
  }
}
