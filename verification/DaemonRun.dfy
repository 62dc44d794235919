/** Whole runs of the daemon's worker: files arrive at any time, dumps are processed one after
    the other, each with a rate-limit decision and an unconditional prune. */
module DaemonRun {
  import opened DiskManager
  import opened RateLimiter

  /** What reading the dump gave: nothing, or the crash with the clock's time. */
  datatype Reading = Unreadable | Readable(crash: Crash)

  /** A prune lists the files, oldest first, unless there is no limit or listing fails. */
  datatype Scan = NotListed | Listed(files: seq<Report>)

  datatype Event =
    | Arrive(file: Report)
    /** One processed dump: the prune's clock, its listing, the files it cannot remove, and the
        files that arrive after the listing and before the prune has ended. */
    | Process(reading: Reading, now: int, scan: Scan, stuck: set<string>, during: seq<Report>)

  /** `since` counts the bytes that arrived after the listing of the last prune that succeeded;
      `pruned` says that there was one. */
  datatype State = State(files: seq<Report>, logged: map<Key, int>, log: seq<Crash>, since: nat, pruned: bool)

  function Start(files: seq<Report>): State {
    State(files, map[], [], 0, false)
  }

  /** A listing is a sorted listing of the files, and their sum does not mislead the prune. */
  ghost predicate Possible(l: Limits, s: State, e: Event) {
    e.Process? && e.scan.Listed? ==>
      && OldestFirst(e.scan.files) && multiset(e.scan.files) == multiset(s.files)
      && !Misled(l, e.now, e.scan.files, e.stuck)
  }

  /** The files that the prune leaves of those in `s`, and whether it listed them and got to its end. */
  function Left(l: Limits, s: State, e: Event): (seq<Report>, bool)
    requires e.Process?
  {
    match e.scan
    case NotListed => (s.files, false)
    case Listed(listing) =>
      var pass := DiskManager.Prune(l, e.now, listing, e.stuck);
      (listing[|pass.removed|..], pass.ok)
  }

  function Admitted(s: State, reading: Reading): State {
    match reading
    case Unreadable => s
    case Readable(c) =>
      if Suppressed(s.logged, c) then s else s.(logged := Remember(s.logged, c), log := s.log + [c])
  }

  function Next(l: Limits, s: State, e: Event): State {
    match e
    case Arrive(f) => s.(files := s.files + [f], since := s.since + f.size)
    case Process(reading, _, _, _, during) =>
      var (left, ok) := Left(l, s, e);
      Admitted(s, reading).(
        files := left + during,
        since := (if ok then 0 else s.since) + Sum(during),
        pruned := s.pruned || ok)
  }

  /** The fields of the worker and the pending directory that a state of the run stands for. */
  ghost predicate Shows(s: State, files: seq<Report>, logged: map<Key, int>) {
    multiset(s.files) == multiset(files) && s.logged == logged
  }

  /** What is left of a listing is the files without the removed ones. */
  lemma LeftIsRest(l: Limits, s: State, e: Event)
    requires e.Process? && e.scan.Listed? && OldestFirst(e.scan.files)
    ensures var pass := DiskManager.Prune(l, e.now, e.scan.files, e.stuck);
      Left(l, s, e) == (e.scan.files[|pass.removed|..], pass.ok)
      && multiset(e.scan.files[|pass.removed|..]) == multiset(e.scan.files) - multiset(pass.removed)
  {
    hide DiskManager.Prune, OldestFirst, Loop, Reach, SeemsMet;
    var pass := DiskManager.Prune(l, e.now, e.scan.files, e.stuck);
    PruneIsLoop(l, e.now, e.scan.files, e.stuck);
    LoopRemovesPrefix(l, e.now, e.scan.files, e.stuck);
    assert e.scan.files == pass.removed + e.scan.files[|pass.removed|..];
  }

  ghost predicate Valid(l: Limits, s: State, es: seq<Event>)
    decreases es
  {
    es == [] || (Possible(l, s, es[0]) && Valid(l, Next(l, s, es[0]), es[1..]))
  }

  function Run(l: Limits, s: State, es: seq<Event>): State
    decreases es
  {
    if es == [] then s else Run(l, Next(l, s, es[0]), es[1..])
  }

  // ----- The disk

  predicate Bounded(l: Limits, s: State) {
    s.pruned && l.maxBytes > 0 ==> Sum(s.files) <= l.maxBytes + s.since
  }

  lemma StepKeepsBound(l: Limits, s: State, e: Event)
    requires Bounded(l, s) && Possible(l, s, e)
    ensures Bounded(l, Next(l, s, e))
  {
    hide OldestFirst, DiskManager.Prune, Sum;
    match e
    case Arrive(f) =>
      SumOfConcat(s.files, [f]);
      SumOfOne(f);
    case Process(_, now, scan, stuck, during) =>
      var (left, _) := Left(l, s, e);
      SumOfConcat(left, during);
      if scan.Listed? {
        PruneIsLeastExactly(l, now, scan.files, stuck);
        SumOfSuffix(scan.files, |scan.files| - |left|);
        SumOfPermutation(scan.files, s.files);
      }
  }

  lemma {:induction false} RunKeepsBound(l: Limits, s: State, es: seq<Event>)
    requires Bounded(l, s) && Valid(l, s, es)
    ensures Bounded(l, Run(l, s, es))
    decreases es
  {
    if es != [] {
      StepKeepsBound(l, s, es[0]);
      RunKeepsBound(l, Next(l, s, es[0]), es[1..]);
    }
  }

  /** Disk bound over every run: from the first prune that succeeds on, whatever dumps were
      unreadable, suppressed or logged and whatever later prunes could not list the files or
      remove one, pending/ never holds more than max_bytes plus what arrived after the listing
      of the last successful prune. */
  lemma DiskIsBounded(l: Limits, initial: seq<Report>, es: seq<Event>)
    requires l.maxBytes > 0 && Valid(l, Start(initial), es)
    ensures var s := Run(l, Start(initial), es);
      s.pruned ==> Sum(s.files) <= l.maxBytes + s.since
  {
    RunKeepsBound(l, Start(initial), es);
  }

  // ----- The log

  /** The crashes that were read, in the order of processing. */
  function Read(es: seq<Event>): seq<Crash> {
    if es == [] then []
    else (if es[0].Process? && es[0].reading.Readable? then [es[0].reading.crash] else []) + Read(es[1..])
  }

  /** Unreadable dumps and prunes leave no trace in the log. */
  lemma {:induction false} LogOfRun(l: Limits, s: State, es: seq<Event>)
    ensures Run(l, s, es).log == s.log + Log(s.logged, Read(es))
    decreases es
  {
    if es != [] {
      hide Next, Log;
      var rest := Read(es[1..]);
      LogOfRun(l, Next(l, s, es[0]), es[1..]);
      LogOfStep(l, s, es[0]);
      if es[0].Process? && es[0].reading.Readable? {
        assert Read(es) == [es[0].reading.crash] + rest;
        LogCons(s.logged, es[0].reading.crash, rest);
      } else {
        assert Read(es) == rest;
      }
    }
  }

  lemma LogOfStep(l: Limits, s: State, e: Event)
    ensures var next := Next(l, s, e);
      if e.Process? && e.reading.Readable? then
        var c := e.reading.crash;
        && next.log == s.log + (if Suppressed(s.logged, c) then [] else [c])
        && next.logged == Remember(s.logged, c)
      else next.log == s.log && next.logged == s.logged
  {
    hide Left;
  }

  lemma LogCons(logged: map<Key, int>, c: Crash, rest: seq<Crash>)
    ensures Log(logged, [c] + rest) ==
      (if Suppressed(logged, c) then [] else [c]) + Log(Remember(logged, c), rest)
  {
    assert ([c] + rest)[1..] == rest;
  }

  /** The rate limiter's guarantees hold of the log of every run with a steady clock. */
  lemma RunLogIsOptimal(l: Limits, initial: seq<Report>, es: seq<Event>, k: Key)
    requires Monotone(Read(es))
    ensures var all, log := Times(Read(es), k), Times(Run(l, Start(initial), es).log, k);
      && Subsequence(log, all) && Apart(log)
      && (forall t :: t in all ==> exists t' :: t' in log && 0 <= t - t' < 30_000_000_000)
      && (forall sub :: Subsequence(sub, all) && Apart(sub) ==> |sub| <= |log|)
  {
    hide Run, Log, Times, Monotone, Apart, Subsequence;
    LogOfRun(l, Start(initial), es);
    assert Run(l, Start(initial), es).log == Log(map[], Read(es));
    RateLimiterIsOptimal(Read(es), k);
  }
}
