/** The shared worker state, the critical sections on it, and the processing of one dump. */
module Worker {
  import opened Bytes
  import MinidumpPatcher
  import RateLimiter
  import CrashKey
  import DiskManager
  import opened Directories
  import InotifyEvents
  import WorkerQueue
  import DaemonRun

  type Path = WorkerQueue.Path

  /** The part of the protocol state that the shared fields hold. */
  ghost predicate Shows(s: WorkerQueue.State, pending: seq<Path>, stop: bool) {
    s.pending == pending && s.stop == stop
  }

  function ReadingOf(info: Option<CrashKey.CrashInfo>, now: int): DaemonRun.Reading {
    match info
    case None => DaemonRun.Unreadable
    case Some(i) => DaemonRun.Readable(RateLimiter.Crash(CrashKey.Key(i), now))
  }

  /** The event of a run that one processed dump is. */
  function EventOf(reading: DaemonRun.Reading, wall: int, listed: bool, listing: seq<DiskManager.Report>,
                   stuck: set<string>): DaemonRun.Event {
    DaemonRun.Process(reading, wall, if listed then DaemonRun.Listed(listing) else DaemonRun.NotListed, stuck, [])
  }

  /** The effect of `e` on every state that shows the pending files and the rate-limit map
      before is to show those after, with one more log entry if the dump was logged, and to
      count from here on if the prune succeeded. */
  ghost predicate IsStep(l: DiskManager.Limits, e: DaemonRun.Event,
                         files: seq<DiskManager.Report>, was: map<RateLimiter.Key, int>,
                         left: seq<DiskManager.Report>, map': map<RateLimiter.Key, int>, logged: bool, pruned: bool) {
    forall s: DaemonRun.State :: DaemonRun.Shows(s, files, was) ==>
      && DaemonRun.Shows(DaemonRun.Next(l, s, e), left, map')
      && DaemonRun.Next(l, s, e).pruned == (s.pruned || pruned)
      && DaemonRun.Next(l, s, e).since == (if pruned then 0 else s.since)
      && DaemonRun.Next(l, s, e).log
         == s.log + if logged && e.Process? && e.reading.Readable? then [e.reading.crash] else []
  }

  class WorkerState {
    var pending: seq<Path>
    var stop: bool
    var rateLimitMap: map<RateLimiter.Key, int>

    constructor ()
      ensures pending == [] && !stop && rateLimitMap == map[]
      ensures Shows(WorkerQueue.Init(), pending, stop)
    {
      pending, stop, rateLimitMap := [], false, map[];
    }

    // ----- Critical sections: each is one step of the protocol

    method Push(path: Path)
      modifies this`pending
      ensures pending == old(pending) + [path]
      ensures forall s: WorkerQueue.State :: s.main == WorkerQueue.PushLocked(path) && Shows(s, old(pending), stop) ==>
        Shows(WorkerQueue.Next(s, WorkerQueue.Push), pending, stop)
    {
      pending := pending + [path];
    }

    method SetStop()
      modifies this`stop
      ensures stop
      ensures forall s: WorkerQueue.State :: s.main.StopLocked? && Shows(s, pending, old(stop)) ==>
        Shows(WorkerQueue.Next(s, WorkerQueue.SetStop), pending, stop)
    {
      stop := true;
    }

    /** What RunWorker does once the wait has returned: None means that the thread returns. */
    method TakeNext() returns (next: Option<Path>)
      requires stop || pending != []
      modifies this`pending
      ensures next == if old(pending) == [] then None else Some(old(pending)[0])
      ensures pending == if old(pending) == [] then [] else old(pending)[1..]
      ensures forall s: WorkerQueue.State :: s.worker.Leaving? && Shows(s, old(pending), stop) ==>
        && Shows(WorkerQueue.Next(s, WorkerQueue.Leave), pending, stop)
        && WorkerQueue.Next(s, WorkerQueue.Leave).worker ==
             match next case None => WorkerQueue.Returning case Some(path) => WorkerQueue.Popped(path)
    {
      if stop && pending == [] {
        return None;
      }
      next := Some(pending[0]);
      pending := pending[1..];
    }

    // ----- The producer

    /** EnqueueInotifyEvents on a buffer as the kernel fills it. */
    method EnqueueInotifyEvents(dir: seq<byte>, buf: seq<byte>)
      requires InotifyEvents.Tiled(buf, 0)
      modifies this`pending
      ensures pending == old(pending) + InotifyEvents.DecodeAll(dir, buf, 0)
    {
      hide U32At, InotifyEvents.Decode, InotifyEvents.RecordFits;
      ghost var was := pending;
      ghost var done: seq<Path> := [];
      var off := 0;
      while off < |buf|
        invariant off <= |buf| && InotifyEvents.Tiled(buf, off)
        invariant pending == was + done
        invariant InotifyEvents.DecodeAll(dir, buf, 0) == done + InotifyEvents.DecodeAll(dir, buf, off)
        decreases |buf| - off
      {
        ghost var paths := InotifyEvents.Decode(dir, buf, off);
        var len := EnqueueEvent(dir, buf, off);
        ghost var rest := InotifyEvents.DecodeAll(dir, buf, off + InotifyEvents.EVENT_SIZE + len);
        assert done + (paths + rest) == (done + paths) + rest;
        assert was + (done + paths) == (was + done) + paths;
        done := done + paths;
        off := off + InotifyEvents.EVENT_SIZE + len;
      }
      assert done + [] == done;
    }

    /** The loop body; yields the length of the record's name field. */
    method EnqueueEvent(dir: seq<byte>, buf: seq<byte>, off: nat) returns (len: nat)
      requires InotifyEvents.RecordFits(buf, off)
      modifies this`pending
      ensures off + InotifyEvents.EVENT_SIZE + len <= |buf| && len == U32At(buf, off + InotifyEvents.LEN_OFF)
      ensures pending == old(pending) + InotifyEvents.Decode(dir, buf, off)
    {
      var mask := U32At(buf, off + InotifyEvents.MASK_OFF);
      len := U32At(buf, off + InotifyEvents.LEN_OFF);
      if !InotifyEvents.MovedTo(mask) || len == 0 {
        return;
      }
      var start := off + InotifyEvents.EVENT_SIZE;
      var name := buf[start..start + InotifyEvents.NameLen(buf, start, len)];
      if InotifyEvents.EndsWith(name, InotifyEvents.DMP_SUFFIX) {
        Push(InotifyEvents.PathOf(dir, name));
      }
    }

    // ----- The rate limit

    method Admit(key: RateLimiter.Key, now: int) returns (logged: bool)
      modifies this`rateLimitMap
      ensures var crash := RateLimiter.Crash(key, now);
        && logged == !RateLimiter.Suppressed(old(rateLimitMap), crash)
        && rateLimitMap == RateLimiter.Remember(old(rateLimitMap), crash)
      ensures !logged <==> key in old(rateLimitMap) && now - old(rateLimitMap)[key] < 30_000_000_000
      ensures rateLimitMap == if logged then old(rateLimitMap)[key := now] else old(rateLimitMap)
    {
      if key in rateLimitMap && now - rateLimitMap[key] < RateLimiter.WINDOW {
        return false;
      }
      rateLimitMap := rateLimitMap[key := now];
      return true;
    }

    // ----- ProcessNewMinidump

    /** One dump: patch it if asked to, read it, log it unless its key was logged less than a
        window ago, and prune, on the unreadable, the suppressed and the logged path alike. */
    method ProcessNewMinidump(dump: array<byte>, lookup: MinidumpPatcher.Path -> MinidumpPatcher.BuildId, patch: bool,
                              read: seq<byte> -> Option<CrashKey.CrashInfo>, now: int,
                              database: Directory, exports: seq<Directory>, limits: DiskManager.Limits,
                              wall: int, later: int)
      returns (logged: bool, pruned: DiskManager.Status,
               ghost first: DiskManager.Status, ghost listing: seq<DiskManager.Report>,
               ghost exported: seq<DiskManager.Report>)
      requires patch ==> MinidumpPatcher.PatchBuffer(dump[..], lookup).Done?
      requires |exports| <= 1 && database !in exports
      requires database.Valid() && forall e :: e in exports ==> e.Valid()
      modifies dump, this`rateLimitMap, database, exports
      ensures dump[..] == if patch then MinidumpPatcher.PatchBuffer(old(dump[..]), lookup).buf else old(dump[..])
      ensures match read(dump[..])
        case None => !logged && rateLimitMap == old(rateLimitMap)
        case Some(info) =>
          var crash := RateLimiter.Crash(CrashKey.Key(info), now);
          && logged == !RateLimiter.Suppressed(old(rateLimitMap), crash)
          && rateLimitMap == RateLimiter.Remember(old(rateLimitMap), crash)
      ensures database.Valid() && database.Pruned(limits, wall, first, listing)
      ensures first == DiskManager.Internal ==> pruned == first && forall e :: e in exports ==> e.files == old(e.files)
      ensures first != DiskManager.Internal ==>
        if exports == [] then pruned == DiskManager.Ok else exports[0].Pruned(limits, later, pruned, exported)
      ensures var listed := (limits.maxBytes > 0 || limits.maxAge > 0) && old(database.Listable()) == DiskManager.Ok;
        IsStep(limits, EventOf(ReadingOf(read(dump[..]), now), wall, listed, listing, old(database.stuck)),
               old(database.files), old(rateLimitMap), database.files, rateLimitMap, logged,
               listed && first == DiskManager.Ok)
    {
      hide MinidumpPatcher.PatchBuffer, CrashKey.Key, RateLimiter.Suppressed, RateLimiter.Remember;
      hide DiskManager.Prune, DiskManager.OldestFirst, MetasWithout;
      logged := ReadAndLog(dump, lookup, patch, read, now);
      pruned, first, listing, exported := PruneMinidumps(database, exports, limits, wall, later);
      ghost var listed := (limits.maxBytes > 0 || limits.maxAge > 0) && old(database.Listable()) == DiskManager.Ok;
      ghost var e := EventOf(ReadingOf(read(dump[..]), now), wall, listed, listing, old(database.stuck));
      ProcessIsStep(limits, e, old(database.files), old(rateLimitMap), database.files, rateLimitMap, logged,
                    listed && first == DiskManager.Ok);
    }

    method ReadAndLog(dump: array<byte>, lookup: MinidumpPatcher.Path -> MinidumpPatcher.BuildId, patch: bool,
                      read: seq<byte> -> Option<CrashKey.CrashInfo>, now: int)
      returns (logged: bool)
      requires patch ==> MinidumpPatcher.PatchBuffer(dump[..], lookup).Done?
      modifies dump, this`rateLimitMap
      ensures dump[..] == if patch then MinidumpPatcher.PatchBuffer(old(dump[..]), lookup).buf else old(dump[..])
      ensures match read(dump[..])
        case None => !logged && rateLimitMap == old(rateLimitMap)
        case Some(info) =>
          var crash := RateLimiter.Crash(CrashKey.Key(info), now);
          && logged == !RateLimiter.Suppressed(old(rateLimitMap), crash)
          && rateLimitMap == RateLimiter.Remember(old(rateLimitMap), crash)
    {
      hide MinidumpPatcher.PatchBuffer, CrashKey.Key, RateLimiter.Suppressed, RateLimiter.Remember;
      if patch {
        var status, patched := MinidumpPatcher.PatchMissingBuildIds(dump, lookup);
      }
      logged := false;
      var info := read(dump[..]);
      if info.Some? {
        logged := Admit(CrashKey.Key(info.value), now);
      }
    }
  }

  lemma ProcessIsStep(l: DiskManager.Limits, e: DaemonRun.Event,
                      files: seq<DiskManager.Report>, was: map<RateLimiter.Key, int>,
                      left: seq<DiskManager.Report>, map': map<RateLimiter.Key, int>, logged: bool, pruned: bool)
    requires e.Process? && e.during == []
    requires match e.reading
      case Unreadable => !logged && map' == was
      case Readable(c) => logged == !RateLimiter.Suppressed(was, c) && map' == RateLimiter.Remember(was, c)
    requires match e.scan
      case NotListed => left == files && !pruned
      case Listed(listing) =>
        && DiskManager.OldestFirst(listing) && multiset(listing) == multiset(files)
        && var pass := DiskManager.Prune(l, e.now, listing, e.stuck);
        && multiset(left) == multiset(files) - multiset(pass.removed) && pruned == pass.ok
    ensures IsStep(l, e, files, was, left, map', logged, pruned)
  {
    hide DiskManager.Prune, DiskManager.OldestFirst, DiskManager.Loop, DiskManager.Reach, DiskManager.Sum;
    hide DaemonRun.Left, DaemonRun.Next, RateLimiter.Suppressed, RateLimiter.Remember;
    forall s: DaemonRun.State | DaemonRun.Shows(s, files, was)
      ensures DaemonRun.Shows(DaemonRun.Next(l, s, e), left, map')
      ensures DaemonRun.Next(l, s, e).pruned == (s.pruned || pruned)
      ensures DaemonRun.Next(l, s, e).since == if pruned then 0 else s.since
      ensures DaemonRun.Next(l, s, e).log == s.log + if logged && e.reading.Readable? then [e.reading.crash] else []
    {
      if e.scan.Listed? {
        DaemonRun.LeftIsRest(l, s, e);
      } else {
        NothingLeft(l, s, e);
      }
      DaemonRun.LogOfStep(l, s, e);
      ProcessOn(l, s, e);
    }
  }

  lemma ProcessOn(l: DiskManager.Limits, s: DaemonRun.State, e: DaemonRun.Event)
    requires e.Process? && e.during == []
    ensures var (left, ok) := DaemonRun.Left(l, s, e);
      var next := DaemonRun.Next(l, s, e);
      && next.files == left && next.pruned == (s.pruned || ok) && next.since == if ok then 0 else s.since
  {
    hide DaemonRun.Left;
    var (left, _) := DaemonRun.Left(l, s, e);
    assert left + [] == left;
  }

  lemma NothingLeft(l: DiskManager.Limits, s: DaemonRun.State, e: DaemonRun.Event)
    requires e.Process? && e.scan.NotListed?
    ensures DaemonRun.Left(l, s, e) == (s.files, false)
  {
  }
}
