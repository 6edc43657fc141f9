/** The hydrator shim (deploy/nas-protocols/hydrator_shim.py) as interleaved atomic steps: one
    polling loop and one thread per recall share the file tree, the in-flight set and a log. */
module HydratorShim {
  import opened Wrappers

  type Bytes = seq<char>

  const STUB_MAGIC := "OPENBLADE-OFFLINE-STUB\n"

  datatype Path = Path(dir: seq<string>, name: string)

  /** The temporary file a hydration of `p` writes. */
  function TmpOf(p: Path): Path {
    Path(p.dir, "." + p.name + ".hydrating")
  }

  /** A stub's mode. `Delay(false)` is a delay whose number does not parse; `Other` covers
      "never" and every mode the shim does not know. */
  datatype Mode = TapeError | Delay(parses: bool) | Immediate | Other

  /** Where a hydration thread stands. `Dead` is a thread that an exception ended, and says
      whether it had written its line by then. */
  datatype Pc =
    | Started
    | Awake
    | Holding(data: Bytes)
    | Writing(data: Bytes, written: nat)
    | Replaced
    | Finishing
    | Done
    | Dead(wrote: bool)

  datatype Thread = Thread(rel: Path, mode: Mode, pc: Pc)

  /** Where the polling loop stands with the request it is serving. */
  datatype Poll =
    | Idle
    | Picked(rel: Path)
    | HasData(rel: Path, data: Bytes)
    | Accepted(rel: Path, mode: Mode)
    | Added(rel: Path, mode: Mode)
    | Logged(rel: Path, mode: Mode)

  datatype LogLine = Recall(rel: Path) | Hydrated(rel: Path)

  datatype State = State(
    files: map<Path, Bytes>,
    tape: map<Path, Bytes>,
    requests: set<Path>,
    inflight: set<Path>,
    log: seq<LogLine>,
    poll: Poll,
    threads: seq<Thread>,
    errors: set<Path>)

  // ---- steps ----

  ghost predicate Init(s: State, clients: set<Path>) {
    && s.requests <= clients
    && s.inflight == {} && s.log == [] && s.poll == Idle && s.threads == [] && s.errors == {}
  }

  /** A client asks for a path. */
  ghost predicate RequestStep(s: State, t: State, clients: set<Path>) {
    exists rel :: rel in clients && t == s.(requests := s.requests + {rel})
  }

  ghost predicate PollStep(s: State, t: State) {
    match s.poll
    case Idle =>
      exists rel :: rel in s.requests && t == s.(requests := s.requests - {rel}, poll := Picked(rel))
    case Picked(rel) =>
      t == s.(poll := HasData(rel, if rel in s.files then s.files[rel] else []))
    case HasData(rel, data) =>
      if rel in s.inflight || !(STUB_MAGIC <= data) then t == s.(poll := Idle)
      else exists mode :: t == s.(poll := Accepted(rel, mode))
    case Accepted(rel, mode) =>
      t == s.(inflight := s.inflight + {rel}, poll := Added(rel, mode))
    case Added(rel, mode) =>
      t == s.(log := s.log + [Recall(rel)], poll := Logged(rel, mode))
    case Logged(rel, mode) =>
      t == s.(threads := s.threads + [Thread(rel, mode, Started)], poll := Idle)
  }

  function Moved(s: State, i: nat, pc: Pc): State
    requires i < |s.threads|
  {
    s.(threads := s.threads[i := s.threads[i].(pc := pc)])
  }

  predicate Ended(pc: Pc) {
    pc.Done? || pc.Dead?
  }

  predicate Hydrates(mode: Mode) {
    mode == Immediate || mode == Delay(true)
  }

  /** The thread has written its line to the log. */
  predicate HasWritten(th: Thread) {
    || (Hydrates(th.mode) && (th.pc.Finishing? || th.pc.Done?))
    || th.pc == Dead(true)
  }

  /** Thread `i` takes one step, or dies. */
  ghost predicate ThreadStep(s: State, t: State, i: nat)
    requires i < |s.threads|
  {
    var th := s.threads[i];
    var tmp := TmpOf(th.rel);
    || (!Ended(th.pc) && t == Moved(s, i, Dead(HasWritten(th))))
    || match th.pc
       case Started =>
         (match th.mode
          case TapeError => t == Moved(s, i, Finishing).(errors := s.errors + {th.rel})
          case Delay(parses) => t == Moved(s, i, if parses then Awake else Dead(false))
          case Immediate => t == Moved(s, i, Awake)
          case Other => t == Moved(s, i, Finishing))
       case Awake =>
         t == Moved(s, i, if th.rel in s.tape then Holding(s.tape[th.rel]) else Dead(false))
       case Holding(data) =>
         t == Moved(s, i, Writing(data, 0)).(files := s.files[tmp := []])
       case Writing(data, n) =>
         || (exists m :: n < m <= |data|
               && t == Moved(s, i, Writing(data, m)).(files := s.files[tmp := data[..m]]))
         || (n == |data| && tmp in s.files
               && t == Moved(s, i, Replaced).(files := (s.files - {tmp})[th.rel := s.files[tmp]]))
       case Replaced => t == Moved(s, i, Finishing).(log := s.log + [Hydrated(th.rel)])
       case Finishing => t == Moved(s, i, Done).(inflight := s.inflight - {th.rel})
       case Done => false
       case Dead(_) => false
  }

  ghost predicate Next(s: State, t: State, clients: set<Path>) {
    || RequestStep(s, t, clients)
    || PollStep(s, t)
    || exists i :: 0 <= i < |s.threads| && ThreadStep(s, t, i)
  }

  ghost predicate IsRun(run: seq<State>, clients: set<Path>) {
    && run != []
    && Init(run[0], clients)
    && forall i :: 0 < i < |run| ==> Next(run[i - 1], run[i], clients)
  }

  // ---- one hydration per path ----

  predicate Starting(poll: Poll, rel: Path) {
    (poll.Accepted? || poll.Added? || poll.Logged?) && poll.rel == rel
  }

  /** A path is held by at most one of: the loop that is starting it, a thread that has not
      finished. A dead thread still holds its path. */
  ghost predicate Exclusive(s: State) {
    && (forall i, j :: 0 <= i < j < |s.threads| && s.threads[i].pc != Done && s.threads[j].pc != Done ==>
          s.threads[i].rel != s.threads[j].rel)
    && (forall i :: 0 <= i < |s.threads| && s.threads[i].pc != Done ==>
          s.threads[i].rel in s.inflight && !Starting(s.poll, s.threads[i].rel))
    && (s.poll.Accepted? ==> s.poll.rel !in s.inflight)
    && (s.poll.Added? || s.poll.Logged? ==> s.poll.rel in s.inflight)
  }

  /** What any thread step leaves alone, and the only ways it changes the shared sets. */
  ghost predicate ThreadEffect(s: State, t: State, i: nat)
    requires i < |s.threads|
  {
    && t.poll == s.poll && t.tape == s.tape && t.requests == s.requests
    && |t.threads| == |s.threads|
    && (forall j :: 0 <= j < |s.threads| && j != i ==> t.threads[j] == s.threads[j])
    && var was, later := s.threads[i], t.threads[i];
       && later.rel == was.rel && was.pc != Done
       && (StillToLog(later.pc) ==> StillToLog(was.pc))
       && t.inflight == (if later.pc == Done then s.inflight - {was.rel} else s.inflight)
       && (t.log == s.log
           || (t.log == s.log + [Hydrated(was.rel)] && StillToLog(was.pc) && !StillToLog(later.pc)))
  }

  lemma ThreadStepEffect(s: State, t: State, i: nat)
    requires i < |s.threads| && ThreadStep(s, t, i)
    ensures ThreadEffect(s, t, i)
  {
    var pc := t.threads[i].pc;
    assert t.threads == Moved(s, i, pc).threads;
  }

  lemma ExclusiveThread(s: State, t: State, i: nat)
    requires Exclusive(s) && i < |s.threads| && ThreadEffect(s, t, i)
    ensures Exclusive(t)
  {
    forall j, k | 0 <= j < k < |t.threads| && t.threads[j].pc != Done && t.threads[k].pc != Done
      ensures t.threads[j].rel != t.threads[k].rel
    {
      assert s.threads[j].pc != Done && s.threads[k].pc != Done;
    }
    forall j | 0 <= j < |t.threads| && t.threads[j].pc != Done
      ensures t.threads[j].rel in t.inflight && !Starting(t.poll, t.threads[j].rel)
    {
      assert s.threads[j].pc != Done && s.threads[j].rel == t.threads[j].rel;
      if j != i {
        assert s.threads[j].rel != s.threads[i].rel;
      }
    }
    assert s.threads[i].rel in s.inflight && !Starting(s.poll, s.threads[i].rel);
  }

  lemma ExclusivePoll(s: State, t: State)
    requires Exclusive(s) && PollStep(s, t)
    ensures Exclusive(t)
  {
  }

  lemma ExclusiveStep(s: State, t: State, clients: set<Path>)
    requires Exclusive(s) && Next(s, t, clients)
    ensures Exclusive(t)
  {
    hide ThreadStep, PollStep;
    if RequestStep(s, t, clients) {
    } else if PollStep(s, t) {
      ExclusivePoll(s, t);
    } else {
      var i :| 0 <= i < |s.threads| && ThreadStep(s, t, i);
      ThreadStepEffect(s, t, i);
      ExclusiveThread(s, t, i);
    }
  }

  // ---- the log ----

  function Count(log: seq<LogLine>, line: LogLine): nat {
    if log == [] then 0
    else Count(log[..|log| - 1], line) + if log[|log| - 1] == line then 1 else 0
  }

  predicate StillToLog(pc: Pc) {
    pc.Started? || pc.Awake? || pc.Holding? || pc.Writing? || pc.Replaced?
  }

  /** A recall of `rel` has been logged whose completion could still be logged. */
  ghost predicate Owing(s: State, rel: Path) {
    || (s.poll.Logged? && s.poll.rel == rel)
    || exists i :: 0 <= i < |s.threads| && s.threads[i].rel == rel && StillToLog(s.threads[i].pc)
  }

  lemma CountAppend(log: seq<LogLine>, last: LogLine, line: LogLine)
    ensures Count(log + [last], line) == Count(log, line) + if last == line then 1 else 0
  {
    assert (log + [last])[..|log|] == log;
  }

  lemma OwingAfterThread(s: State, t: State, i: nat, rel: Path)
    requires Exclusive(s) && i < |s.threads| && ThreadEffect(s, t, i)
    ensures Owing(t, rel) ==> Owing(s, rel)
    ensures t.log != s.log && rel == s.threads[i].rel ==> Owing(s, rel) && !Owing(t, rel)
  {
    if Owing(t, rel) && !(t.poll.Logged? && t.poll.rel == rel) {
      var j :| 0 <= j < |t.threads| && t.threads[j].rel == rel && StillToLog(t.threads[j].pc);
      assert s.threads[j].rel == rel && StillToLog(s.threads[j].pc);
    }
    if t.log != s.log && rel == s.threads[i].rel {
      assert StillToLog(s.threads[i].pc);
      assert !Starting(t.poll, rel);
      forall j | 0 <= j < |t.threads| && j != i && t.threads[j].rel == rel
        ensures t.threads[j].pc == Done
      {
        assert s.threads[j] == t.threads[j];
      }
    }
  }

  /** The balance for one path. */
  ghost predicate Balanced(s: State, rel: Path) {
    Count(s.log, Hydrated(rel)) + (if Owing(s, rel) then 1 else 0) <= Count(s.log, Recall(rel))
  }

  ghost predicate LogBalanced(s: State) {
    forall rel :: Balanced(s, rel)
  }

  lemma BalancedThread(s: State, t: State, i: nat, rel: Path)
    requires Exclusive(s) && Balanced(s, rel) && i < |s.threads| && ThreadEffect(s, t, i)
    ensures Balanced(t, rel)
  {
    hide Owing;
    OwingAfterThread(s, t, i, rel);
    CountAppend(s.log, Hydrated(s.threads[i].rel), Recall(rel));
    CountAppend(s.log, Hydrated(s.threads[i].rel), Hydrated(rel));
  }

  lemma BalancedPoll(s: State, t: State, rel: Path)
    requires Exclusive(s) && Balanced(s, rel) && PollStep(s, t)
    ensures Balanced(t, rel)
  {
    hide Count;
    if s.poll.Added? {
      CountAppend(s.log, Recall(s.poll.rel), Recall(rel));
      CountAppend(s.log, Recall(s.poll.rel), Hydrated(rel));
    } else if s.poll.Logged? {
      LaunchOwes(s, t, rel);
    }
  }

  lemma LogStep(s: State, t: State, clients: set<Path>)
    requires Exclusive(s) && LogBalanced(s) && Next(s, t, clients)
    ensures LogBalanced(t)
  {
    hide ThreadStep, PollStep, Count, Exclusive, ThreadEffect;
    forall rel
      ensures Balanced(t, rel)
    {
      assert Balanced(s, rel);
      if RequestStep(s, t, clients) {
        assert t.threads == s.threads;
      } else if PollStep(s, t) {
        BalancedPoll(s, t, rel);
      } else {
        var i :| 0 <= i < |s.threads| && ThreadStep(s, t, i);
        ThreadStepEffect(s, t, i);
        BalancedThread(s, t, i, rel);
      }
    }
  }

  lemma LaunchOwes(s: State, t: State, rel: Path)
    requires s.poll.Logged? && PollStep(s, t)
    ensures Owing(t, rel) ==> Owing(s, rel)
  {
    if Owing(t, rel) {
      var j :| 0 <= j < |t.threads| && t.threads[j].rel == rel && StillToLog(t.threads[j].pc);
      assert j < |s.threads| ==> s.threads[j] == t.threads[j];
    }
  }

  // ---- the files ----

  /** No requested path is itself the temporary name of another. */
  ghost predicate Separate(clients: set<Path>) {
    forall a, b :: a in clients && b in clients ==> a != TmpOf(b)
  }

  ghost predicate IsTemp(p: Path, clients: set<Path>) {
    exists c :: c in clients && p == TmpOf(c)
  }

  lemma TmpInjective(a: Path, b: Path)
    requires TmpOf(a) == TmpOf(b)
    ensures a == b
  {
    var x, y := "." + a.name + ".hydrating", "." + b.name + ".hydrating";
    assert |x| == |y|;
    assert a.name == x[1..1 + |a.name|] == y[1..1 + |b.name|] == b.name;
  }

  function Lookup(files: map<Path, Bytes>, p: Path): Option<Bytes> {
    if p in files then Some(files[p]) else None
  }

  /** The path holds what it held at the start, or the complete tape bytes. */
  predicate Whole(s: State, start: map<Path, Bytes>, p: Path) {
    Lookup(s.files, p) == Lookup(start, p) || FromTape(s, p)
  }

  predicate FromTape(s: State, p: Path) {
    p in s.tape && p in s.files && s.files[p] == s.tape[p]
  }

  predicate PollKnown(poll: Poll, clients: set<Path>) {
    poll == Idle || poll.rel in clients
  }

  /** What a thread relies on: its data is the tape's, and its temporary file is a prefix. */
  predicate ThreadOk(s: State, th: Thread) {
    match th.pc
    case Holding(data) => th.rel in s.tape && data == s.tape[th.rel]
    case Writing(data, n) =>
      && th.rel in s.tape && data == s.tape[th.rel] && n <= |data|
      && TmpOf(th.rel) in s.files && s.files[TmpOf(th.rel)] == data[..n]
    case Replaced => FromTape(s, th.rel)
    case _ => true
  }

  ghost predicate FilesOk(s: State, start: map<Path, Bytes>, clients: set<Path>) {
    && s.requests <= clients && PollKnown(s.poll, clients)
    && (forall i :: 0 <= i < |s.threads| ==> s.threads[i].rel in clients && ThreadOk(s, s.threads[i]))
    && (forall p :: !IsTemp(p, clients) ==> Whole(s, start, p))
    && (forall rel :: Hydrated(rel) in s.log ==> rel in clients && FromTape(s, rel))
  }

  /** The files a thread step may change: its temporary file, which stays a prefix of the tape
      bytes it is writing, and its target, which becomes the tape bytes. */
  ghost predicate FileEffect(s: State, t: State, i: nat)
    requires i < |s.threads| && |t.threads| == |s.threads|
  {
    var rel := s.threads[i].rel;
    && (forall p :: p != rel && p != TmpOf(rel) ==> Lookup(t.files, p) == Lookup(s.files, p))
    && (Lookup(t.files, rel) == Lookup(s.files, rel) || FromTape(t, rel))
    && ThreadOk(t, t.threads[i])
    && (t.log != s.log ==> FromTape(t, rel))
  }

  lemma ThreadFileEffect(s: State, t: State, i: nat)
    requires i < |s.threads|
    requires ThreadOk(s, s.threads[i]) && ThreadStep(s, t, i) && ThreadEffect(s, t, i)
    ensures FileEffect(s, t, i)
  {
    hide ThreadEffect, TmpOf;
    TmpLonger(s.threads[i].rel);
    var pc := t.threads[i].pc;
    assert t.threads == Moved(s, i, pc).threads;
    if s.threads[i].pc.Writing? {
      WritingFileEffect(s, t, i);
    }
  }

  lemma WritingFileEffect(s: State, t: State, i: nat)
    requires i < |s.threads| && |t.threads| == |s.threads|
    requires ThreadOk(s, s.threads[i]) && ThreadStep(s, t, i) && s.threads[i].pc.Writing?
    ensures FileEffect(s, t, i)
  {
    hide TmpOf;
    TmpLonger(s.threads[i].rel);
    var data := s.threads[i].pc.data;
    assert data[..|data|] == data;
  }

  lemma FilesThread(s: State, t: State, i: nat, start: map<Path, Bytes>, clients: set<Path>)
    requires Separate(clients) && Exclusive(s) && FilesOk(s, start, clients)
    requires i < |s.threads| && ThreadEffect(s, t, i) && FileEffect(s, t, i)
    ensures FilesOk(t, start, clients)
  {
    var rel := s.threads[i].rel;
    forall j | 0 <= j < |t.threads|
      ensures t.threads[j].rel in clients && ThreadOk(t, t.threads[j])
    {
      if j != i {
        OtherThreadOk(s, t, i, j, clients);
      }
    }
    forall p | !IsTemp(p, clients)
      ensures Whole(t, start, p)
    {
      assert Whole(s, start, p);
      assert p != TmpOf(rel);
    }
    forall other | Hydrated(other) in t.log
      ensures other in clients && FromTape(t, other)
    {
      assert Hydrated(other) in s.log || other == rel;
      if other != rel {
        assert other != TmpOf(rel);
        assert Lookup(t.files, other) == Lookup(s.files, other);
      } else if Hydrated(rel) in s.log {
        assert FromTape(s, rel);
      }
    }
  }

  lemma OtherThreadOk(s: State, t: State, i: nat, j: nat, clients: set<Path>)
    requires Separate(clients) && Exclusive(s)
    requires i < |s.threads| && j < |s.threads| && i != j
    requires s.threads[i].rel in clients && s.threads[j].rel in clients
    requires ThreadOk(s, s.threads[j]) && ThreadEffect(s, t, i) && FileEffect(s, t, i)
    ensures ThreadOk(t, t.threads[j])
  {
    var mine, other := s.threads[i].rel, s.threads[j].rel;
    if s.threads[j].pc != Done {
      assert mine != other;
      if TmpOf(mine) == TmpOf(other) {
        TmpInjective(mine, other);
      }
      assert Lookup(t.files, TmpOf(other)) == Lookup(s.files, TmpOf(other));
      assert Lookup(t.files, other) == Lookup(s.files, other);
    }
  }

  lemma FilesStep(s: State, t: State, start: map<Path, Bytes>, clients: set<Path>)
    requires Separate(clients) && Exclusive(s) && FilesOk(s, start, clients) && Next(s, t, clients)
    ensures FilesOk(t, start, clients)
  {
    hide ThreadStep, Exclusive, Separate;
    if RequestStep(s, t, clients) {
      FilesSame(s, t, start, clients);
    } else if PollStep(s, t) {
      FilesSame(s, t, start, clients);
    } else {
      var i :| 0 <= i < |s.threads| && ThreadStep(s, t, i);
      ThreadStepEffect(s, t, i);
      ThreadFileEffect(s, t, i);
      FilesThread(s, t, i, start, clients);
    }
  }

  lemma SameFiles(s: State, t: State, clients: set<Path>)
    requires s.requests <= clients && PollKnown(s.poll, clients)
    requires RequestStep(s, t, clients) || PollStep(s, t)
    ensures t.files == s.files && t.tape == s.tape && t.requests <= clients && PollKnown(t.poll, clients)
    ensures forall i :: 0 <= i < |t.threads| ==>
      if i < |s.threads| then t.threads[i] == s.threads[i]
      else t.threads[i].pc == Started && t.threads[i].rel in clients
    ensures forall rel :: Hydrated(rel) in t.log ==> Hydrated(rel) in s.log
  {
  }

  lemma FilesSame(s: State, t: State, start: map<Path, Bytes>, clients: set<Path>)
    requires FilesOk(s, start, clients)
    requires RequestStep(s, t, clients) || PollStep(s, t)
    ensures FilesOk(t, start, clients)
  {
    SameFiles(s, t, clients);
    hide RequestStep, PollStep;
    forall i | 0 <= i < |t.threads|
      ensures t.threads[i].rel in clients && ThreadOk(t, t.threads[i])
    {
    }
    forall p | !IsTemp(p, clients)
      ensures Whole(t, start, p)
    {
      assert Whole(s, start, p);
    }
  }

  // ---- every run ----

  lemma {:induction false} RunFacts(run: seq<State>, clients: set<Path>, k: nat)
    requires IsRun(run, clients) && k < |run|
    ensures Exclusive(run[k]) && LogBalanced(run[k])
    ensures Separate(clients) ==> FilesOk(run[k], run[0].files, clients)
  {
    hide Next, Exclusive, LogBalanced, FilesOk, Separate;
    if k == 0 {
      StartFacts(run[0], clients);
    } else {
      RunFacts(run, clients, k - 1);
      ExclusiveStep(run[k - 1], run[k], clients);
      LogStep(run[k - 1], run[k], clients);
      if Separate(clients) {
        FilesStep(run[k - 1], run[k], run[0].files, clients);
      }
    }
  }

  lemma StartFacts(s: State, clients: set<Path>)
    requires Init(s, clients)
    ensures Exclusive(s) && LogBalanced(s) && FilesOk(s, s.files, clients)
  {
  }

  /** In every interleaving, unfinished hydrations, dead ones included, are for distinct paths
      and write distinct temporary files. */
  lemma OneHydrationPerPath(run: seq<State>, clients: set<Path>, k: nat, i: nat, j: nat)
    requires IsRun(run, clients) && k < |run|
    requires i < j < |run[k].threads| && run[k].threads[i].pc != Done && run[k].threads[j].pc != Done
    ensures run[k].threads[i].rel != run[k].threads[j].rel
    ensures TmpOf(run[k].threads[i].rel) != TmpOf(run[k].threads[j].rel)
  {
    RunFacts(run, clients, k);
    if TmpOf(run[k].threads[i].rel) == TmpOf(run[k].threads[j].rel) {
      TmpInjective(run[k].threads[i].rel, run[k].threads[j].rel);
    }
  }

  /** No path is ever logged as hydrated more often than its recall was logged. */
  lemma HydratedAtMostRecalled(run: seq<State>, clients: set<Path>, k: nat, rel: Path)
    requires IsRun(run, clients) && k < |run|
    ensures Count(run[k].log, Hydrated(rel)) <= Count(run[k].log, Recall(rel))
  {
    RunFacts(run, clients, k);
    assert Balanced(run[k], rel);
  }

  /** When requested paths are not each other's temporary names, every path outside the
      temporary names always holds what it held at the start or the complete tape bytes, and
      a path logged as hydrated holds the tape bytes from then on. */
  lemma TargetsIntact(run: seq<State>, clients: set<Path>, k: nat, p: Path)
    requires IsRun(run, clients) && k < |run| && Separate(clients)
    ensures !IsTemp(p, clients) ==> Whole(run[k], run[0].files, p)
    ensures Hydrated(p) in run[k].log ==> FromTape(run[k], p)
  {
    RunFacts(run, clients, k);
  }

  /** In particular a requested path always has the file it started with, or none if it had none,
      or else the complete tape file. */
  lemma RequestedWhole(run: seq<State>, clients: set<Path>, k: nat, p: Path)
    requires IsRun(run, clients) && k < |run| && Separate(clients) && p in clients
    ensures var was, s := run[0].files, run[k];
      || (p in was && p in s.files && s.files[p] == was[p])
      || (p !in was && p !in s.files)
      || (p in s.tape && p in s.files && s.files[p] == s.tape[p])
  {
    hide IsRun;
    TargetsIntact(run, clients, k, p);
    assert !IsTemp(p, clients);
  }

  /** A requested stub that is not in flight can be recalled, in any mode, and then has a thread. */
  lemma PollAccepts(s: State, b: Path, mode: Mode) returns (run: seq<State>)
    requires s.poll == Idle && b in s.requests && b !in s.inflight
    requires b in s.files && STUB_MAGIC <= s.files[b]
    ensures |run| == 7 && run[0] == s && forall i :: 0 < i < 7 ==> PollStep(run[i - 1], run[i])
    ensures run[6] == State(s.files, s.tape, s.requests - {b}, s.inflight + {b}, s.log + [Recall(b)], Idle,
                            s.threads + [Thread(b, mode, Started)], s.errors)
  {
    var s1 := s.(requests := s.requests - {b}, poll := Picked(b));
    var s2 := s1.(poll := HasData(b, s.files[b]));
    var s3 := s2.(poll := Accepted(b, mode));
    var s4 := s3.(inflight := s3.inflight + {b}, poll := Added(b, mode));
    var s5 := s4.(log := s4.log + [Recall(b)], poll := Logged(b, mode));
    var s6 := s5.(threads := s5.threads + [Thread(b, mode, Started)], poll := Idle);
    run := [s, s1, s2, s3, s4, s5, s6];
  }

  lemma ThreadOpensTemp(s: State, b: Path) returns (run: seq<State>)
    requires s.threads == [Thread(b, Immediate, Started)] && b in s.tape
    ensures |run| == 4 && run[0] == s
    ensures |run[0].threads| == |run[1].threads| == |run[2].threads| == 1
    ensures ThreadStep(run[0], run[1], 0) && ThreadStep(run[1], run[2], 0) && ThreadStep(run[2], run[3], 0)
    ensures run[3].tape == s.tape && run[3].files == s.files[TmpOf(b) := []]
  {
    var s1 := Moved(s, 0, Awake);
    var s2 := Moved(s1, 0, Holding(s.tape[b]));
    var s3 := Moved(s2, 0, Writing(s.tape[b], 0)).(files := s2.files[TmpOf(b) := []]);
    run := [s, s1, s2, s3];
  }

  /** Without that separation it fails: for any two requestable paths one of which is the
      other's temporary name, some run leaves the first neither as it was nor as on tape. */
  lemma SeparationNeeded(clients: set<Path>, a: Path, b: Path, stub: Bytes) returns (run: seq<State>)
    requires a in clients && b in clients && a == TmpOf(b)
    requires STUB_MAGIC <= stub
    ensures IsRun(run, clients)
    ensures !Whole(run[|run| - 1], run[0].files, a)
  {
    hide PollStep, ThreadStep, TmpOf;
    assert a != b by {
      assert |TmpOf(b).name| > |b.name| by { TmpLonger(b); }
    }
    var start := State(map[a := stub, b := stub], map[b := stub], {b}, {}, [], Idle, [], {});
    var first := PollAccepts(start, b, Immediate);
    var second := ThreadOpensTemp(first[6], b);
    run := first + second[1..];
    forall i | 0 < i < |run|
      ensures Next(run[i - 1], run[i], clients)
    {
      if i >= 7 {
        assert run[i - 1] == second[i - 7] && run[i] == second[i - 6];
      }
    }
    assert run[|run| - 1] == second[3];
  }

  lemma TmpLonger(p: Path)
    ensures |TmpOf(p).name| > |p.name|
  {
  }

  // ---- only stubs are recalled ----

  /** At some moment up to `k` the file at `rel` began with the stub's first line. */
  ghost predicate WasStub(run: seq<State>, k: nat, rel: Path) {
    exists j :: 0 <= j <= k && j < |run| && rel in run[j].files && "OPENBLADE-OFFLINE-STUB\n" <= run[j].files[rel]
  }

  ghost predicate StubsOnly(run: seq<State>, k: nat)
    requires k < |run|
  {
    var s := run[k];
    && (s.poll.HasData? && "OPENBLADE-OFFLINE-STUB\n" <= s.poll.data ==> WasStub(run, k, s.poll.rel))
    && (s.poll.Accepted? || s.poll.Added? || s.poll.Logged? ==> WasStub(run, k, s.poll.rel))
    && forall rel :: Recall(rel) in s.log ==> WasStub(run, k, rel)
  }

  lemma StubsPoll(run: seq<State>, k: nat)
    requires k + 1 < |run| && StubsOnly(run, k) && PollStep(run[k], run[k + 1])
    ensures StubsOnly(run, k + 1)
  {
    var s, t := run[k], run[k + 1];
    hide WasStub;
    if s.poll.Picked? && s.poll.rel in s.files && "OPENBLADE-OFFLINE-STUB\n" <= s.files[s.poll.rel] {
      StubSeen(run, k, s.poll.rel);
    }
    forall rel
      ensures WasStub(run, k, rel) ==> WasStub(run, k + 1, rel)
    {
      StubLater(run, k, rel);
    }
  }

  lemma StubSeen(run: seq<State>, k: nat, rel: Path)
    requires k < |run| && rel in run[k].files && "OPENBLADE-OFFLINE-STUB\n" <= run[k].files[rel]
    ensures WasStub(run, k, rel)
  {
  }

  lemma StubLater(run: seq<State>, k: nat, rel: Path)
    ensures WasStub(run, k, rel) ==> WasStub(run, k + 1, rel)
  {
  }

  lemma StubsElse(run: seq<State>, k: nat)
    requires k + 1 < |run| && StubsOnly(run, k) && run[k + 1].poll == run[k].poll
    requires forall rel :: Recall(rel) in run[k + 1].log ==> Recall(rel) in run[k].log
    ensures StubsOnly(run, k + 1)
  {
    hide WasStub;
    forall rel
      ensures WasStub(run, k, rel) ==> WasStub(run, k + 1, rel)
    {
      StubLater(run, k, rel);
    }
  }

  /** In every run, a file whose recall was logged has been seen to begin with the stub's line. */
  lemma {:induction false} OnlyStubsRecalled(run: seq<State>, clients: set<Path>, k: nat)
    requires IsRun(run, clients) && k < |run|
    ensures StubsOnly(run, k)
    ensures forall rel :: Recall(rel) in run[k].log ==> WasStub(run, k, rel)
  {
    hide ThreadStep, PollStep, WasStub;
    if k > 0 {
      OnlyStubsRecalled(run, clients, k - 1);
      var s, t := run[k - 1], run[k];
      if PollStep(s, t) {
        StubsPoll(run, k - 1);
      } else {
        if !RequestStep(s, t, clients) {
          var i :| 0 <= i < |s.threads| && ThreadStep(s, t, i);
          ThreadStepEffect(s, t, i);
        }
        StubsElse(run, k - 1);
      }
    }
  }

  // ---- what a thread has done ----

  /** The stages a mode can bring a thread to. */
  predicate ModeOk(th: Thread) {
    match th.mode
    case Immediate => true
    case Delay(parses) => parses || th.pc.Started? || th.pc == Dead(false)
    case _ => th.pc.Started? || th.pc.Finishing? || th.pc.Done? || th.pc == Dead(false)
  }

  /** The log tells a recall of `rel`, and later its hydration. */
  ghost predicate RecalledThenHydrated(log: seq<LogLine>, rel: Path) {
    exists a, b :: 0 <= a < b < |log| && log[a] == Recall(rel) && log[b] == Hydrated(rel)
  }

  ghost predicate RecordOk(s: State, th: Thread) {
    && ModeOk(th)
    && Recall(th.rel) in s.log
    && (HasWritten(th) ==> RecalledThenHydrated(s.log, th.rel))
    && (th.mode == TapeError && (th.pc.Finishing? || th.pc.Done?) ==> th.rel in s.errors)
  }

  /** How many threads there are for `rel`, or how many of them have written their line. */
  function Tally(threads: seq<Thread>, rel: Path, written: bool): nat {
    if threads == [] then 0
    else
      var last := threads[|threads| - 1];
      Tally(threads[..|threads| - 1], rel, written) + if last.rel == rel && (written ==> HasWritten(last)) then 1 else 0
  }

  lemma TallyAppend(threads: seq<Thread>, th: Thread, rel: Path, written: bool)
    ensures Tally(threads + [th], rel, written) ==
      Tally(threads, rel, written) + if th.rel == rel && (written ==> HasWritten(th)) then 1 else 0
  {
    assert (threads + [th])[..|threads|] == threads;
  }

  lemma {:induction false} TallyUpdate(threads: seq<Thread>, i: nat, th: Thread, rel: Path, written: bool)
    requires i < |threads| && th.rel == threads[i].rel
    ensures Tally(threads[i := th], rel, written) == Tally(threads, rel, written)
      + (if th.rel == rel && (written ==> HasWritten(th)) then 1 else 0)
      - (if th.rel == rel && (written ==> HasWritten(threads[i])) then 1 else 0)
  {
    hide HasWritten;
    var init := threads[..|threads| - 1];
    if i < |init| {
      TallyUpdate(init, i, th, rel, written);
      assert threads[i := th][..|threads| - 1] == init[i := th];
    } else {
      assert threads[i := th][..|threads| - 1] == init;
    }
  }

  /** The log holds one recall for every thread started or about to be, and one hydration for
      every thread that has written its line. */
  ghost predicate Accounted(s: State, rel: Path) {
    && Count(s.log, Recall(rel))
       == Tally(s.threads, rel, false) + (if s.poll.Logged? && s.poll.rel == rel then 1 else 0)
    && Count(s.log, Hydrated(rel)) == Tally(s.threads, rel, true)
  }

  ghost predicate RecordsOk(s: State) {
    && (forall i :: 0 <= i < |s.threads| ==> RecordOk(s, s.threads[i]))
    && (s.poll.Logged? ==> Recall(s.poll.rel) in s.log)
    && forall rel :: Accounted(s, rel)
  }

  /** What a thread's step does to its record. */
  ghost predicate WriteEffect(s: State, t: State, i: nat)
    requires i < |s.threads|
  {
    && t.poll == s.poll && |t.threads| == |s.threads| && t.threads == s.threads[i := t.threads[i]]
    && s.errors <= t.errors
    && var was, later := s.threads[i], t.threads[i];
       && later.rel == was.rel && later.mode == was.mode && ModeOk(later)
       && ((t.log == s.log && HasWritten(later) == HasWritten(was))
           || (t.log == s.log + [Hydrated(was.rel)] && !HasWritten(was) && HasWritten(later)))
       && (later.mode == TapeError && (later.pc.Finishing? || later.pc.Done?) ==>
             later.rel in t.errors || was.pc.Finishing?)
  }

  /** While it fetches and writes the bytes a thread logs nothing. */
  lemma QuietStep(s: State, t: State, i: nat)
    requires i < |s.threads| && ThreadStep(s, t, i)
    requires s.threads[i].pc.Awake? || s.threads[i].pc.Holding? || s.threads[i].pc.Writing?
    ensures t.log == s.log && t.errors == s.errors && t.poll == s.poll
    ensures |t.threads| == |s.threads| && t.threads == s.threads[i := s.threads[i].(pc := t.threads[i].pc)]
    ensures var pc := t.threads[i].pc; pc.Holding? || pc.Writing? || pc.Replaced? || pc == Dead(false)
  {
    hide TmpOf;
  }

  lemma ThreadWriteEffect(s: State, t: State, i: nat)
    requires i < |s.threads| && ModeOk(s.threads[i]) && ThreadStep(s, t, i)
    ensures WriteEffect(s, t, i)
  {
    var pc := s.threads[i].pc;
    if pc.Awake? || pc.Holding? || pc.Writing? {
      hide ThreadStep;
      QuietStep(s, t, i);
    } else {
      var next := t.threads[i].pc;
      assert t.threads == Moved(s, i, next).threads;
    }
  }

  lemma GrownLog(log: seq<LogLine>, line: LogLine, rel: Path)
    ensures Recall(rel) in log ==> Recall(rel) in log + [line]
    ensures RecalledThenHydrated(log, rel) ==> RecalledThenHydrated(log + [line], rel)
    ensures Recall(rel) in log && line == Hydrated(rel) ==> RecalledThenHydrated(log + [line], rel)
  {
    var more := log + [line];
    if RecalledThenHydrated(log, rel) {
      var a, b :| 0 <= a < b < |log| && log[a] == Recall(rel) && log[b] == Hydrated(rel);
      assert more[a] == Recall(rel) && more[b] == Hydrated(rel);
    }
    if Recall(rel) in log && line == Hydrated(rel) {
      var a :| 0 <= a < |log| && log[a] == Recall(rel);
      assert more[a] == Recall(rel) && more[|log|] == line;
    }
  }

  lemma RecordsThread(s: State, t: State, i: nat)
    requires RecordsOk(s) && i < |s.threads| && WriteEffect(s, t, i)
    ensures RecordsOk(t)
  {
    hide HasWritten, ModeOk, RecalledThenHydrated, Count, Tally;
    var mine := s.threads[i].rel;
    forall j | 0 <= j < |t.threads|
      ensures RecordOk(t, t.threads[j])
    {
      assert RecordOk(s, s.threads[j]);
      GrownLog(s.log, Hydrated(mine), s.threads[j].rel);
    }
    forall rel
      ensures Accounted(t, rel)
    {
      assert Accounted(s, rel);
      TallyUpdate(s.threads, i, t.threads[i], rel, false);
      TallyUpdate(s.threads, i, t.threads[i], rel, true);
      CountAppend(s.log, Hydrated(mine), Recall(rel));
      CountAppend(s.log, Hydrated(mine), Hydrated(rel));
    }
  }

  lemma RecordsPoll(s: State, t: State)
    requires RecordsOk(s) && PollStep(s, t)
    ensures RecordsOk(t)
  {
    hide RecalledThenHydrated, Count, Tally;
    forall j | 0 <= j < |t.threads|
      ensures RecordOk(t, t.threads[j])
    {
      if j < |s.threads| {
        assert RecordOk(s, s.threads[j]);
        GrownLog(s.log, if s.poll == Idle then Recall(s.threads[j].rel) else Recall(s.poll.rel), s.threads[j].rel);
      }
    }
    forall rel
      ensures Accounted(t, rel)
    {
      assert Accounted(s, rel);
      if s.poll.Added? {
        CountAppend(s.log, Recall(s.poll.rel), Recall(rel));
        CountAppend(s.log, Recall(s.poll.rel), Hydrated(rel));
      } else if s.poll.Logged? {
        TallyAppend(s.threads, Thread(s.poll.rel, s.poll.mode, Started), rel, false);
        TallyAppend(s.threads, Thread(s.poll.rel, s.poll.mode, Started), rel, true);
      }
    }
  }

  lemma RecordsSame(s: State, t: State)
    requires RecordsOk(s)
    requires t.log == s.log && t.threads == s.threads && t.poll == s.poll && t.errors == s.errors
    ensures RecordsOk(t)
  {
    hide ModeOk, HasWritten, RecalledThenHydrated, Count, Tally;
    forall i | 0 <= i < |t.threads|
      ensures RecordOk(t, t.threads[i])
    {
      assert RecordOk(s, s.threads[i]);
    }
    forall rel
      ensures Accounted(t, rel)
    {
      assert Accounted(s, rel);
    }
  }

  lemma RecordsStep(s: State, t: State, clients: set<Path>)
    requires RecordsOk(s) && Next(s, t, clients)
    ensures RecordsOk(t)
  {
    hide ThreadStep, PollStep, Count, Tally, ModeOk, HasWritten, RecalledThenHydrated;
    if RequestStep(s, t, clients) {
      RecordsSame(s, t);
    } else if PollStep(s, t) {
      RecordsPoll(s, t);
    } else {
      var i :| 0 <= i < |s.threads| && ThreadStep(s, t, i);
      assert RecordOk(s, s.threads[i]);
      ThreadWriteEffect(s, t, i);
      RecordsThread(s, t, i);
    }
  }

  lemma {:induction false} RunRecords(run: seq<State>, clients: set<Path>, k: nat)
    requires IsRun(run, clients) && k < |run|
    ensures RecordsOk(run[k])
  {
    hide Next, RecordsOk;
    if k == 0 {
      StartRecords(run[0], clients);
    } else {
      RunRecords(run, clients, k - 1);
      RecordsStep(run[k - 1], run[k], clients);
    }
  }

  lemma StartRecords(s: State, clients: set<Path>)
    requires Init(s, clients)
    ensures RecordsOk(s)
  {
  }

  /** What a thread that has come to its end has done, in every run. An immediate hydration, and a
      delayed one whose delay is a number, has logged itself after its recall and left the tape
      bytes in its target; a tape error has been reported; a bad delay never comes to its end. */
  lemma FinishedThread(run: seq<State>, clients: set<Path>, k: nat, i: nat)
    requires IsRun(run, clients) && k < |run| && i < |run[k].threads| && run[k].threads[i].pc == Done
    ensures var s, rel := run[k], run[k].threads[i].rel;
      match s.threads[i].mode
      case Immediate =>
        && (exists a, b :: 0 <= a < b < |s.log| && s.log[a] == Recall(rel) && s.log[b] == Hydrated(rel))
        && (Separate(clients) ==> rel in s.tape && rel in s.files && s.files[rel] == s.tape[rel])
      case Delay(parses) =>
        && parses
        && (exists a, b :: 0 <= a < b < |s.log| && s.log[a] == Recall(rel) && s.log[b] == Hydrated(rel))
        && (Separate(clients) ==> rel in s.tape && rel in s.files && s.files[rel] == s.tape[rel])
      case TapeError => rel in s.errors
      case Other => true
  {
    hide Separate, IsRun, Accounted;
    var s, th := run[k], run[k].threads[i];
    RunRecords(run, clients, k);
    assert RecordOk(s, th);
    if Hydrates(th.mode) && Separate(clients) {
      TargetsIntact(run, clients, k, th.rel);
    }
  }

  /** A thread of any other mode never touches a file or the log. */
  lemma OtherModesWriteNothing(run: seq<State>, clients: set<Path>, k: nat, i: nat, t: State)
    requires IsRun(run, clients) && k < |run| && i < |run[k].threads| && ThreadStep(run[k], t, i)
    requires run[k].threads[i].mode != Immediate && run[k].threads[i].mode != Delay(true)
    ensures t.files == run[k].files && t.log == run[k].log
  {
    hide IsRun, Accounted, RecalledThenHydrated;
    RunRecords(run, clients, k);
    assert RecordOk(run[k], run[k].threads[i]);
  }

  /** In every reachable state a path's recall lines number its threads, with the one about to be
      started, and its hydrated lines number those threads that wrote theirs: the immediate and
      delayed ones that are finishing or done, and those that died after writing. */
  lemma LogExactly(run: seq<State>, clients: set<Path>, k: nat, rel: Path)
    requires IsRun(run, clients) && k < |run|
    ensures var s := run[k];
      && Count(s.log, Recall(rel))
         == Tally(s.threads, rel, false) + (if s.poll.Logged? && s.poll.rel == rel then 1 else 0)
      && Count(s.log, Hydrated(rel)) == Tally(s.threads, rel, true)
  {
    hide IsRun, RecordOk, Count, Tally;
    RunRecords(run, clients, k);
    assert Accounted(run[k], rel);
  }

  ghost predicate Steps(s: State, t: State, i: nat) {
    i < |s.threads| && ThreadStep(s, t, i)
  }

  lemma BytesWritten(s: State, i: nat) returns (run: seq<State>)
    requires i < |s.threads| && s.threads[i].pc == Started && s.threads[i].rel in s.tape
    requires s.threads[i].mode == Immediate || s.threads[i].mode == Delay(true)
    ensures |run| > 0 && run[0] == s && forall j :: 0 < j < |run| ==> Steps(run[j - 1], run[j], i)
    ensures var data := s.tape[s.threads[i].rel];
      run[|run| - 1] == Moved(s, i, Writing(data, |data|)).(files := s.files[TmpOf(s.threads[i].rel) := data])
  {
    hide TmpOf;
    var data, tmp := s.tape[s.threads[i].rel], TmpOf(s.threads[i].rel);
    var s1 := Moved(s, i, Awake);
    var s2 := Moved(s1, i, Holding(data));
    var s3 := Moved(s2, i, Writing(data, 0)).(files := s.files[tmp := []]);
    run := [s, s1, s2, s3];
    if data != [] {
      var s4 := Moved(s3, i, Writing(data, |data|)).(files := s3.files[tmp := data[..|data|]]);
      assert data[..|data|] == data;
      assert s4.files == s.files[tmp := data];
      run := run + [s4];
    }
  }

  lemma BytesPlaced(s: State, i: nat, rel: Path, data: Bytes) returns (run: seq<State>)
    requires i < |s.threads| && s.threads[i].rel == rel && s.threads[i].pc == Writing(data, |data|)
    requires TmpOf(rel) in s.files && s.files[TmpOf(rel)] == data
    ensures |run| == 4 && run[0] == s && forall j :: 0 < j < |run| ==> Steps(run[j - 1], run[j], i)
    ensures run[3] == Moved(s, i, Done).(
      files := (s.files - {TmpOf(rel)})[rel := data],
      log := s.log + [Hydrated(rel)],
      inflight := s.inflight - {rel})
  {
    hide TmpOf;
    var s1 := Moved(s, i, Replaced).(files := (s.files - {TmpOf(rel)})[rel := data]);
    var s2 := Moved(s1, i, Finishing).(log := s.log + [Hydrated(rel)]);
    var s3 := Moved(s2, i, Done).(inflight := s.inflight - {rel});
    run := [s, s1, s2, s3];
  }

  /** A started hydration whose tape file is there can run to its end, and then it has replaced
      its target, removed its temporary file, logged itself and freed its path. */
  lemma HydrationCanFinish(s: State, i: nat) returns (run: seq<State>)
    requires i < |s.threads| && s.threads[i].pc == Started && s.threads[i].rel in s.tape
    requires s.threads[i].mode == Immediate || s.threads[i].mode == Delay(true)
    ensures |run| > 0 && run[0] == s && forall j :: 0 < j < |run| ==> Steps(run[j - 1], run[j], i)
    ensures var th := s.threads[i];
      run[|run| - 1] == s.(
        threads := s.threads[i := th.(pc := Done)],
        files := (s.files - {TmpOf(th.rel)})[th.rel := s.tape[th.rel]],
        log := s.log + [Hydrated(th.rel)],
        inflight := s.inflight - {th.rel})
  {
    hide TmpOf, ThreadStep;
    var rel, data := s.threads[i].rel, s.tape[s.threads[i].rel];
    var first := BytesWritten(s, i);
    var middle := first[|first| - 1];
    var second := BytesPlaced(middle, i, rel, data);
    run := first + second[1..];
    forall j | 0 < j < |run|
      ensures Steps(run[j - 1], run[j], i)
    {
      if j >= |first| {
        var k := j - |first| + 1;
        assert run[j - 1] == second[k - 1] && run[j] == second[k];
      }
    }
    assert run[|run| - 1] == second[3];
    assert middle.files - {TmpOf(rel)} == s.files - {TmpOf(rel)};
  }

  // ---- a dead thread ----

  lemma DeadStep(s: State, t: State, clients: set<Path>, i: nat)
    requires Exclusive(s) && Next(s, t, clients) && i < |s.threads| && s.threads[i].pc.Dead?
    ensures i < |t.threads| && t.threads[i] == s.threads[i]
    ensures Count(t.log, Recall(s.threads[i].rel)) == Count(s.log, Recall(s.threads[i].rel))
  {
    hide Count;
    var rel := s.threads[i].rel;
    if RequestStep(s, t, clients) {
    } else if PollStep(s, t) {
      if s.poll.Added? {
        CountAppend(s.log, Recall(s.poll.rel), Recall(rel));
      }
    } else {
      var j :| 0 <= j < |s.threads| && ThreadStep(s, t, j);
      ThreadStepEffect(s, t, j);
      CountAppend(s.log, Hydrated(s.threads[j].rel), Recall(rel));
    }
  }

  /** A thread that died keeps its path in flight for good: the path is never recalled again. */
  lemma {:induction false} DeadPathStaysBlocked(run: seq<State>, clients: set<Path>, k: nat, m: nat, i: nat)
    requires IsRun(run, clients) && k <= m < |run|
    requires i < |run[k].threads| && run[k].threads[i].pc.Dead?
    ensures i < |run[m].threads| && run[m].threads[i] == run[k].threads[i]
    ensures run[k].threads[i].rel in run[m].inflight
    ensures var line := Recall(run[k].threads[i].rel); Count(run[m].log, line) == Count(run[k].log, line)
  {
    hide Next, LogBalanced, FilesOk, Count;
    RunFacts(run, clients, m);
    if k < m {
      DeadPathStaysBlocked(run, clients, k, m - 1, i);
      RunFacts(run, clients, m - 1);
      DeadStep(run[m - 1], run[m], clients, i);
    }
  }
}
