/**
 * Whole runs: any sequence of operations, each made of single file writes, with kills at any byte and
 * reopening after them. The database behaves like a map whose operations happen entirely or not at all.
 */
module CrashRuns {
  import opened Codec
  import opened Records
  import opened Log
  import opened IndexImage
  import opened IndexPlans
  import opened IndexSetup
  import opened IndexMetadata
  import opened DiskModel
  import opened Protocol
  import opened CrashSteps
  import opened CrashPlans

  datatype Op =
    | OpOpen(buckets: nat)
    | OpClose
    | OpPut(key: Key, value: Log.Value)
    | OpErase(key: Key)
    | OpGet(key: Key)
    | OpRebuild
    | OpRecover

  /** The writes an operation makes on the files it finds. */
  function PlanOf(op: Op, d: DiskState): seq<DiskWrite>
  {
    match op
    case OpOpen(n) => (match OpenPlan(d, n) case Opens(_, plan) => plan case Refused => [])
    case OpClose => ClosePlan(d)
    case OpPut(key, value) => PutPlan(d, key, value)
    case OpErase(key) => DeletePlan(d, key)
    case OpGet(_) => []
    case OpRebuild => if Scan(Tail(d.log)).stop == EndOfFile then RebuildPlan(d.log, BucketCount(IndexOf(d))) else []
    case OpRecover =>
      if |d.log| < DB_HEADER_SIZE then []
      else (match RecoverPlan(d.log, BucketCount(IndexOf(d))) case Some(plan) => plan case None => [])
  }

  /** What it returns. */
  function OutcomeOf(op: Op, d: DiskState): Outcome
  {
    match op
    case OpOpen(n) => if OpenPlan(d, n).Opens? then Returned else Threw
    case OpClose => if |d.log| == Checkpoint(IndexOf(d)) then Returned else Threw
    case OpPut(key, value) => if CanStore(key, value) then Returned else Threw
    case OpErase(key) => Existed(key in IndexImage.Contents(IndexOf(d)))
    case OpGet(key) => GetResult(d, key)
    case OpRebuild => if Scan(Tail(d.log)).stop == EndOfFile then Returned else Threw
    case OpRecover =>
      if |d.log| >= DB_HEADER_SIZE && RecoverPlan(d.log, BucketCount(IndexOf(d))).Some? then Returned else Threw
  }

  // ---- the map the database is meant to be ----

  function Effect(op: Op, m: Store): Store
  {
    match op
    case OpPut(key, value) => if CanStore(key, value) then m[key := value] else m
    case OpErase(key) => m - {key}
    case _ => m
  }

  function Expected(op: Op, m: Store): Outcome
  {
    match op
    case OpOpen(n) => if n > 0 then Returned else Threw
    case OpPut(key, value) => if CanStore(key, value) then Returned else Threw
    case OpErase(key) => Existed(key in m)
    case OpGet(key) => Value(if key in m then Some(m[key]) else None)
    case _ => Returned
  }

  /** An operation that finished with its result, or one that was killed before it finished. */
  datatype Event = Completed(op: Op, outcome: Outcome) | Killed(op: Op)

  /**
   * From the contents `base`, the map `m` accounts for the history `h`: every completed operation had its
   * effect and returned what the map said at that point, every killed one had its effect or none.
   */
  ghost predicate Explains(base: Store, h: seq<Event>, m: Store)
    decreases |h|
  {
    if h == [] then m == base
    else
      var before, last := h[..|h| - 1], h[|h| - 1];
      match last
      case Completed(op, outcome) =>
        exists m0 :: Explains(base, before, m0) && outcome == Expected(op, m0) && m == Effect(op, m0)
      case Killed(op) =>
        exists m0 :: Explains(base, before, m0) && (m == m0 || m == Effect(op, m0))
  }

  // ---- the machine ----

  /** The process: not running, between operations, or after `step` writes of one begun on `start`. */
  datatype Process = Down | Up | Running(op: Op, start: DiskState, step: nat)

  datatype State = State(disk: DiskState, process: Process, history: seq<Event>)

  /**
   * One step: an operation begins, makes its next write, or returns; the process is killed; or, while no
   * process runs, the index file is deleted or overwritten by something that is not an index.
   */
  datatype Action = Begin(op: Op) | Write | Finish | Kill(bytes: nat) | LoseIndex(img: Option<Bytes>)

  /** The operation keeps the files within the size limit. */
  predicate Room(op: Op, d: DiskState)
  {
    match op
    case OpOpen(n) => OpenFits(d, n)
    case OpPut(key, value) => |d.log| + |Encode(Record(Put, key, value))| <= FILE_LIMIT
    case OpErase(key) => |d.log| + |Encode(Record(Delete, key, []))| <= FILE_LIMIT
    case _ => true
  }

  predicate Enabled(s: State, a: Action)
  {
    match a
    case Begin(op) => Room(op, s.disk) && (if op.OpOpen? then s.process == Down else s.process == Up)
    case Write => s.process.Running? && s.process.step < |PlanOf(s.process.op, s.process.start)|
    case Finish => s.process.Running? && s.process.step == |PlanOf(s.process.op, s.process.start)|
    case Kill(_) => s.process != Down
    case LoseIndex(img) =>
      s.process == Down && Scan(Tail(s.disk.log)).stop == EndOfFile && (img.None? || !Loads(img.value))
  }

  function ProcessAfter(op: Op, outcome: Outcome): Process
  {
    match op
    case OpOpen(_) => if outcome == Returned then Up else Down
    case OpClose => if outcome == Returned then Down else Up
    case _ => Up
  }

  function Next(s: State, a: Action): State
    requires Enabled(s, a)
  {
    match a
    case Begin(op) => s.(process := Running(op, s.disk, 0))
    case Write =>
      var Running(op, start, step) := s.process;
      State(Do(s.disk, PlanOf(op, start)[step]), Running(op, start, step + 1), s.history)
    case Finish =>
      var Running(op, start, _) := s.process;
      var outcome := OutcomeOf(op, start);
      State(s.disk, ProcessAfter(op, outcome), s.history + [Completed(op, outcome)])
    case Kill(bytes) =>
      (match s.process
       case Running(op, start, step) =>
         var plan := PlanOf(op, start);
         var d := if step < |plan| then KilledDuring(s.disk, plan[step], bytes) else s.disk;
         State(d, Down, s.history + [Killed(op)])
       case _ => s.(process := Down))
    case LoseIndex(img) => s.(disk := s.disk.(index := img))
  }

  /** What becomes of an empty index when a log is created beside it. */
  function Prepared(img: Bytes): Bytes
  {
    ApplyPatch(ApplyPatch(img, CheckpointPatch(DB_HEADER_SIZE)), CleanPatch(false))
  }

  /** A database with `n` buckets right after its creation, in the process that created it. */
  function Created(n: nat): State
  {
    State(DiskState(DbHeader(), Some(Prepared(EmptyImage(n))), None), Up, [])
  }

  /** Where a run may start: at any open database between operations. */
  predicate Begun(s: State)
  {
    s.process == Up && s.history == [] && Opened(s.disk)
  }

  predicate ValidRun(s: State, actions: seq<Action>)
    decreases |actions|
  {
    actions == [] || (Enabled(s, actions[0]) && ValidRun(Next(s, actions[0]), actions[1..]))
  }

  function Run(s: State, actions: seq<Action>): State
    requires ValidRun(s, actions)
    decreases |actions|
  {
    if actions == [] then s else Run(Next(s, actions[0]), actions[1..])
  }

  // ---- one operation ----

  /** The files of an open database between operations. */
  predicate Opened(d: DiskState)
  {
    InUse(d, RecordsOf(d.log))
  }

  /** What every operation is proved to do, on the files `d` it may start from. */
  ghost predicate OpCorrect(op: Op, d: DiskState)
  {
    var m, plan := LogContents(d.log), PlanOf(op, d);
    var d' := DoAll(d, plan);
    && CrashSafe(d, plan, m, Effect(op, m))
    && OutcomeOf(op, d) == Expected(op, m)
    && Safe(d') && LogContents(d'.log) == Effect(op, m)
    && (ProcessAfter(op, OutcomeOf(op, d)) == Up ==> Opened(d'))
  }

  lemma InUseOpen(d: DiskState, rs: seq<Record>)
    requires InUse(d, rs)
    ensures Opened(d) && Safe(d) && HeaderIntact(d) && BucketCount(IndexOf(d)) > 0
    ensures LogContents(d.log) == Replay(rs) && RecordsOf(d.log) == rs
  {
    hide InUse, Safe, HeaderIntact, LogContents, RecordsOf, Replay, BucketCount, Serving;
    InUseParts(d, rs);
  }

  lemma NoWrites(d: DiskState, m: Store)
    requires Safe(d) && LogContents(d.log) == m
    ensures CrashSafe(d, [], m, m) && DoAll(d, []) == d
  {
    hide Safe, LogContents, CrashSafe;
    CrashSafeNothing(d, m, m);
  }

  lemma OpenCorrect(d: DiskState, n: nat)
    requires Safe(d) && OpenFits(d, n)
    ensures OpCorrect(OpOpen(n), d)
  {
    hide Safe, LogContents, CrashSafe, DoAll, RecordsOf, InUse, Replay;
    if n == 0 {
      NoWrites(d, LogContents(d.log));
    } else {
      OpenSafe(d, n);
      InUseOpen(DoAll(d, OpenPlan(d, n).plan), RecordsOf(d.log));
    }
  }

  lemma CloseCorrect(d: DiskState)
    requires Opened(d)
    ensures OpCorrect(OpClose, d)
  {
    hide Safe, LogContents, CrashSafe, DoAll, RecordsOf, Replay, CleanPatch, CaughtUp, Clean, Checkpoint;
    var rs := RecordsOf(d.log);
    InUseOpen(d, rs);
    TrustedCheckpoint(d, rs);
    FlagSafe(d, rs, true);
    var w := WriteIndex(Installed, CleanPatch(true));
    CaughtUpSafe(Do(d, w), rs);
    DoAllOne(d, w);
  }

  /** Indexed keys are the keys of the contents. */
  lemma IndexedKeys(d: DiskState, key: Key)
    requires Opened(d)
    ensures key in IndexImage.Contents(IndexOf(d)) <==> key in LogContents(d.log)
  {
    hide Clean, WellFormed, LogOf, Scan, AllSerializable, BucketCount, Replay, ReplayOffsets, Live;
    OffsetsLive(RecordsOf(d.log), DB_HEADER_SIZE);
  }

  lemma ReplayOne(rs: seq<Record>, r: Record)
    ensures Replay(rs + [r]) == Apply(Replay(rs), r)
  {
    hide ReplayOffsets, EncodeAll;
    ReplaySnoc(rs, r, 0);
  }

  lemma PutCorrect(d: DiskState, key: Key, value: Log.Value)
    requires Opened(d) && Room(OpPut(key, value), d)
    ensures OpCorrect(OpPut(key, value), d)
  {
    hide Safe, LogContents, CrashSafe, DoAll, RecordsOf, Replay, InUse, Encode, SetPlan, BucketCount;
    var rs, r := RecordsOf(d.log), Record(Put, key, value);
    InUseOpen(d, rs);
    if CanStore(key, value) {
      LoggedSafe(d, rs, r);
      LoggedDone(d, rs, r);
      ReplayOne(rs, r);
      assert PutPlan(d, key, value) == LoggedPlan(d, r);
      InUseOpen(DoAll(d, LoggedPlan(d, r)), rs + [r]);
    } else {
      NoWrites(d, Replay(rs));
    }
  }

  lemma EraseCorrect(d: DiskState, key: Key)
    requires Opened(d) && Room(OpErase(key), d)
    ensures OpCorrect(OpErase(key), d)
  {
    hide Safe, LogContents, CrashSafe, DoAll, RecordsOf, Replay, InUse, Encode, ErasePlan, BucketCount,
      IndexImage.Contents;
    var rs, r := RecordsOf(d.log), Record(Delete, key, []);
    InUseOpen(d, rs);
    IndexedKeys(d, key);
    if key in LogContents(d.log) {
      IndexedKeyFits(d, key);
      LoggedSafe(d, rs, r);
      LoggedDone(d, rs, r);
      ReplayOne(rs, r);
      assert DeletePlan(d, key) == LoggedPlan(d, r);
      InUseOpen(DoAll(d, LoggedPlan(d, r)), rs + [r]);
    } else {
      assert Replay(rs) - {key} == Replay(rs);
      NoWrites(d, Replay(rs));
    }
  }

  /** A key that is stored was within the limit when it was put. */
  lemma IndexedKeyFits(d: DiskState, key: Key)
    requires Opened(d) && key in LogContents(d.log)
    ensures |key| <= MAX_KEY_SIZE
  {
    hide Clean, WellFormed, LogOf, Scan, BucketCount, Replay, ReplayOffsets, Checkpoint;
    var rs := RecordsOf(d.log);
    OffsetsLive(rs, DB_HEADER_SIZE);
    assert Live(rs, DB_HEADER_SIZE, key);
    var i: nat :| LastNaming(rs, i, key, Replay(rs)[key]);
    assert rs[i] in rs;
  }

  /** The maps disagree about `key`. */
  predicate Differs(a: map<Key, nat>, b: map<Key, nat>, key: Key)
  {
    (key in a) != (key in b) || (key in a && a[key] != b[key])
  }

  /**
   * Reading a key whose offset in the index is the one its log gives it: the record there is the last one
   * naming the key and a Put, so `get` returns exactly the stored value and none of its checks can fail.
   */
  lemma ReadThrough(d: DiskState, rs: seq<Record>, key: Key)
    requires Serving(d, rs) && !Differs(IndexImage.Contents(IndexOf(d)), ReplayOffsets(rs, DB_HEADER_SIZE), key)
    ensures GetResult(d, key) == Value(if key in LogContents(d.log) then Some(LogContents(d.log)[key]) else None)
  {
    hide Serving, LogOf, Scan, Replay, ReplayOffsets, Parse, AllSerializable, Live, Encode, IndexImage.Contents,
      StartOf, LogContents, LogLoads, HeaderIntact, BucketCount, WellFormed;
    ServingParts(d, rs);
    OffsetsLive(rs, DB_HEADER_SIZE);
    if key in LogContents(d.log) {
      var i := LiveRecord(rs, key);
      ReadLogAt(rs, i);
    }
  }

  /**
   * `get` on any files whatever: a value is returned exactly if the key is indexed and the log, at the
   * indexed offset, begins with the record that puts that value; a key that is not indexed has none; and
   * everything else throws.
   */
  lemma GetExact(d: DiskState, key: Key, value: Log.Value)
    ensures var m, r := IndexImage.Contents(IndexOf(d)), Record(Put, key, value);
            && (GetResult(d, key) == Value(None) <==> key !in m)
            && (GetResult(d, key) == Value(Some(value)) <==>
                  key in m && m[key] <= |d.log| && Serializable(r) && Encode(r) <= d.log[m[key]..])
            && (GetResult(d, key) == Threw || GetResult(d, key).Value?)
  {
    hide IndexImage.Contents, Parse, Encode, Serializable;
    var m := IndexImage.Contents(IndexOf(d));
    if key in m && m[key] <= |d.log| {
      var s := d.log[m[key]..];
      ParseExact(s, Record(Put, key, value));
      ParseSizes(s);
    }
  }

  lemma ParseSizes(s: Bytes)
    ensures Parse(s).status.Success? ==> Parse(s).size == |Encode(Parse(s).record)|
  {
    hide Parse, Encode;
    if Parse(s).status.Success? {
      ParseSound(s);
    }
  }

  /** On an open database every read is right. */
  lemma GetCorrect(d: DiskState, key: Key)
    requires Opened(d)
    ensures GetResult(d, key)
         == Value(if key in LogContents(d.log) then Some(LogContents(d.log)[key]) else None)
  {
    hide Serving, RecordsOf, ReplayOffsets, IndexImage.Contents, GetResult, LogContents, Checkpoint, Clean;
    ReadThrough(d, RecordsOf(d.log), key);
  }

  /** The record that gave a live key its value. */
  lemma LiveRecord(rs: seq<Record>, key: Key) returns (i: nat)
    requires key in Replay(rs) && Live(rs, DB_HEADER_SIZE, key)
    ensures LastNaming(rs, i, key, Replay(rs)[key]) && key in ReplayOffsets(rs, DB_HEADER_SIZE)
    ensures ReplayOffsets(rs, DB_HEADER_SIZE)[key] == DB_HEADER_SIZE + StartOf(rs, i)
  {
    hide Replay, ReplayOffsets, StartOf;
    i :| LastNaming(rs, i, key, Replay(rs)[key])
         && ReplayOffsets(rs, DB_HEADER_SIZE)[key] == DB_HEADER_SIZE + StartOf(rs, i);
  }

  /** Reading the log at the start of one of its records. */
  lemma ReadLogAt(rs: seq<Record>, i: nat)
    requires AllSerializable(rs) && i < |rs|
    ensures DB_HEADER_SIZE + StartOf(rs, i) <= |LogOf(rs)|
    ensures Parse(LogOf(rs)[DB_HEADER_SIZE + StartOf(rs, i)..])
         == ReadResult(RecordReadStatus.Success, rs[i], |Encode(rs[i])|)
  {
    hide Parse, Encode, EncodeAll, DbHeader, AllSerializable;
    ReadAtStart(rs, i, []);
    assert EncodeAll(rs) + [] == EncodeAll(rs);
    assert LogOf(rs)[DB_HEADER_SIZE + StartOf(rs, i)..] == EncodeAll(rs)[StartOf(rs, i)..];
  }

  lemma RebuildCorrect(d: DiskState)
    requires Opened(d)
    ensures OpCorrect(OpRebuild, d) && OpCorrect(OpRecover, d)
  {
    hide Safe, LogContents, CrashSafe, DoAll, Replay, BucketCount, Scan, DbHeader, EncodeAll, RebuildPlan;
    var rs, n := RecordsOf(d.log), BucketCount(IndexOf(d));
    InUseOpen(d, rs);
    FitsOf(d, rs);
    RebuildSafe(d, rs, n);
    RebuildDone(d, rs, n);
    InUseOpen(DoAll(d, RebuildPlan(d.log, n)), rs);
    LogFacts(rs);
  }

  lemma FitsOf(d: DiskState, rs: seq<Record>)
    requires InUse(d, rs)
    ensures AllSerializable(rs) && d.log == LogOf(rs) && |d.log| <= FILE_LIMIT && !Clean(IndexOf(d))
    ensures TableEnd(BucketCount(IndexOf(d))) <= FILE_LIMIT
  {
    hide WellFormed, BucketCount, Clean, LogOf, AllSerializable, ReplayOffsets, Checkpoint;
  }

  lemma EveryOpCorrect(op: Op, d: DiskState)
    requires Safe(d) && Room(op, d) && (!op.OpOpen? ==> Opened(d))
    ensures OpCorrect(op, d)
  {
    hide OpCorrect, Safe, Opened, OpenFits, Encode;
    match op {
      case OpOpen(n) => OpenCorrect(d, n);
      case OpClose => CloseCorrect(d);
      case OpPut(key, value) => PutCorrect(d, key, value);
      case OpErase(key) => EraseCorrect(d, key);
      case OpGet(key) => GetOpCorrect(d, key);
      case OpRebuild => RebuildCorrect(d);
      case OpRecover => RebuildCorrect(d);
    }
  }

  lemma GetOpCorrect(d: DiskState, key: Key)
    requires Opened(d)
    ensures OpCorrect(OpGet(key), d)
  {
    hide Safe, LogContents, CrashSafe, DoAll, InUse, RecordsOf, GetResult;
    InUseOpen(d, RecordsOf(d.log));
    GetCorrect(d, key);
    NoWrites(d, LogContents(d.log));
  }

  // ---- every run ----

  /** What holds after every action of every run from the contents `base`. */
  ghost predicate Invariant(base: Store, s: State)
  {
    && Safe(s.disk)
    && (match s.process
        case Down => Explains(base, s.history, LogContents(s.disk.log))
        case Up => Opened(s.disk) && Explains(base, s.history, LogContents(s.disk.log))
        case Running(op, start, step) =>
          && OpCorrect(op, start)
          && step <= |PlanOf(op, start)| && s.disk == At(start, PlanOf(op, start), step)
          && Explains(base, s.history, LogContents(start.log)))
  }

  /** The index header is intact, and was when the running operation began. */
  predicate Intact(s: State)
  {
    HeaderIntact(s.disk) && (s.process.Running? ==> HeaderIntact(s.process.start))
  }

  lemma ExplainsCompleted(base: Store, h: seq<Event>, op: Op, m: Store)
    requires Explains(base, h, m)
    ensures Explains(base, h + [Completed(op, Expected(op, m))], Effect(op, m))
  {
    hide Expected, Effect;
    var all := h + [Completed(op, Expected(op, m))];
    assert all[..|all| - 1] == h;
  }

  lemma ExplainsKilled(base: Store, h: seq<Event>, op: Op, m: Store, m': Store)
    requires Explains(base, h, m) && (m' == m || m' == Effect(op, m))
    ensures Explains(base, h + [Killed(op)], m')
  {
    hide Expected, Effect;
    var all := h + [Killed(op)];
    assert all[..|all| - 1] == h;
  }

  lemma BegunInvariant(s: State)
    requires Begun(s)
    ensures Invariant(LogContents(s.disk.log), s) && Intact(s)
  {
    hide Safe, LogContents, RecordsOf, InUse, HeaderIntact;
    InUseOpen(s.disk, RecordsOf(s.disk.log));
  }

  /** A new log beside an empty index makes an open, empty database. */
  lemma PreparedOpen(img: Bytes)
    requires WellFormed(img) && IndexImage.Contents(img) == map[] && |img| <= FILE_LIMIT
    ensures var d := DiskState(DbHeader(), Some(Prepared(img)), None);
            InUse(d, []) && Opened(d) && LogContents(d.log) == map[]
  {
    hide Safe, LogContents, RecordsOf, WellFormed, Clean, Checkpoint, BucketCount, IndexImage.Contents,
      ApplyPatch, DbHeader, CheckpointPatch, CleanPatch, InUse, LogOf, HeaderIntact;
    var d := DiskState(DbHeader(), Some(Prepared(img)), None);
    CheckpointStep(img, DB_HEADER_SIZE);
    CleanStep(ApplyPatch(img, CheckpointPatch(DB_HEADER_SIZE)), false);
    WellFormedParts(img, []);
    EmptyLog();
    NewlyIndexed(d, [], BucketCount(img));
    InUseOpen(d, []);
  }

  /** A database that was just created is one of the places where a run may start, and it is empty. */
  lemma CreatedInvariant(n: nat)
    requires 0 < n && TableEnd(n) <= FILE_LIMIT
    ensures Begun(Created(n)) && Invariant(map[], Created(n)) && Intact(Created(n))
    ensures LogContents(Created(n).disk.log) == map[]
  {
    hide Opened, LogContents, EmptyImage, Prepared, DbHeader, InUse, Invariant, HeaderIntact, WellFormed,
      IndexImage.Contents;
    EmptyImageMeans(n);
    PreparedOpen(EmptyImage(n));
    BegunInvariant(Created(n));
  }

  lemma EmptyLog()
    ensures LogOf([]) == DbHeader() && Replay([]) == map[] && ReplayOffsets([], DB_HEADER_SIZE) == map[]
  {
    hide DbHeader;
    assert DbHeader() + [] == DbHeader();
  }

  /** Every action keeps the invariant, and all but the loss of the index keep its header. */
  lemma InvariantStep(base: Store, s: State, a: Action)
    requires Invariant(base, s) && Enabled(s, a)
    ensures Invariant(base, Next(s, a))
    ensures Intact(s) && !a.LoseIndex? ==> Intact(Next(s, a))
  {
    hide Safe, LogContents, Explains, Expected, Effect, OpCorrect, PlanOf, OutcomeOf, At, Opened, Do,
      KilledDuring, Room, HeaderIntact;
    match a {
      case Begin(op) =>
        EveryOpCorrect(op, s.disk);
        AtStart(s.disk, PlanOf(op, s.disk));
      case Write =>
        var Running(op, start, step) := s.process;
        AtNext(start, PlanOf(op, start), step);
        AtHolds(op, start, step + 1);
      case Finish =>
        var Running(op, start, step) := s.process;
        FinishedState(op, start);
        ExplainsCompleted(base, s.history, op, LogContents(start.log));
      case Kill(bytes) =>
        if s.process.Running? {
          var Running(op, start, step) := s.process;
          KilledState(op, start, step, bytes);
          ExplainsKilled(base, s.history, op, LogContents(start.log), LogContents(Next(s, a).disk.log));
        }
      case LoseIndex(img) =>
        LostIndexSafe(s.disk, img);
    }
  }

  lemma AtStart(d: DiskState, ws: seq<DiskWrite>)
    ensures At(d, ws, 0) == d
  {
    assert ws[..0] == [];
  }

  lemma LostIndexSafe(d: DiskState, img: Option<Bytes>)
    requires Safe(d) && Scan(Tail(d.log)).stop == EndOfFile && (img.None? || !Loads(img.value))
    ensures Safe(d.(index := img))
  {
    hide Scan, Loads, CaughtUp, BucketCount, LogLoads, Clean;
  }

  lemma AtHolds(op: Op, d: DiskState, i: nat)
    requires OpCorrect(op, d) && i <= |PlanOf(op, d)|
    ensures Holds(d, At(d, PlanOf(op, d), i), LogContents(d.log), Effect(op, LogContents(d.log)))
  {
    hide Holds, LogContents, PlanOf, OutcomeOf, At, Effect, Expected;
  }

  lemma FinishedState(op: Op, d: DiskState)
    requires OpCorrect(op, d)
    ensures var m, d' := LogContents(d.log), At(d, PlanOf(op, d), |PlanOf(op, d)|);
            && Safe(d') && LogContents(d'.log) == Effect(op, m) && OutcomeOf(op, d) == Expected(op, m)
            && (ProcessAfter(op, OutcomeOf(op, d)) == Up ==> Opened(d'))
  {
    hide Safe, LogContents, PlanOf, OutcomeOf, At, Effect, Expected, CrashSafe, Opened, DoAll;
    AtAll(d, PlanOf(op, d));
  }

  lemma KilledState(op: Op, d: DiskState, i: nat, c: nat)
    requires OpCorrect(op, d) && i <= |PlanOf(op, d)|
    ensures Holds(d, KilledIn(d, PlanOf(op, d), i, c), LogContents(d.log), Effect(op, LogContents(d.log)))
  {
    hide Holds, LogContents, PlanOf, OutcomeOf, Effect, Expected, KilledIn, CrashSafe, Opened, DoAll, Safe;
    KilledHolds(d, PlanOf(op, d), LogContents(d.log), Effect(op, LogContents(d.log)), i, c);
  }

  lemma {:induction false} InvariantRun(base: Store, s: State, actions: seq<Action>)
    requires Invariant(base, s) && ValidRun(s, actions)
    ensures Invariant(base, Run(s, actions))
    ensures Intact(s) && (forall a | a in actions :: !a.LoseIndex?) ==> Intact(Run(s, actions))
    decreases |actions|
  {
    hide Invariant, Intact, Enabled, Next;
    if actions != [] {
      InvariantStep(base, s, actions[0]);
      InvariantRun(base, Next(s, actions[0]), actions[1..]);
      assert forall a | a in actions[1..] :: a in actions;
    }
  }

  /**
   * Crash atomicity. After any run from an open database, with kills at any byte of any write, recovery
   * included, and with the index lost in between, what the log holds accounts for the whole history:
   * every completed operation is kept and returned what it should, every killed one happened entirely or
   * not at all. While one is running, the contents are those before or after it.
   */
  lemma CrashAtomicity(s0: State, actions: seq<Action>)
    requires Begun(s0) && ValidRun(s0, actions)
    ensures var s := Run(s0, actions);
            Explains(LogContents(s0.disk.log),
                     if s.process.Running? then s.history + [Killed(s.process.op)] else s.history,
                     LogContents(s.disk.log))
  {
    hide Safe, LogContents, Explains, OpCorrect, PlanOf, At, Opened, Run, ValidRun, Effect, Begun, Intact;
    var base, s := LogContents(s0.disk.log), Run(s0, actions);
    BegunInvariant(s0);
    InvariantRun(base, s0, actions);
    if s.process.Running? {
      var Running(op, start, step) := s.process;
      AtHolds(op, start, step);
      ExplainsKilled(base, s.history, op, LogContents(start.log), LogContents(s.disk.log));
    }
  }

  /** At every instant of every run the next open would succeed and keep exactly what the log holds. */
  lemma NextOpenSucceeds(s0: State, actions: seq<Action>, buckets: nat)
    requires Begun(s0) && ValidRun(s0, actions) && buckets > 0
    requires (forall a | a in actions :: !a.LoseIndex?) || TableEnd(buckets) <= FILE_LIMIT
    ensures var d := Run(s0, actions).disk;
            && OpenPlan(d, buckets).Opens?
            && var d' := DoAll(d, OpenPlan(d, buckets).plan);
               Opened(d') && LogContents(d'.log) == LogContents(d.log)
  {
    hide Safe, LogContents, Explains, OpCorrect, PlanOf, Opened, Run, ValidRun, DoAll, RecordsOf,
      InUse, Replay, Begun, HeaderIntact;
    var d := Run(s0, actions).disk;
    BegunInvariant(s0);
    InvariantRun(LogContents(s0.disk.log), s0, actions);
    OpenSafe(d, buckets);
    InUseOpen(DoAll(d, OpenPlan(d, buckets).plan), RecordsOf(d.log));
  }

  /**
   * The clean flag never lies. In every state of every run, mid-operation ones included, an index that
   * loads and is marked clean has the size of the log as its checkpoint and is the replay of all of it.
   * The index does load in every state, unless it was lost from outside.
   */
  lemma CleanFlagSound(s0: State, actions: seq<Action>)
    requires Begun(s0) && ValidRun(s0, actions)
    ensures var d := Run(s0, actions).disk;
            && ((forall a | a in actions :: !a.LoseIndex?) ==> HeaderIntact(d))
            && (HeaderIntact(d) && Clean(IndexOf(d)) ==>
                  && Checkpoint(IndexOf(d)) == |d.log| && WellFormed(IndexOf(d))
                  && d.log == LogOf(RecordsOf(d.log))
                  && IndexImage.Contents(IndexOf(d)) == ReplayOffsets(RecordsOf(d.log), DB_HEADER_SIZE))
  {
    hide LogContents, Explains, OpCorrect, PlanOf, Opened, Run, ValidRun, HeaderIntact, Clean, WellFormed,
      LogOf, ReplayOffsets, Checkpoint, BucketCount, IndexImage.Contents, AllSerializable, Scan, Begun;
    BegunInvariant(s0);
    InvariantRun(LogContents(s0.disk.log), s0, actions);
  }
}
