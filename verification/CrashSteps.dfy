/**
 * What a kill leaves behind. A kill may come between any two writes of an operation, or inside one of
 * them and leave any prefix of its bytes; renaming and resizing a file happen at once or not at all.
 */
module CrashSteps {
  import opened Codec
  import opened Records
  import opened Log
  import opened IndexImage
  import opened IndexUpdates
  import opened IndexPlans
  import opened IndexSetup
  import opened IndexMetadata
  import opened DiskModel
  import opened Protocol

  /** The first `c` bytes of `data`, or all of it. */
  function Cut(data: Bytes, c: nat): Bytes
  {
    if c <= |data| then data[..c] else data
  }

  /** The files when the process is killed during the write `w`, which got as far as `c` bytes. */
  function KilledDuring(d: DiskState, w: DiskWrite, c: nat): DiskState
  {
    match w
    case AppendLog(data) => Do(d, AppendLog(Cut(data, c)))
    case WriteIndex(slot, patch) => Do(d, WriteIndex(slot, Patch(patch.at, Cut(patch.data, c))))
    case _ => d
  }

  /** A kill may leave any prefix of what was being written, and nothing else of it. */
  lemma KillLeavesPrefix(d: DiskState, data: Bytes, at: nat, c: nat)
    requires c <= |data| && d.index.Some? && at <= |d.index.value|
    ensures KilledDuring(d, AppendLog(data), c) == d.(log := d.log + data[..c])
    ensures KilledDuring(d, WriteIndex(Installed, Patch(at, data)), c)
         == d.(index := Some(Write(d.index.value, at, data[..c])))
    ensures KilledDuring(d, InstallStaged, c) == d
  {
    hide Write;
  }

  /** The files after the first `i` writes. */
  function At(d: DiskState, ws: seq<DiskWrite>, i: nat): DiskState
    requires i <= |ws|
  {
    DoAll(d, ws[..i])
  }

  /**
   * At this instant a kill is harmless: the files are safe, an index header that was intact in the state
   * `start` still is, and the log holds one of the two contents.
   */
  predicate Holds(start: DiskState, d: DiskState, before: Store, after: Store)
  {
    && Safe(d) && (HeaderIntact(start) ==> HeaderIntact(d))
    && (LogContents(d.log) == before || LogContents(d.log) == after)
  }

  /** A kill anywhere in the writes `ws` is harmless. */
  ghost predicate CrashSafe(d: DiskState, ws: seq<DiskWrite>, before: Store, after: Store)
  {
    && (forall i | 0 <= i <= |ws| :: Holds(d, At(d, ws, i), before, after))
    && (forall i, c: nat | 0 <= i < |ws| :: Holds(d, KilledDuring(At(d, ws, i), ws[i], c), before, after))
  }

  lemma AtPrefix(d: DiskState, ws: seq<DiskWrite>, vs: seq<DiskWrite>, i: nat)
    requires i <= |ws|
    ensures At(d, ws + vs, i) == At(d, ws, i)
  {
    hide DoAll;
    assert (ws + vs)[..i] == ws[..i];
  }

  lemma AtSuffix(d: DiskState, ws: seq<DiskWrite>, vs: seq<DiskWrite>, i: nat)
    requires |ws| <= i <= |ws| + |vs|
    ensures At(d, ws + vs, i) == At(DoAll(d, ws), vs, i - |ws|)
  {
    hide DoAll;
    assert (ws + vs)[..i] == ws + vs[..i - |ws|];
    DoAllConcat(d, ws, vs[..i - |ws|]);
  }

  lemma AtAll(d: DiskState, ws: seq<DiskWrite>)
    ensures At(d, ws, |ws|) == DoAll(d, ws)
  {
    hide DoAll;
    assert ws[..|ws|] == ws;
  }

  /** A later starting point may be taken back to an earlier one. */
  lemma HoldsSince(start: DiskState, mid: DiskState, d: DiskState, before: Store, after: Store)
    requires Holds(start, mid, before, after) && Holds(mid, d, before, after)
    ensures Holds(start, d, before, after)
  {
    hide Safe, LogContents, HeaderIntact;
  }

  /** Two stretches of writes that are safe on their own are safe in sequence. */
  lemma CrashSafeConcat(d: DiskState, ws: seq<DiskWrite>, vs: seq<DiskWrite>, before: Store, after: Store)
    requires CrashSafe(d, ws, before, after) && CrashSafe(DoAll(d, ws), vs, before, after)
    ensures CrashSafe(d, ws + vs, before, after)
  {
    hide At, Holds, KilledDuring, DoAll;
    var all, mid := ws + vs, DoAll(d, ws);
    AtAll(d, ws);
    assert Holds(d, mid, before, after);
    forall i | 0 <= i <= |all|
      ensures Holds(d, At(d, all, i), before, after)
    {
      if i <= |ws| {
        AtPrefix(d, ws, vs, i);
      } else {
        AtSuffix(d, ws, vs, i);
        HoldsSince(d, mid, At(d, all, i), before, after);
      }
    }
    forall i, c: nat | 0 <= i < |all|
      ensures Holds(d, KilledDuring(At(d, all, i), all[i], c), before, after)
    {
      if i < |ws| {
        AtPrefix(d, ws, vs, i);
      } else {
        AtSuffix(d, ws, vs, i);
        assert all[i] == vs[i - |ws|];
        HoldsSince(d, mid, KilledDuring(At(d, all, i), all[i], c), before, after);
      }
    }
  }

  lemma CrashSafeNothing(d: DiskState, before: Store, after: Store)
    requires Holds(d, d, before, after)
    ensures CrashSafe(d, [], before, after)
  {
    hide Holds;
    assert At(d, [], 0) == d;
  }

  lemma CrashSafeOne(d: DiskState, w: DiskWrite, before: Store, after: Store)
    requires Holds(d, d, before, after) && Holds(d, Do(d, w), before, after)
    requires forall c: nat :: Holds(d, KilledDuring(d, w, c), before, after)
    ensures CrashSafe(d, [w], before, after)
  {
    hide Holds, Do, KilledDuring;
    DoAllOne(d, w);
    assert [w][..0] == [] && [w][..1] == [w];
    assert At(d, [w], 0) == d && At(d, [w], 1) == Do(d, w);
  }

  // ---- the index header survives ----

  /** Magic, version, bucket count and clean flag are the same, and nothing was cut off. */
  predicate SameIdentity(img: Bytes, img': Bytes)
  {
    && |img'| >= |img| >= INDEX_HEADER_SIZE
    && img'[..CHECKPOINT_AT] == img[..CHECKPOINT_AT] && img'[CLEAN_AT] == img[CLEAN_AT]
  }

  /** A write that touches neither the clean flag nor anything before the checkpoint. */
  predicate Harmless(p: Patch)
  {
    p.at >= INDEX_HEADER_SIZE || (p.at >= CHECKPOINT_AT && p.at + |p.data| <= CLEAN_AT)
  }

  lemma HarmlessKeeps(img: Bytes, p: Patch)
    requires |img| >= INDEX_HEADER_SIZE && Harmless(p)
    ensures SameIdentity(img, ApplyPatch(img, p))
  {
    hide Write;
    if p.at <= |img| {
      WriteKeeps(img, p.at, p.data, 0, CHECKPOINT_AT);
      WriteKeeps(img, p.at, p.data, CLEAN_AT, CLEAN_AT + 1);
      var img' := Write(img, p.at, p.data);
      assert img'[0..CHECKPOINT_AT] == img[0..CHECKPOINT_AT];
      assert img'[CLEAN_AT] == img'[CLEAN_AT..CLEAN_AT + 1][0] == img[CLEAN_AT..CLEAN_AT + 1][0];
    }
  }

  lemma IdentityKeeps(img: Bytes, img': Bytes)
    requires Loads(img) && SameIdentity(img, img')
    ensures Loads(img') && BucketCount(img') == BucketCount(img) && (Clean(img') <==> Clean(img))
  {
    hide HeaderPrefix, U64At;
    HeaderRead(img', BucketCount(img));
  }

  /** A dirty index with an intact header makes the files safe, whatever else is in it. */
  lemma DirtySafe(d: DiskState, img: Bytes)
    requires Loads(img) && !Clean(img) && d.index.Some? && SameIdentity(img, IndexOf(d))
    requires LogLoads(d.log) && Scan(Tail(d.log)).stop in {EndOfFile, RecordReadStatus.Truncated}
    requires |d.log| <= FILE_LIMIT && TableEnd(BucketCount(img)) <= FILE_LIMIT
    ensures Safe(d) && HeaderIntact(d) && !Clean(IndexOf(d)) && BucketCount(IndexOf(d)) == BucketCount(img)
  {
    hide Loads, Clean, BucketCount, SameIdentity, Scan, CaughtUp;
    IdentityKeeps(img, IndexOf(d));
  }

  lemma {:induction false} HarmlessPrefix(d: DiskState, ps: seq<Patch>, i: nat)
    requires d.index.Some? && |IndexOf(d)| >= INDEX_HEADER_SIZE && i <= |ps|
    requires forall p | p in ps :: Harmless(p)
    ensures var d' := At(d, Lift(Installed, ps), i);
            && d'.log == d.log && d'.index.Some? && SameIdentity(IndexOf(d), IndexOf(d'))
    decreases i
  {
    hide ApplyPatch, Harmless;
    var ws := Lift(Installed, ps);
    if i == 0 {
      assert ws[..0] == [];
    } else {
      HarmlessPrefix(d, ps, i - 1);
      var d1 := At(d, ws, i - 1);
      AtNext(d, ws, i - 1);
      assert ps[i - 1] in ps;
      HarmlessKeeps(IndexOf(d1), ps[i - 1]);
    }
  }

  lemma AtNext(d: DiskState, ws: seq<DiskWrite>, i: nat)
    requires i < |ws|
    ensures At(d, ws, i + 1) == Do(At(d, ws, i), ws[i])
  {
    hide Do, DoAll;
    assert ws[..i + 1] == ws[..i] + [ws[i]];
    DoAllConcat(d, ws[..i], [ws[i]]);
    DoAllOne(DoAll(d, ws[..i]), ws[i]);
  }

  /** Harmless writes to a dirty index are safe at every byte. */
  lemma HarmlessSafe(d: DiskState, ps: seq<Patch>, before: Store, after: Store)
    requires Holds(d, d, before, after) && HeaderIntact(d) && !Clean(IndexOf(d))
    requires forall p | p in ps :: Harmless(p)
    ensures CrashSafe(d, Lift(Installed, ps), before, after)
  {
    hide Loads, Clean, SameIdentity, Scan, CaughtUp, At, ApplyPatch, LogContents;
    var img, ws := IndexOf(d), Lift(Installed, ps);
    LoadedSize(img);
    forall i | 0 <= i <= |ws|
      ensures Holds(d, At(d, ws, i), before, after)
    {
      HarmlessPrefix(d, ps, i);
      DirtySafe(At(d, ws, i), img);
    }
    forall i, c: nat | 0 <= i < |ws|
      ensures Holds(d, KilledDuring(At(d, ws, i), ws[i], c), before, after)
    {
      HarmlessPrefix(d, ps, i);
      var d1, torn := At(d, ws, i), Patch(ps[i].at, Cut(ps[i].data, c));
      assert ps[i] in ps;
      HarmlessKeeps(IndexOf(d1), torn) by { LoadedSize(img); IdentitySize(img, IndexOf(d1)); }
      SameIdentityTransitive(img, IndexOf(d1), ApplyPatch(IndexOf(d1), torn));
      DirtySafe(KilledDuring(d1, ws[i], c), img);
    }
  }

  lemma LoadedSize(img: Bytes)
    requires Loads(img)
    ensures |img| >= INDEX_HEADER_SIZE
  {
  }

  lemma IdentitySize(img: Bytes, img': Bytes)
    requires SameIdentity(img, img')
    ensures |img'| >= INDEX_HEADER_SIZE
  {
  }

  lemma SameIdentityTransitive(a: Bytes, b: Bytes, c: Bytes)
    requires SameIdentity(a, b) && SameIdentity(b, c)
    ensures SameIdentity(a, c)
  {
  }

  // ---- appending to the log ----

  lemma LogFacts(rs: seq<Record>)
    requires AllSerializable(rs)
    ensures LogLoads(LogOf(rs)) && RecordsOf(LogOf(rs)) == rs
    ensures Scan(Tail(LogOf(rs))).stop == EndOfFile && LogContents(LogOf(rs)) == Replay(rs)
    ensures |LogOf(rs)| == DB_HEADER_SIZE + |EncodeAll(rs)|
  {
    hide Scan, DbHeader, EncodeAll, Serializable;
    TailOf(rs, []);
    assert LogOf(rs) + [] == LogOf(rs);
    assert EncodeAll(rs) + [] == EncodeAll(rs);
    ScanClean(rs);
  }

  lemma LogAppended(rs: seq<Record>, r: Record)
    ensures LogOf(rs) + Encode(r) == LogOf(rs + [r])
  {
    hide DbHeader, EncodeAll, Encode;
    EncodeAllSnoc(rs, r);
    Associative(DbHeader(), EncodeAll(rs), Encode(r));
  }

  /** The log when an append was cut after `c` bytes. */
  lemma LogTorn(rs: seq<Record>, r: Record, c: nat)
    requires AllSerializable(rs) && Serializable(r)
    ensures var log := LogOf(rs) + Cut(Encode(r), c);
            && LogLoads(log) && Scan(Tail(log)).stop in {EndOfFile, RecordReadStatus.Truncated}
            && LogContents(log) == (if c < |Encode(r)| then Replay(rs) else Replay(rs + [r]))
  {
    hide Scan, DbHeader, EncodeAll, Encode, Serializable, LogOf;
    if c < |Encode(r)| {
      TailOf(rs, Encode(r)[..c]);
      ScanTorn(rs, r, c);
    } else {
      assert Cut(Encode(r), c) == Encode(r);
      LogAppended(rs, r);
      assert forall q | q in rs + [r] :: q in rs || q == r;
      LogFacts(rs + [r]);
    }
  }

  /** Appending one record to the log of a database in use. */
  lemma AppendSafe(d: DiskState, rs: seq<Record>, r: Record)
    requires InUse(d, rs) && Serializable(r) && |d.log| + |Encode(r)| <= FILE_LIMIT
    ensures CrashSafe(d, [AppendLog(Encode(r))], Replay(rs), Replay(rs + [r]))
    ensures var d' := Do(d, AppendLog(Encode(r)));
            && d'.log == LogOf(rs + [r]) && d'.index == d.index && Safe(d') && HeaderIntact(d')
            && LogContents(d'.log) == Replay(rs + [r])
  {
    hide Scan, LogOf, Encode, Serializable, Clean, Loads, CaughtUp, LogContents, LogLoads;
    var img, before, after := IndexOf(d), Replay(rs), Replay(rs + [r]);
    InUseParts(d, rs);
    forall c: nat
      ensures var d' := Do(d, AppendLog(Cut(Encode(r), c)));
              Holds(d, d', before, after) && (c >= |Encode(r)| ==> LogContents(d'.log) == after)
    {
      LogTorn(rs, r, c);
      DirtySafe(Do(d, AppendLog(Cut(Encode(r), c))), img);
    }
    assert Cut(Encode(r), |Encode(r)|) == Encode(r);
    assert Cut(Encode(r), 0) == [];
    assert d.log + [] == d.log;
    assert Do(d, AppendLog([])) == d;
    forall c: nat
      ensures Holds(d, KilledDuring(d, AppendLog(Encode(r)), c), before, after)
    {
      assert KilledDuring(d, AppendLog(Encode(r)), c) == Do(d, AppendLog(Cut(Encode(r), c)));
    }
    CrashSafeOne(d, AppendLog(Encode(r)), before, after);
    LogAppended(rs, r);
  }

  lemma ServingParts(d: DiskState, rs: seq<Record>)
    requires Serving(d, rs)
    ensures AllSerializable(rs) && d.log == LogOf(rs) && FilesFit(d) && WellFormed(IndexOf(d))
    ensures HeaderIntact(d) && BucketCount(IndexOf(d)) > 0
    ensures |IndexOf(d)| <= FILE_LIMIT + 2 * |d.log| && |IndexOf(d)| + 20 + MAX_KEY_SIZE <= MAX_U64
    ensures LogLoads(d.log) && |d.log| >= DB_HEADER_SIZE && Scan(Tail(d.log)).stop == EndOfFile
    ensures LogContents(d.log) == Replay(rs) && RecordsOf(d.log) == rs
  {
    hide Scan, LogOf, Serializable, Clean, Headed, Geometry, HoldsHead, Linked, ChainsOf, EncodeAll, DbHeader;
    RepresentsMeans(IndexOf(d), ChainsOf(IndexOf(d)));
    HeaderRead(IndexOf(d), BucketCount(IndexOf(d)));
    LogFacts(rs);
  }

  lemma InUseParts(d: DiskState, rs: seq<Record>)
    requires InUse(d, rs)
    ensures Serving(d, rs) && !Clean(IndexOf(d)) && SameIdentity(IndexOf(d), IndexOf(d))
    ensures Safe(d) && HeaderIntact(d) && FilesFit(d) && AllSerializable(rs) && d.log == LogOf(rs)
    ensures BucketCount(IndexOf(d)) > 0 && LogContents(d.log) == Replay(rs) && RecordsOf(d.log) == rs
  {
    hide Scan, LogOf, AllSerializable, Clean, Loads, WellFormed, BucketCount, LogLoads, LogContents, Replay,
      ReplayOffsets, Checkpoint, IndexImage.Contents;
    ServingParts(d, rs);
    LoadedSize(IndexOf(d));
  }
}
