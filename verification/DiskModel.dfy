/**
 * The files of one database: the log, the index beside it, and the staging file an index is rebuilt
 * in. Every change is one file write, and a ghost journal remembers them in order.
 */
module DiskModel {
  import opened Codec
  import opened IndexUpdates
  import opened IndexPlans

  datatype Option<+T> = None | Some(value: T)

  /** Which index file: the one at the database's index path, or the staging one. */
  datatype Slot = Installed | Staged

  datatype DiskState = DiskState(log: Bytes, index: Option<Bytes>, staging: Option<Bytes>)

  datatype DiskWrite =
    | AppendLog(data: Bytes)
    | ResizeLog(size: nat)
    | CreateIndex(slot: Slot)
    | WriteIndex(slot: Slot, patch: Patch)
    | InstallStaged
    | RemoveStaged

  function Image(d: DiskState, slot: Slot): Option<Bytes>
  {
    match slot
    case Installed => d.index
    case Staged => d.staging
  }

  function WithImage(d: DiskState, slot: Slot, img: Option<Bytes>): DiskState
  {
    match slot
    case Installed => d.(index := img)
    case Staged => d.(staging := img)
  }

  /** The disk after one write. */
  function Do(d: DiskState, w: DiskWrite): DiskState
  {
    match w
    case AppendLog(data) => d.(log := d.log + data)
    case ResizeLog(size) => if size <= |d.log| then d.(log := d.log[..size]) else d
    case CreateIndex(slot) => WithImage(d, slot, Some([]))
    case WriteIndex(slot, patch) =>
      (match Image(d, slot)
       case None => d
       case Some(img) => WithImage(d, slot, Some(ApplyPatch(img, patch))))
    case InstallStaged => if d.staging.Some? then d.(index := d.staging, staging := None) else d
    case RemoveStaged => d.(staging := None)
  }

  function DoAll(d: DiskState, ws: seq<DiskWrite>): DiskState
    decreases |ws|
  {
    if ws == [] then d else DoAll(Do(d, ws[0]), ws[1..])
  }

  lemma {:induction false} DoAllConcat(d: DiskState, ws: seq<DiskWrite>, vs: seq<DiskWrite>)
    ensures DoAll(d, ws + vs) == DoAll(DoAll(d, ws), vs)
    decreases |ws|
  {
    hide Do;
    if ws == [] {
      assert ws + vs == vs;
    } else {
      assert (ws + vs)[0] == ws[0] && (ws + vs)[1..] == ws[1..] + vs;
      DoAllConcat(Do(d, ws[0]), ws[1..], vs);
    }
  }

  lemma DoAllOne(d: DiskState, w: DiskWrite)
    ensures DoAll(d, [w]) == Do(d, w)
  {
    hide Do;
    assert DoAll(Do(d, w), []) == Do(d, w);
  }

  /** A plan of writes to one index file. */
  function Lift(slot: Slot, plan: seq<Patch>): (ws: seq<DiskWrite>)
    ensures |ws| == |plan|
  {
    seq(|plan|, i requires 0 <= i < |plan| => WriteIndex(slot, plan[i]))
  }

  lemma LiftConcat(slot: Slot, ps: seq<Patch>, qs: seq<Patch>)
    ensures Lift(slot, ps + qs) == Lift(slot, ps) + Lift(slot, qs)
  {
  }

  lemma {:induction false} DoLifted(d: DiskState, slot: Slot, plan: seq<Patch>)
    requires Image(d, slot).Some?
    ensures DoAll(d, Lift(slot, plan)) == WithImage(d, slot, Some(ApplyPatches(Image(d, slot).value, plan)))
    decreases |plan|
  {
    hide ApplyPatch;
    if plan != [] {
      var d' := Do(d, WriteIndex(slot, plan[0]));
      assert Lift(slot, plan)[0] == WriteIndex(slot, plan[0]);
      assert Lift(slot, plan)[1..] == Lift(slot, plan[1..]);
      DoLifted(d', slot, plan[1..]);
    }
  }

  /** The files as the program writes them. */
  class Disk {
    var log: Bytes
    var index: Option<Bytes>
    var staging: Option<Bytes>
    ghost var journal: seq<DiskWrite>

    constructor (d: DiskState)
      ensures State() == d && journal == []
    {
      log, index, staging := d.log, d.index, d.staging;
      journal := [];
    }

    ghost function State(): DiskState
      reads this
    {
      DiskState(log, index, staging)
    }

    function File(slot: Slot): Option<Bytes>
      reads this
    {
      match slot
      case Installed => index
      case Staged => staging
    }

    /** Since the state `d` and the journal `j`, exactly the writes `ws` were made, in that order. */
    ghost predicate Wrote(d: DiskState, j: seq<DiskWrite>, ws: seq<DiskWrite>)
      reads this
    {
      journal == j + ws && State() == DoAll(d, ws)
    }

    method AppendToLog(data: Bytes)
      modifies this
      ensures Wrote(old(State()), old(journal), [AppendLog(data)])
    {
      ghost var d := State();
      log := log + data;
      journal := journal + [AppendLog(data)];
      DoAllOne(d, AppendLog(data));
    }

    method TruncateLog(size: nat)
      requires size <= |log|
      modifies this
      ensures Wrote(old(State()), old(journal), [ResizeLog(size)])
    {
      ghost var d := State();
      log := log[..size];
      journal := journal + [ResizeLog(size)];
      DoAllOne(d, ResizeLog(size));
    }

    method CreateIndexFile(slot: Slot)
      modifies this
      ensures Wrote(old(State()), old(journal), [CreateIndex(slot)])
    {
      ghost var d := State();
      match slot {
        case Installed => index := Some([]);
        case Staged => staging := Some([]);
      }
      journal := journal + [CreateIndex(slot)];
      DoAllOne(d, CreateIndex(slot));
    }

    method WriteIndexFile(slot: Slot, at: nat, data: Bytes)
      requires File(slot).Some? && at <= |File(slot).value|
      modifies this
      ensures Wrote(old(State()), old(journal), [WriteIndex(slot, Patch(at, data))])
    {
      ghost var d := State();
      var img := Write(File(slot).value, at, data);
      match slot {
        case Installed => index := Some(img);
        case Staged => staging := Some(img);
      }
      journal := journal + [WriteIndex(slot, Patch(at, data))];
      DoAllOne(d, WriteIndex(slot, Patch(at, data)));
    }

    method InstallStagedIndex()
      requires staging.Some?
      modifies this
      ensures Wrote(old(State()), old(journal), [InstallStaged])
    {
      ghost var d := State();
      index, staging := staging, None;
      journal := journal + [InstallStaged];
      DoAllOne(d, InstallStaged);
    }

    method RemoveStagedIndex()
      modifies this
      ensures Wrote(old(State()), old(journal), [RemoveStaged])
    {
      ghost var d := State();
      staging := None;
      journal := journal + [RemoveStaged];
      DoAllOne(d, RemoveStaged);
    }
  }

  /** Writing `ws` and then `vs` is writing `ws + vs`. */
  lemma WroteMore(disk: Disk, d0: DiskState, j0: seq<DiskWrite>, ws: seq<DiskWrite>,
                  d1: DiskState, j1: seq<DiskWrite>, vs: seq<DiskWrite>)
    requires j1 == j0 + ws && d1 == DoAll(d0, ws) && disk.Wrote(d1, j1, vs)
    ensures disk.Wrote(d0, j0, ws + vs)
  {
    hide Do;
    DoAllConcat(d0, ws, vs);
    Associative(j0, ws, vs);
  }
}
