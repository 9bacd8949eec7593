/**
  The life cycle of I/O units and of the files they hold, after `io_u.c`, `ioengines.c` and `filesetup.c`.

  A job owns a fixed set of units. Each is on the free stack, in the requeue ring, or held by somebody (being
  prepared, queued in the engine, or completed but not yet put). A held or requeued unit may carry a file, and
  every carrier owns one reference to it; an open file owns one more until somebody asks for it to be closed.
 */
module IoUnits {
  import opened Bits
  import opened IoUQueue

  /** What the file pickers return: an error, a null pointer, or a file. */
  datatype NextFile = Busy | NoFile | Next(file: File)

  /** The units are shared out, each exactly once, among the free stack, the requeue ring and the holders. */
  ghost predicate Split(units: set<IoU>, free: seq<IoU>, requeued: seq<IoU>, held: set<IoU>) {
    multiset(free) + multiset(requeued) + multiset(held) == multiset(units)
  }

  lemma SplitCounts(units: set<IoU>, free: seq<IoU>, requeued: seq<IoU>, held: set<IoU>)
    requires Split(units, free, requeued, held)
    ensures |free| + |requeued| + |held| == |units|
  {
    assert |multiset(units)| == |multiset(free)| + |multiset(requeued)| + |multiset(held)|;
  }

  lemma SplitPlaces(units: set<IoU>, free: seq<IoU>, requeued: seq<IoU>, held: set<IoU>, u: IoU)
    requires Split(units, free, requeued, held)
    ensures u in free ==> u in units && u !in requeued && u !in held
    ensures u in requeued ==> u in units && u !in free && u !in held
    ensures u in held ==> u in units && u !in free && u !in requeued
    ensures u in units ==> u in free || u in requeued || u in held
  {
    assert multiset(units)[u] <= 1;
    assert multiset(units)[u] == multiset(free)[u] + multiset(requeued)[u] + multiset(held)[u];
    assert u in free <==> u in multiset(free);
    assert u in requeued <==> u in multiset(requeued);
  }

  lemma SplitTake(units: set<IoU>, free: seq<IoU>, requeued: seq<IoU>, held: set<IoU>, u: IoU)
    requires multiset(free) + multiset(requeued) + multiset(held) + multiset{u} == multiset(units)
    ensures Split(units, free, requeued, held + {u})
    ensures u in units && u !in held && |held + {u}| == |held| + 1
  {
    assert multiset(units)[u] <= 1;
    assert multiset(units)[u] == multiset(free)[u] + multiset(requeued)[u] + multiset(held)[u] + 1;
    assert multiset(held + {u}) == multiset(held) + multiset{u};
  }

  lemma SplitGive(units: set<IoU>, free: seq<IoU>, requeued: seq<IoU>, held: set<IoU>, u: IoU)
    requires Split(units, free, requeued, held) && u in held
    ensures Split(units, free + [u], requeued, held - {u})
    ensures Split(units, free, requeued + [u], held - {u})
    ensures u in units && u !in free && u !in requeued && |free| + |requeued| < |units|
  {
    SplitPlaces(units, free, requeued, held, u);
    SplitCounts(units, free, requeued, held);
    assert multiset(held) == multiset(held - {u}) + multiset{u};
  }

  class ThreadData {
    const iodepth: U32
    const latencyTarget: bool
    const openFilesLimit: nat
    const files: seq<File>
    const freelist: Stack
    const requeues: Ring
    ghost const units: set<IoU>
    var curDepth: nat
    var latencyQd: nat
    var nrOpenFiles: nat
    var nrDoneFiles: nat
    var nextFile: nat
    const serviceSequential: bool
    const serviceNr: U32
    var serviceFile: File?
    var serviceLeft: U32
    ghost var held: set<IoU>

    // ----- Invariant

    ghost predicate Valid()
      reads this, freelist, freelist.ious, requeues, requeues.ring, units, files
    {
      UnitsOk() && IdleOk() && FilesOk()
    }

    /** Every unit is in exactly one place, and the depth counts the held ones. */
    ghost predicate UnitsOk()
      reads this`curDepth, this`held, freelist, freelist.ious, requeues, requeues.ring
      reads units`free, units`inCurDepth
    {
      && ListsOk()
      && Split(units, freelist.Contents, requeues.Contents, held)
      && curDepth == |held|
      && forall u :: u in units ==> (u.free <==> u !in held) && (u in held ==> u.inCurDepth)
    }

    /** Units on the free stack carry no file. */
    ghost predicate IdleOk()
      reads freelist, units`file
    {
      forall u :: u in freelist.Contents && u in units ==> u.file == null
    }

    ghost function Carriers(f: File): set<IoU>
      reads units`file
    {
      set u | u in units && u.file == f
    }

    ghost function OpenFiles(): set<File>
      reads files`open
    {
      set f | f in files && f.open
    }

    ghost predicate FileOk(f: File)
      reads f, units`file
    {
      && f.references == |Carriers(f)| + (if f.open && !f.closing then 1 else 0)
      && (f.open <==> f.references > 0)
      && (f.done && f.open ==> f.closing)
      && f.opens == f.closes + (if f.open then 1 else 0)
    }

    ghost predicate FilesOk()
      reads this`nrOpenFiles, files, units`file
    {
      && (forall i, j :: 0 <= i < j < |files| ==> files[i] != files[j])
      && (forall f :: f in files ==> FileOk(f))
      && (forall u :: u in units && u.file != null ==> u.file in files)
      && nrOpenFiles == |OpenFiles()|
    }

    // ----- What the invariant says about any reachable state

    lemma DepthIsWhatIsOut()
      requires UnitsOk()
      ensures curDepth == |units| - |freelist.Contents| - |requeues.Contents|
    {
      SplitCounts(units, freelist.Contents, requeues.Contents, held);
    }

    /** A file that is closed for real has no carrier. */
    lemma CarriersKeepOpen(f: File)
      requires FilesOk() && f in files && Carriers(f) != {}
      ensures f.open
    {
    }

    // ----- Set-up

    /** `init_io_u`. `available` is how many units the memory allocator can deliver. */
    constructor (iodepth: U32, available: nat, latencyTarget: bool, latencyQd: nat,
                 nrFiles: nat, openFilesLimit: nat, serviceSequential: bool, serviceNr: U32)
      requires iodepth < 0x8000_0000
      ensures Valid() && held == {} && requeues.Contents == []
      ensures |units| == |freelist.Contents| == (if available < iodepth then available else iodepth)
      ensures this.iodepth == iodepth && |files| == nrFiles && nrOpenFiles == 0 && PickerOk()
    {
      this.iodepth, this.latencyTarget, this.latencyQd := iodepth, latencyTarget, latencyQd;
      this.openFilesLimit := openFilesLimit;
      this.serviceSequential, this.serviceNr := serviceSequential, serviceNr;
      curDepth, nrOpenFiles, nrDoneFiles, nextFile := 0, 0, 0, 0;
      serviceFile, serviceLeft := null, 0;
      held := {};
      var ring := new Ring(iodepth);
      var stack := new Stack(iodepth);
      ghost var all := FillStack(stack, iodepth, available);
      var fs := NewFiles(nrFiles);
      files, freelist, requeues, units := fs, stack, ring, all;
      new;
      assert multiset(requeues.Contents) + multiset(held) == multiset{};
      assert OpenFiles() == {};
      forall f | f in files ensures FileOk(f) { assert Carriers(f) == {}; }
    }

    static method FillStack(stack: Stack, iodepth: nat, available: nat) returns (ghost all: set<IoU>)
      requires stack.Valid() && stack.Contents == [] && stack.ious.Length == iodepth
      modifies stack`nr, stack`Contents, stack.ious
      ensures stack.Valid() && multiset(stack.Contents) == multiset(all)
      ensures |stack.Contents| == |all| == if available < iodepth then available else iodepth
      ensures forall u :: u in all ==> fresh(u) && u.free && u.file == null
    {
      all := {};
      var i := 0;
      while i < iodepth && i < available
        invariant i <= iodepth && i <= available
        invariant stack.Valid() && |stack.Contents| == i == |all|
        invariant multiset(stack.Contents) == multiset(all)
        invariant forall u :: u in all ==> fresh(u) && u.free && u.file == null
      {
        var u := new IoU();
        stack.Push(u);
        all := all + {u};
        i := i + 1;
      }
    }

    static method NewFiles(n: nat) returns (fs: seq<File>)
      ensures |fs| == n && forall i, j :: 0 <= i < j < n ==> fs[i] != fs[j]
      ensures forall f :: f in fs ==> fresh(f) && f.references == 0 && !f.open && !f.done && f.opens == f.closes
    {
      fs := [];
      while |fs| < n
        invariant |fs| <= n && forall i, j :: 0 <= i < j < |fs| ==> fs[i] != fs[j]
        invariant forall f :: f in fs ==> fresh(f) && f.references == 0 && !f.open && !f.done && f.opens == f.closes
      {
        var f := new File();
        fs := fs + [f];
      }
    }

    // ----- Units

    /** `queue_full`. */
    predicate QueueFull()
      reads this, freelist
    {
      if freelist.Empty() then true
      else if !latencyTarget then false
      else curDepth >= latencyQd
    }

    ghost predicate ListsOk()
      reads freelist, freelist.ious, requeues, requeues.ring
    {
      && freelist.Valid() && requeues.Valid() && freelist.ious != requeues.ring
      && |units| <= freelist.ious.Length && |units| < requeues.max
    }

    /** Requeued units come first, oldest first; then, if the depth allows, the top of the free stack. */
    method PopIdle() returns (u: IoU?)
      requires ListsOk()
      modifies freelist`nr, freelist`Contents, requeues`tail, requeues`Contents
      ensures ListsOk()
      ensures u == null <==> old(requeues.Contents) == [] && old(QueueFull())
      ensures u == null ==> requeues.Contents == old(requeues.Contents) && freelist.Contents == old(freelist.Contents)
      ensures u != null ==> Popped(old(requeues.Contents), old(freelist.Contents), u)
    {
      u := null;
      if !requeues.Empty() {
        u := requeues.Pop();
      } else if !QueueFull() {
        u := freelist.Pop();
      }
    }

    /** Unit u is what was first in the ring, or else, the ring being empty, on top of the stack. */
    ghost predicate Popped(requeued: seq<IoU>, free: seq<IoU>, u: IoU)
      reads freelist, requeues
    {
      if requeued != [] then requeued == [u] + requeues.Contents && free == freelist.Contents
      else requeues.Contents == [] && free == freelist.Contents + [u]
    }

    lemma PoppedSplit(requeued: seq<IoU>, free: seq<IoU>, u: IoU)
      requires Split(units, free, requeued, held) && Popped(requeued, free, u)
      ensures Split(units, freelist.Contents, requeues.Contents, held + {u})
      ensures u in units && u !in held && |held + {u}| == |held| + 1
    {
      SplitTake(units, freelist.Contents, requeues.Contents, held, u);
    }

    /** `__get_io_u`, without asynchronous verification. */
    method GetIoU() returns (u: IoU?)
      requires Valid()
      modifies this`curDepth, this`held, freelist`nr, freelist`Contents, requeues`tail, requeues`Contents
      modifies units`free, units`inCurDepth
      ensures Valid()
      ensures u == null <==> old(requeues.Contents) == [] && old(QueueFull())
      ensures u == null ==> requeues.Contents == old(requeues.Contents) && freelist.Contents == old(freelist.Contents)
      ensures u == null ==> held == old(held)
      ensures u != null ==> Popped(old(requeues.Contents), old(freelist.Contents), u)
      ensures u != null ==> u in units && u !in old(held) && held == old(held) + {u}
    {
      u := PopIdle();
      assert IdleOk() && FilesOk();
      if u != null {
        PoppedSplit(old(requeues.Contents), old(freelist.Contents), u);
        Activate(u);
      }
    }

    method Activate(u: IoU)
      requires ListsOk() && u in units && u !in held && curDepth == |held| && |held + {u}| == |held| + 1
      requires Split(units, freelist.Contents, requeues.Contents, held + {u})
      requires forall v :: v in units ==> (v.free <==> v !in held) && (v in held ==> v.inCurDepth)
      modifies this`curDepth, this`held, u`free, u`inCurDepth
      ensures UnitsOk() && held == old(held) + {u}
    {
      assert u.free;
      u.free := false;
      curDepth := curDepth + 1;
      u.inCurDepth := true;
      held := held + {u};
    }

    /** One reference to f is dropped; the last one closes it. */
    twostate predicate Released(f: File)
      reads f
    {
      && f.references == old(f.references) - 1
      && f.open == (f.references != 0)
      && f.closes == old(f.closes) + (if f.open then 0 else 1)
      && f.closing == old(f.closing) && f.done == old(f.done) && f.opens == old(f.opens)
    }

    /** `put_file` on a file somebody holds a reference to. */
    method PutFile(f: File)
      requires f.open ==> f.references > 0
      requires f.open && f.references == 1 ==> nrOpenFiles > 0
      modifies f`references, f`open, f`closes, this`nrOpenFiles
      ensures old(f.open) ==> Released(f) && nrOpenFiles == old(nrOpenFiles) - (if f.open then 0 else 1)
      ensures !old(f.open) ==> unchanged(f) && unchanged(this)
    {
      if !f.open {
        return;
      }
      f.references := f.references - 1;
      if f.references != 0 {
        return;
      }
      nrOpenFiles := nrOpenFiles - 1;
      f.open := false;
      f.closes := f.closes + 1;
    }

    /** The first half of `put_io_u`: the unit gives up its file. */
    method DropFile(u: IoU)
      requires FilesOk() && u in units
      modifies this`nrOpenFiles, u`file, files`references, files`open, files`closes
      ensures FilesOk() && u.file == null
      ensures forall f :: f in files && f != old(u.file) ==> unchanged(f)
      ensures old(u.file) != null ==> Released(old(u.file))
    {
      var f := u.file;
      if f != null {
        ghost var before := OpenFiles();
        assert u in Carriers(f);
        assert f in before;
        PutFile(f);
        assert OpenFiles() == if f.open then before else before - {f};
      }
      u.file := null;
      forall g | g in files ensures FileOk(g) {
        assert Carriers(g) == if g == f then old(Carriers(g)) - {u} else old(Carriers(g));
      }
    }

    /** The depth accounting shared by `put_io_u` and `requeue_io_u`. */
    method Deactivate(u: IoU)
      requires UnitsOk() && u in held
      modifies this`curDepth, this`held, u`free
      ensures held == old(held) - {u} && curDepth == |held|
      ensures Split(units, freelist.Contents + [u], requeues.Contents, held)
      ensures Split(units, freelist.Contents, requeues.Contents + [u], held)
      ensures |freelist.Contents| < freelist.ious.Length && |requeues.Contents| + 1 < requeues.max
      ensures u in units && u !in freelist.Contents
      ensures forall v :: v in units ==> (v.free <==> v !in held) && (v in held ==> v.inCurDepth)
    {
      SplitGive(units, freelist.Contents, requeues.Contents, held, u);
      u.free := true;
      if u.inCurDepth {
        curDepth := curDepth - 1;
      }
      held := held - {u};
    }

    /** The second half of `put_io_u`. */
    method Retire(u: IoU)
      requires UnitsOk() && IdleOk() && u in held && u.file == null
      modifies this`curDepth, this`held, freelist`nr, freelist`Contents, freelist.ious, u`free
      ensures UnitsOk() && IdleOk()
      ensures held == old(held) - {u} && freelist.Contents == old(freelist.Contents) + [u]
      ensures requeues.Contents == old(requeues.Contents)
    {
      Deactivate(u);
      freelist.Push(u);
    }

    /** `put_io_u`: drops the unit's file reference and returns it to the free stack. */
    method PutIoU(u: IoU)
      requires Valid() && u in held
      modifies this`curDepth, this`held, this`nrOpenFiles, freelist`nr, freelist`Contents, freelist.ious
      modifies u`file, u`free, files`references, files`open, files`closes
      ensures Valid()
      ensures held == old(held) - {u} && freelist.Contents == old(freelist.Contents) + [u]
      ensures requeues.Contents == old(requeues.Contents)
      ensures forall f :: f in files && f != old(u.file) ==> unchanged(f)
      ensures old(u.file) != null ==> Released(old(u.file))
    {
      SplitPlaces(units, freelist.Contents, requeues.Contents, held, u);
      DropFile(u);
      Retire(u);
    }

    /** `requeue_io_u`: the unit keeps its file and joins the end of the ring. */
    method RequeueIoU(u: IoU)
      requires Valid() && u in held
      modifies this`curDepth, this`held, requeues`head, requeues`Contents, requeues.ring, u`free, u`flight
      ensures Valid()
      ensures held == old(held) - {u} && requeues.Contents == old(requeues.Contents) + [u]
      ensures freelist.Contents == old(freelist.Contents) && !u.flight
    {
      Deactivate(u);
      u.flight := false;
      requeues.Push(u);
    }

    /** `clear_io_u`. */
    method ClearIoU(u: IoU)
      requires Valid() && u in held
      modifies this`curDepth, this`held, this`nrOpenFiles, freelist`nr, freelist`Contents, freelist.ious
      modifies u`file, u`free, u`flight, files`references, files`open, files`closes
      ensures Valid()
      ensures held == old(held) - {u} && freelist.Contents == old(freelist.Contents) + [u] && !u.flight
      ensures requeues.Contents == old(requeues.Contents)
    {
      u.flight := false;
      PutIoU(u);
    }

    // ----- Files

    /** `td_io_open_file`, up to a failure of the engine's own open. */
    method OpenFile(f: File) returns (failed: bool)
      requires FilesOk() && f in files && !f.open && !f.done
      modifies this`nrOpenFiles, f`references, f`open, f`closing, f`opens
      ensures FilesOk()
      ensures failed ==> unchanged(f) && nrOpenFiles == old(nrOpenFiles)
      ensures !failed ==> f.open && !f.closing && f.references == 1 && nrOpenFiles == old(nrOpenFiles) + 1
    {
      failed := *;
      if failed {
        return;
      }
      MarkOpen(f);
    }

    /** What a successful open records. */
    method MarkOpen(f: File)
      requires FilesOk() && f in files && !f.open && !f.done
      modifies this`nrOpenFiles, f`references, f`open, f`closing, f`opens
      ensures FilesOk()
      ensures f.open && !f.closing && f.references == 1 && nrOpenFiles == old(nrOpenFiles) + 1
    {
      ghost var before := OpenFiles();
      assert f.references == 0;
      f.open := true;
      f.closing := false;
      nrOpenFiles := nrOpenFiles + 1;
      f.references := f.references + 1;
      f.opens := f.opens + 1;
      assert OpenFiles() == before + {f};
    }

    /** `td_io_close_file`: the close happens now, or with the last unit that carries the file. */
    method CloseFile(f: File)
      requires FilesOk() && f in files && f.open && !f.closing
      modifies this`nrOpenFiles, f`references, f`open, f`closing, f`closes
      ensures FilesOk() && f.closing
      ensures f.open <==> Carriers(f) != {}
      ensures f.closes == old(f.closes) + (if f.open then 0 else 1)
      ensures f.done == old(f.done) && f.references == old(f.references) - 1
    {
      ghost var before := OpenFiles();
      assert f in before;
      f.closing := true;
      PutFile(f);
      assert OpenFiles() == if f.open then before else before - {f};
      assert Carriers(f) == {} <==> |Carriers(f)| == 0;
    }

    /** `io_u->file = f; get_file(f)`. */
    method AssignFile(u: IoU, f: File)
      requires FilesOk() && u in units && u.file == null && f in files && f.open
      modifies u`file, f`references
      ensures FilesOk() && u.file == f && f.references == old(f.references) + 1
    {
      u.file := f;
      f.references := f.references + 1;
      assert Carriers(f) == old(Carriers(f)) + {u};
      forall g | g in files && g != f ensures FileOk(g) {
        assert Carriers(g) == old(Carriers(g));
      }
    }

    ghost predicate Usable(f: File)
      reads f
    {
      f.open && !f.closing
    }

    ghost predicate PickerOk()
      reads this`nextFile, this`serviceFile
    {
      (|files| > 0 ==> nextFile < |files|) && (serviceFile != null ==> serviceFile in files)
    }

    /** One step of `get_next_file_rr`: takes the file, gives up because too many are open, or passes it over. */
    method TryFile(f: File) returns (r: NextFile)
      requires FilesOk() && f in files
      modifies this`nrOpenFiles, f`references, f`open, f`closing, f`opens, f`closes
      ensures FilesOk()
      ensures r == NoFile || r == Busy || r == Next(f)
      ensures r == Next(f) ==> Usable(f) && if old(f.open) then unchanged(f) else f.references == 1
      ensures r != Next(f) ==> !Usable(f) && nrOpenFiles == old(nrOpenFiles)
      ensures forall g :: g in files && r != Next(g) ==> unchanged(g)
      ensures r == Busy ==> nrOpenFiles >= openFilesLimit
    {
      if f.done {
        return NoFile;
      }
      var justOpened := false;
      if !f.open {
        if nrOpenFiles >= openFilesLimit {
          return Busy;
        }
        var failed := OpenFile(f);
        if failed {
          return NoFile;
        }
        justOpened := true;
      }
      if f.open && !f.closing {
        return Next(f);
      }
      if justOpened {
        assert false;  // a file that was just opened is never passed over, so it is never closed here
      }
      return NoFile;
    }

    /**
      `get_next_file_rr`: at most one file changes, the one returned, and giving up means that no file at all is
      usable.
     */
    method GetNextFileRR() returns (r: NextFile)
      requires FilesOk() && PickerOk() && |files| > 0
      modifies this`nextFile, this`nrOpenFiles, files`references, files`open, files`closing, files`opens, files`closes
      ensures FilesOk() && PickerOk()
      ensures r.Next? ==> r.file in files && Usable(r.file)
      ensures r.Next? ==> if old(r.file.open) then unchanged(r.file) else r.file.references == 1
      ensures forall f :: f in files && r != Next(f) ==> unchanged(f)
      ensures r.NoFile? ==> forall i :: 0 <= i < |files| ==> !Usable(files[i])
      ensures r.Busy? ==> nrOpenFiles >= openFilesLimit
    {
      var oldNextFile := nextFile;
      ghost var left := |files|;
      while true
        invariant FilesOk() && PickerOk() && 0 < left <= |files|
        invariant oldNextFile < |files| && nextFile == Around(oldNextFile + |files| - left)
        invariant forall k :: 0 <= k < |files| - left ==> !old(Usable(Visited(oldNextFile, k)))
        invariant forall f :: f in files ==> unchanged(f)
        decreases left
      {
        ghost var f := files[nextFile];
        assert f in files && f == Visited(oldNextFile, |files| - left);
        left := left - 1;
        r := TryNext();
        if r != NoFile {
          return;
        }
        if nextFile == oldNextFile {
          break;
        }
      }
      forall i | 0 <= i < |files| ensures !Usable(files[i]) {
        var k := if i >= oldNextFile then i - oldNextFile else i + |files| - oldNextFile;
        assert files[i] == Visited(oldNextFile, k);
        assert files[i] in files;
      }
    }

    /** The next file in turn is tried. */
    method TryNext() returns (r: NextFile)
      requires FilesOk() && PickerOk() && |files| > 0
      modifies this`nextFile, this`nrOpenFiles, files`references, files`open, files`closing, files`opens, files`closes
      ensures FilesOk() && PickerOk() && nextFile == if old(nextFile) + 1 >= |files| then 0 else old(nextFile) + 1
      ensures r.Next? ==> r.file == files[old(nextFile)] && Usable(r.file)
      ensures r.Next? ==> if old(r.file.open) then unchanged(r.file) else r.file.references == 1
      ensures !r.Next? ==> !old(Usable(files[nextFile]))
      ensures forall f :: f in files && r != Next(f) ==> unchanged(f)
      ensures r == Busy ==> nrOpenFiles >= openFilesLimit
    {
      var f := files[nextFile];
      nextFile := if nextFile + 1 >= |files| then 0 else nextFile + 1;
      r := TryFile(f);
    }

    ghost function Around(i: int): int {
      if i < |files| then i else i - |files|
    }

    /** The file that comes up k steps into a round that begins at `start`. */
    ghost function Visited(start: nat, k: nat): File
      requires start < |files| && k < |files|
    {
      files[Around(start + k)]
    }

    ghost function Pending(): set<File>
      reads files`done
    {
      set f | f in files && !f.done
    }

    /** No file is left to work on. */
    ghost predicate NothingLeft()
      reads this`nrDoneFiles, files
    {
      nrDoneFiles >= |files| || forall i :: 0 <= i < |files| ==> !Usable(files[i])
    }

    /** The current file is to be used once more. */
    predicate Stays()
      reads this`nrDoneFiles, this`serviceFile, this`serviceLeft, files, serviceFile
    {
      && nrDoneFiles < |files| && serviceFile != null && serviceFile.open && !serviceFile.closing
      && (serviceSequential || serviceLeft != 0)
    }

    /** `__get_next_file`: stays with the current file while it lasts, then picks the next one round robin. */
    method GetNextFile() returns (r: NextFile)
      requires FilesOk() && PickerOk()
      modifies this`nextFile, this`nrOpenFiles, this`serviceFile, this`serviceLeft
      modifies files`references, files`open, files`closing, files`opens, files`closes
      ensures FilesOk() && PickerOk()
      ensures r.Next? ==> r.file in files && Usable(r.file)
      ensures forall f :: f in files && r != Next(f) ==> unchanged(f)
      ensures old(Stays()) ==> r == Next(old(serviceFile))
      ensures r.NoFile? ==> NothingLeft()
      ensures r.Busy? ==> nrOpenFiles >= openFilesLimit
    {
      if nrDoneFiles >= |files| {
        return NoFile;
      }
      if serviceFile != null && serviceFile.open && !serviceFile.closing {
        if serviceSequential {
          return Next(serviceFile);
        }
        var left := serviceLeft;
        serviceLeft := (serviceLeft - 1) % 0x1_0000_0000;
        if left != 0 {
          return Next(serviceFile);
        }
      }
      r := GetNextFileRR();
      if r == Busy {
        return;
      }
      serviceFile := if r.Next? then r.file else null;
      serviceLeft := (serviceNr - 1) % 0x1_0000_0000;
    }

    /** One round of `set_io_u_file` up to the reference the unit takes. */
    method AssignNext(u: IoU) returns (r: NextFile)
      requires FilesOk() && PickerOk() && u in units && u.file == null
      modifies this`nextFile, this`nrOpenFiles, this`serviceFile, this`serviceLeft, u`file
      modifies files`references, files`open, files`closing, files`opens, files`closes
      ensures FilesOk() && PickerOk()
      ensures if r.Next? then u.file == r.file && r.file in files && Usable(r.file) else u.file == null
      ensures r.NoFile? ==> NothingLeft()
      ensures r.Busy? ==> nrOpenFiles >= openFilesLimit
    {
      r := GetNextFile();
      if r.Next? {
        AssignFile(u, r.file);
      }
    }

    /** One round of `set_io_u_file`. Going round again means that one more file is done. */
    method SearchRound(u: IoU) returns (again: bool, error: bool)
      requires FilesOk() && PickerOk() && u in units && u.file == null
      modifies this`nextFile, this`nrOpenFiles, this`nrDoneFiles, this`serviceFile, this`serviceLeft, u`file
      modifies files
      ensures FilesOk() && PickerOk()
      ensures again ==> u.file == null && |Pending()| < old(|Pending()|)
      ensures u.file != null ==> !error && u.file in files && Usable(u.file)
      ensures !again && u.file == null ==> if error then nrOpenFiles >= openFilesLimit else NothingLeft()
    {
      var next := AssignNext(u);
      if !next.Next? {
        return false, next == Busy;
      }
      error := false;
      again := FillUnit(u, next.file);
    }

    /** `fill_io_u`; whether there is I/O left in the file is left open. */
    method FillUnit(u: IoU, f: File) returns (exhausted: bool)
      requires FilesOk() && u in units && u.file == f && f in files && Usable(f)
      modifies this`nrOpenFiles, this`nrDoneFiles, u`file
      modifies files`references, files`open, files`closing, files`done, files`closes
      ensures FilesOk()
      ensures exhausted ==> u.file == null && |Pending()| < old(|Pending()|)
      ensures !exhausted ==> u.file == f && Usable(f)
    {
      exhausted := *;
      if exhausted {
        FileDone(u, f);
      }
    }

    /**
      `set_io_u_file`: looks for a file that has I/O left for this unit. A file that has none is marked done and
      asked to close, so the search ends.
     */
    method SetIoUFile(u: IoU) returns (error: bool)
      requires FilesOk() && PickerOk() && u in units && u.file == null
      modifies this`nextFile, this`nrOpenFiles, this`nrDoneFiles, this`serviceFile, this`serviceLeft, u`file
      modifies files
      ensures FilesOk() && PickerOk()
      ensures u.file != null ==> !error && u.file in files && Usable(u.file)
      ensures u.file == null ==> if error then nrOpenFiles >= openFilesLimit else NothingLeft()
    {
      var again := true;
      error := false;
      while again
        invariant FilesOk() && PickerOk()
        invariant again ==> u.file == null
        invariant u.file != null ==> !error && u.file in files && Usable(u.file)
        invariant !again && u.file == null ==> if error then nrOpenFiles >= openFilesLimit else NothingLeft()
        decreases again, |Pending()|
      {
        again, error := SearchRound(u);
      }
    }

    /** The end of one round of `set_io_u_file`: the unit lets go of a file that has nothing left to do. */
    method FileDone(u: IoU, f: File)
      requires FilesOk() && u in units && u.file == f && f in files && Usable(f)
      modifies this`nrOpenFiles, this`nrDoneFiles, u`file
      modifies files`references, files`open, files`closing, files`done, files`closes
      ensures FilesOk() && u.file == null && f.closing
      ensures Pending() == old(Pending()) - {f} && |Pending()| < old(|Pending()|)
    {
      assert u in Carriers(f) && |Carriers(f)| > 0;
      DropFile(u);
      CloseFile(f);
      MarkDone(f);
    }

    /** `fio_file_set_done`. */
    method MarkDone(f: File)
      requires FilesOk() && f in files && f.closing && !f.done
      modifies this`nrDoneFiles, f`done
      ensures FilesOk()
      ensures Pending() == old(Pending()) - {f} && |Pending()| < old(|Pending()|)
    {
      ghost var pending := Pending();
      assert f in pending;
      f.done := true;
      nrDoneFiles := nrDoneFiles + 1;
      assert Pending() == pending - {f};
    }

    /** `set_io_u_file` on a held unit leaves the whole job in order. */
    method Equip(u: IoU) returns (error: bool)
      requires Valid() && PickerOk() && u in held && u.file == null
      modifies this`nextFile, this`nrOpenFiles, this`nrDoneFiles, this`serviceFile, this`serviceLeft, u`file
      modifies files
      ensures Valid() && PickerOk()
      ensures u.file != null ==> !error && u.file in files && Usable(u.file)
    {
      SplitPlaces(units, freelist.Contents, requeues.Contents, held, u);
      error := SetIoUFile(u);
    }

    /** `get_io_u` once a unit is in hand: give it a file if it has none, or put it back. */
    method Prepare(u: IoU) returns (ok: bool)
      requires Valid() && PickerOk() && u in held
      modifies this, freelist, freelist.ious, files, u`free, u`file
      ensures Valid() && PickerOk()
      ensures held == if ok then old(held) else old(held) - {u}
      ensures ok ==> u.file != null && u.file in files && u.file.open
    {
      SplitPlaces(units, freelist.Contents, requeues.Contents, held, u);
      var error := false;
      if u.file == null {
        error := Equip(u);
      }
      var prepared: bool := *;
      ok := !error && u.file != null && prepared;
      if ok {
        CarriedOpen(u);
      } else {
        PutIoU(u);
      }
    }

    lemma CarriedOpen(u: IoU)
      requires FilesOk() && u in units && u.file != null
      ensures u.file in files && u.file.open
    {
      assert u in Carriers(u.file);
    }

    twostate predicate SameFiles(s: set<IoU>)
      reads s`file
    {
      forall v :: v in s ==> v.file == old(v.file)
    }

    /** The unit in hand, or null once it has been put back. */
    method Offer(u: IoU) returns (r: IoU?)
      requires Valid() && PickerOk() && u in held
      modifies this, freelist, freelist.ious, files, u`free, u`file
      ensures Valid() && PickerOk()
      ensures r == null || r == u
      ensures r == null ==> held == old(held) - {u}
      ensures r != null ==> held == old(held) && u.file != null && u.file.open
    {
      var ok := Prepare(u);
      r := if ok then u else null;
    }

    /**
      `get_io_u`, with preparation by the engine left open: what it returns is held and carries an open file, and
      whatever it could not complete is back on the free stack.
     */
    method NextIoU() returns (u: IoU?)
      requires Valid() && PickerOk()
      modifies this, freelist, freelist.ious, requeues, files, units`free, units`inCurDepth, units`file
      ensures Valid() && PickerOk()
      ensures u != null ==> u !in old(held) && held == old(held) + {u} && u.file != null && u.file.open
      ensures u == null ==> held == old(held)
      ensures SameFiles(old(held))
    {
      ghost var before := held;
      u := GetIoU();
      if u == null {
        return;
      }
      assert held - {u} == before;
      u := Offer(u);
    }
  }
}
