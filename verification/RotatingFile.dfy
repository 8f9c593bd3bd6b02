/**
 * Size-based rotation of log files. Renames and writes succeed; a file is the blocks written to
 * it, and the files the sink rotates among are its slots, newest first.
 */
module RotatingFile {
  import opened Common
  import opened FileNames

  /** What a file holds block by block; untouched as long as the sink has not written to it. */
  datatype LogFile = LogFile(blocks: seq<seq<Byte>>, untouched: bool)

  type Slots = seq<Option<LogFile>>

  /** The sink's files from index 0 to max_files, and current_size_. */
  datatype Sink = Sink(slots: Slots, size: nat)

  datatype Event = Open(rotateOnOpen: bool) | Log(message: seq<Byte>)

  function Flatten(blocks: seq<seq<Byte>>): (r: seq<Byte>) {
    if blocks == [] then [] else Flatten(blocks[..|blocks| - 1]) + blocks[|blocks| - 1]
  }

  function Bytes(slot: Option<LogFile>): seq<Byte> {
    if slot.None? then [] else Flatten(slot.value.blocks)
  }

  const FRESH: LogFile := LogFile([], false)

  // ----- what the operations do to the slots -----

  /** The slots while rotate_ has still to look at the indices up to i. */
  function PartlyRotated(v: Slots, i: nat): (r: Slots)
    requires i < |v|
    ensures |r| == |v|
  {
    seq(|v|, j requires 0 <= j < |v| => if j > i then MovedUp(v, j) else if j == i < |v| - 1 then None else v[j])
  }

  /** What slot j holds once every file below has moved up: its own file stays only at the end of the row. */
  function MovedUp(v: Slots, j: nat): Option<LogFile>
    requires 0 < j < |v|
  {
    if v[j - 1].Some? then v[j - 1] else if j == |v| - 1 then v[j] else None
  }

  function Rotated(v: Slots): (r: Slots)
    requires v != []
    ensures |r| == |v| && r[0] == Some(FRESH)
    ensures forall j :: 0 < j < |v| ==> r[j] == MovedUp(v, j)
  {
    PartlyRotated(v, 0)[0 := Some(FRESH)]
  }

  function Appended(v: Slots, message: seq<Byte>): (r: Slots)
    requires v != []
    ensures |r| == |v|
  {
    var blocks := if v[0].None? then [] else v[0].value.blocks;
    v[0 := Some(LogFile(blocks + [message], false))]
  }

  /** Opening in append mode: the file is there afterwards. */
  function Opened(v: Slots): (r: Slots)
    requires v != []
    ensures |r| == |v| && r[0].Some? && Bytes(r[0]) == Bytes(v[0])
  {
    if v[0].None? then v[0 := Some(FRESH)] else v
  }

  function Step(s: Sink, e: Event, maxSize: nat): (s': Sink)
    requires s.slots != []
    ensures |s'.slots| == |s.slots|
  {
    match e
    case Open(rotateOnOpen) =>
      var size := |Bytes(s.slots[0])|;
      Sink(if rotateOnOpen && size > 0 then Rotated(s.slots) else Opened(s.slots), size)
    case Log(message) =>
      if s.size + |message| > maxSize then Sink(Appended(Rotated(s.slots), message), |message|)
      else Sink(Appended(s.slots, message), s.size + |message|)
  }

  function Run(s: Sink, events: seq<Event>, maxSize: nat): (s': Sink)
    requires s.slots != []
    ensures |s'.slots| == |s.slots|
  {
    if events == [] then s
    else Step(Run(s, events[..|events| - 1], maxSize), events[|events| - 1], maxSize)
  }

  // ----- the sink -----

  type Directory = map<Name, LogFile>

  function Find(dir: Directory, name: Name): Option<LogFile> {
    if name in dir then Some(dir[name]) else None
  }

  function SlotsOf(dir: Directory, base: Name, maxFiles: nat): (v: Slots)
    ensures |v| == maxFiles + 1
  {
    seq(maxFiles + 1, i requires 0 <= i <= maxFiles => Find(dir, CalcFilename(base, i)))
  }

  /** Files under other names are as they were. */
  ghost predicate OthersKept(was: Directory, dir: Directory, base: Name, maxFiles: nat) {
    forall n :: (forall i :: 0 <= i <= maxFiles ==> n != CalcFilename(base, i)) ==> Find(dir, n) == Find(was, n)
  }

  /**
   * Every file of the row has been renamed to the next index; where there was none, the next index
   * has been left free, except that a last file in nobody's way stays.
   */
  predicate RowMovedUp(was: Directory, dir: Directory, base: Name, maxFiles: nat) {
    forall i :: 0 <= i < maxFiles ==>
      Find(dir, CalcFilename(base, i + 1))
      == if CalcFilename(base, i) in was then Some(was[CalcFilename(base, i)])
         else if i + 1 < maxFiles then None else Find(was, CalcFilename(base, maxFiles))
  }

  /** Setting one file of the row leaves the rest of the row alone, for no two share a name. */
  lemma SlotSet(dir: Directory, base: Name, maxFiles: nat, i: nat, file: LogFile)
    requires i <= maxFiles
    ensures SlotsOf(dir[CalcFilename(base, i) := file], base, maxFiles)
         == SlotsOf(dir, base, maxFiles)[i := Some(file)]
    ensures OthersKept(dir, dir[CalcFilename(base, i) := file], base, maxFiles)
  {
    hide CalcFilename;
    forall j | 0 <= j <= maxFiles && CalcFilename(base, j) == CalcFilename(base, i) ensures j == i {
      CalcFilenameInjective(base, i, j);
    }
  }

  lemma SlotRemoved(dir: Directory, base: Name, maxFiles: nat, i: nat)
    requires i <= maxFiles
    ensures SlotsOf(dir - {CalcFilename(base, i)}, base, maxFiles) == SlotsOf(dir, base, maxFiles)[i := None]
    ensures OthersKept(dir, dir - {CalcFilename(base, i)}, base, maxFiles)
  {
    hide CalcFilename;
    forall j | 0 <= j <= maxFiles && CalcFilename(base, j) == CalcFilename(base, i) ensures j == i {
      CalcFilenameInjective(base, i, j);
    }
  }

  class RotatingFileSink {
    const baseFilename: Name
    const maxSize: nat
    const maxFiles: nat
    var currentSize: nat
    var dir: Directory

    ghost function Slots(): Slots
      reads this
    {
      SlotsOf(dir, baseFilename, maxFiles)
    }

    ghost function State(): Sink
      reads this
    {
      Sink(Slots(), currentSize)
    }

    constructor (baseFilename: Name, maxSize: nat, maxFiles: nat, rotateOnOpen: bool, dir: Directory)
      ensures this.baseFilename == baseFilename && this.maxSize == maxSize && this.maxFiles == maxFiles
      ensures forall size ::
                State() == Step(Sink(SlotsOf(dir, baseFilename, maxFiles), size), Open(rotateOnOpen), maxSize)
      ensures baseFilename in this.dir && Slots()[0] == Find(this.dir, baseFilename)
      ensures currentSize == |Bytes(Find(dir, baseFilename))|
      ensures rotateOnOpen && currentSize > 0 ==>
                RowMovedUp(dir, this.dir, baseFilename, maxFiles) && this.dir[baseFilename] == LogFile([], false)
      ensures !(rotateOnOpen && currentSize > 0) ==>
                this.dir == if baseFilename in dir then dir else dir[baseFilename := LogFile([], false)]
      ensures OthersKept(dir, this.dir, baseFilename, maxFiles)
    {
      this.baseFilename, this.maxSize, this.maxFiles := baseFilename, maxSize, maxFiles;
      this.dir := dir;
      new;
      var name := CalcFilename(baseFilename, 0);
      if name !in this.dir {
        SlotSet(dir, baseFilename, maxFiles, 0, FRESH);
        this.dir := this.dir[name := FRESH];
      }
      currentSize := |Flatten(this.dir[name].blocks)|;
      if rotateOnOpen && currentSize > 0 {
        Rotate();
      }
    }

    method RenameFile(src: Name, target: Name)
      requires src in dir && src != target
      modifies `dir
      ensures dir == old(dir)[target := old(dir)[src]] - {src}
    {
      dir := dir - {target};
      dir := dir[target := dir[src]] - {src};
    }

    method Rotate()
      modifies `dir
      ensures Slots() == Rotated(old(Slots()))
      ensures RowMovedUp(old(dir), dir, baseFilename, maxFiles) && Find(dir, baseFilename) == Some(LogFile([], false))
      ensures OthersKept(old(dir), dir, baseFilename, maxFiles)
    {
      hide CalcFilename, PartlyRotated, Rotated, RowMovedUp, MovedUp;
      ghost var was := Slots();
      var i: nat := maxFiles;
      RotatedFirst(was);
      while i > 0
        invariant i <= maxFiles
        invariant Slots() == PartlyRotated(was, i)
        invariant OthersKept(old(dir), dir, baseFilename, maxFiles)
      {
        var src := CalcFilename(baseFilename, i - 1);
        StillThere(was, i);
        if src in dir {
          var target := CalcFilename(baseFilename, i);
          if src == target {
            CalcFilenameInjective(baseFilename, i - 1, i);
          }
          ghost var file := dir[src];
          SlotSet(dir, baseFilename, maxFiles, i, file);
          SlotRemoved(dir[target := file], baseFilename, maxFiles, i - 1);
          RenameFile(src, target);
          MoveUp(was, i);
        } else {
          StayPut(was, i);
        }
        i := i - 1;
      }
      SlotSet(dir, baseFilename, maxFiles, 0, FRESH);
      dir := dir[CalcFilename(baseFilename, 0) := FRESH];
      RotatedLast(was);
      BaseName(baseFilename);
      RowIs(was, old(dir), dir, baseFilename, maxFiles);
    }

    method SinkIt(formatted: seq<Byte>)
      requires baseFilename in dir
      modifies this
      ensures State() == Step(old(State()), Log(formatted), maxSize)
      ensures baseFilename in dir && Slots()[0] == Find(dir, baseFilename)
      ensures old(currentSize) + |formatted| <= maxSize ==>
                && currentSize == old(currentSize) + |formatted|
                && dir == old(dir)[baseFilename := LogFile(old(dir[baseFilename].blocks) + [formatted], false)]
      ensures old(currentSize) + |formatted| > maxSize ==>
                && currentSize == |formatted| && dir[baseFilename] == LogFile([formatted], false)
                && RowMovedUp(old(dir), dir, baseFilename, maxFiles)
      ensures OthersKept(old(dir), dir, baseFilename, maxFiles)
    {
      currentSize := currentSize + |formatted|;
      if currentSize > maxSize {
        Rotate();
        currentSize := |formatted|;
      }
      var name := CalcFilename(baseFilename, 0);
      var file := LogFile(dir[name].blocks + [formatted], false);
      SlotSet(dir, baseFilename, maxFiles, 0, file);
      dir := dir[name := file];
    }
  }

  lemma RotatedFirst(v: Slots)
    requires v != []
    ensures PartlyRotated(v, |v| - 1) == v
  {
  }

  lemma StillThere(v: Slots, i: nat)
    requires 0 < i < |v|
    ensures PartlyRotated(v, i)[i - 1] == v[i - 1]
  {
  }

  lemma RotatedLast(v: Slots)
    requires v != []
    ensures PartlyRotated(v, 0)[0 := Some(FRESH)] == Rotated(v)
  {
  }

  lemma BaseName(base: Name)
    ensures CalcFilename(base, 0) == base
  {
  }

  lemma RowIs(v: Slots, was: Directory, dir: Directory, base: Name, maxFiles: nat)
    requires v == SlotsOf(was, base, maxFiles) && SlotsOf(dir, base, maxFiles) == Rotated(v)
    ensures RowMovedUp(was, dir, base, maxFiles)
  {
    hide CalcFilename, Rotated, PartlyRotated;
    forall i | 0 <= i < maxFiles
      ensures Find(dir, CalcFilename(base, i + 1))
           == if CalcFilename(base, i) in was then Some(was[CalcFilename(base, i)])
              else if i + 1 < maxFiles then None else Find(was, CalcFilename(base, maxFiles))
    {
      assert Rotated(v)[i + 1] == MovedUp(v, i + 1) && v[i] == Find(was, CalcFilename(base, i));
      assert SlotsOf(dir, base, maxFiles)[i + 1] == Find(dir, CalcFilename(base, i + 1));
    }
  }

  lemma MoveUp(v: Slots, i: nat)
    requires 0 < i < |v| && v[i - 1].Some?
    ensures PartlyRotated(v, i)[i := v[i - 1]][i - 1 := None] == PartlyRotated(v, i - 1)
  {
  }

  lemma StayPut(v: Slots, i: nat)
    requires 0 < i < |v| && v[i - 1].None?
    ensures PartlyRotated(v, i) == PartlyRotated(v, i - 1)
  {
  }

  // ----- nothing but whole oldest files is lost -----

  /** All that is in the files, oldest first. */
  function Concat(v: Slots): seq<Byte> {
    if v == [] then [] else Bytes(v[|v| - 1]) + Concat(v[..|v| - 1])
  }

  /** What a rotation deletes: the last file, when another takes its place. */
  function Overwritten(v: Slots): seq<Byte>
    requires v != []
  {
    if |v| == 1 || v[|v| - 2].Some? then Bytes(v[|v| - 1]) else []
  }

  function Deleted(s: Sink, e: Event, maxSize: nat): seq<Byte>
    requires s.slots != []
  {
    match e
    case Open(rotateOnOpen) => if rotateOnOpen && Bytes(s.slots[0]) != [] then Overwritten(s.slots) else []
    case Log(message) => if s.size + |message| > maxSize then Overwritten(s.slots) else []
  }

  function Lost(s: Sink, events: seq<Event>, maxSize: nat): seq<Byte>
    requires s.slots != []
  {
    if events == [] then []
    else
      var front := events[..|events| - 1];
      Lost(s, front, maxSize) + Deleted(Run(s, front, maxSize), events[|events| - 1], maxSize)
  }

  /** All bytes the events hand to the sink. */
  function Logged(events: seq<Event>): seq<Byte> {
    if events == [] then []
    else
      var e := events[|events| - 1];
      Logged(events[..|events| - 1]) + if e.Log? then e.message else []
  }

  /** Concatenation sees slots one by one, so a row of absent files above the rest adds nothing. */
  lemma {:induction false} ConcatSplit(v: Slots, k: nat)
    requires k <= |v|
    ensures Concat(v) == Concat(v[k..]) + Concat(v[..k])
  {
    hide Bytes;
    if k == |v| {
      assert v[..k] == v;
      assert v[k..] == [];
    } else {
      var front := v[..|v| - 1];
      ConcatSplit(front, k);
      assert v[k..][|v[k..]| - 1] == v[|v| - 1];
      assert v[k..][..|v[k..]| - 1] == front[k..];
      assert front[..k] == v[..k];
    }
  }

  /** The first slots after moving up hold what the slots below them held. */
  lemma {:induction false} ConcatMoved(v: Slots, k: nat)
    requires 0 < k < |v|
    ensures Concat(Rotated(v)[..k]) == Concat(v[..k - 1])
  {
    var r := Rotated(v);
    hide PartlyRotated, Rotated, Flatten;
    if k == 1 {
      assert r[..1] == [Some(FRESH)];
      assert Concat([Some(FRESH)]) == Bytes(Some(FRESH)) + Concat([]);
    } else {
      ConcatMoved(v, k - 1);
      assert r[..k][..k - 1] == r[..k - 1];
      assert v[..k - 1][..k - 2] == v[..k - 2];
      assert Bytes(r[k - 1]) == Bytes(v[k - 2]);
    }
  }

  /** Rotation keeps all but what it overwrites, in order. */
  lemma RotationKeepsOrder(v: Slots)
    requires v != []
    ensures Concat(v) == Overwritten(v) + Concat(Rotated(v))
  {
    var r, n := Rotated(v), |v|;
    ConcatLast(v);
    ConcatLast(r);
    assert Bytes(Some(FRESH)) == [];
    hide PartlyRotated, Rotated, Concat, Flatten;
    if n == 1 {
      assert r[..0] == v[..0] == [];
    } else {
      LastTwo(v);
      ConcatMoved(v, n - 1);
      var last, next, below := Bytes(v[n - 1]), Bytes(v[n - 2]), Concat(v[..n - 2]);
      assert Concat(v) == last + (next + below);
      if v[n - 2].Some? {
        assert Concat(r) == next + below;
      } else {
        assert Concat(r) == last + below;
        assert [] + below == below;
      }
    }
  }

  lemma LastTwo(v: Slots)
    requires |v| >= 2
    ensures Concat(v[..|v| - 1]) == Bytes(v[|v| - 2]) + Concat(v[..|v| - 2])
  {
    assert v[..|v| - 1][..|v| - 2] == v[..|v| - 2];
  }

  lemma ConcatLast(v: Slots)
    requires v != []
    ensures Concat(v) == Bytes(v[|v| - 1]) + Concat(v[..|v| - 1])
    ensures Concat([]) == []
  {
  }

  lemma FlattenMore(blocks: seq<seq<Byte>>, message: seq<Byte>)
    ensures Flatten(blocks + [message]) == Flatten(blocks) + message
  {
    assert (blocks + [message])[..|blocks|] == blocks;
  }

  lemma AppendedBytes(v: Slots, message: seq<Byte>)
    requires v != []
    ensures Bytes(Appended(v, message)[0]) == Bytes(v[0]) + message
  {
    FlattenMore(if v[0].None? then [] else v[0].value.blocks, message);
  }

  lemma ConcatAppend(v: Slots, message: seq<Byte>)
    requires v != []
    ensures Concat(Appended(v, message)) == Concat(v) + message
  {
    hide *;
    AppendedRest(v, message);
    NewestLast(v);
    NewestLast(Appended(v, message));
    AppendedBytes(v, message);
    AssocBytes(Concat(v[1..]), Bytes(v[0]), message);
  }

  /** The newest file comes last in the concatenation. */
  lemma NewestLast(v: Slots)
    requires v != []
    ensures Concat(v) == Concat(v[1..]) + Bytes(v[0])
  {
    hide *;
    ConcatSplit(v, 1);
    ConcatOne(v);
  }

  lemma AssocBytes(a: seq<Byte>, b: seq<Byte>, c: seq<Byte>)
    ensures a + (b + c) == (a + b) + c
  {
  }

  lemma AppendedRest(v: Slots, message: seq<Byte>)
    requires v != []
    ensures Appended(v, message)[1..] == v[1..]
  {
  }

  lemma ConcatOne(v: Slots)
    requires v != []
    ensures Concat(v[..1]) == Bytes(v[0])
  {
    assert Concat(v[..1]) == Bytes(v[0]) + Concat([]);
  }

  lemma ConcatOpened(v: Slots)
    requires v != []
    ensures Concat(Opened(v)) == Concat(v)
  {
    var o := Opened(v);
    ConcatSplit(v, 1);
    ConcatSplit(o, 1);
    assert o[1..] == v[1..];
    ConcatOne(v);
    ConcatOne(o);
  }

  lemma StepConserves(s: Sink, e: Event, maxSize: nat)
    requires s.slots != []
    ensures Concat(s.slots) + (if e.Log? then e.message else [])
         == Deleted(s, e, maxSize) + Concat(Step(s, e, maxSize).slots)
  {
    hide Concat, Rotated, Overwritten, Flatten, Appended, Opened;
    match e
    case Open(_) =>
      ConcatOpened(s.slots);
      RotationKeepsOrder(s.slots);
    case Log(message) =>
      if s.size + |message| > maxSize {
        RotationKeepsOrder(s.slots);
        ConcatAppend(Rotated(s.slots), message);
      } else {
        ConcatAppend(s.slots, message);
      }
  }

  /**
   * From any files to start with, and over any run of openings and messages: what was there and
   * what was logged is what has been deleted followed by what the files hold, so the files hold a
   * suffix of all bytes written.
   */
  lemma {:induction false} EveryRunKeepsSuffix(s: Sink, events: seq<Event>, maxSize: nat)
    requires s.slots != []
    ensures Concat(s.slots) + Logged(events) == Lost(s, events, maxSize) + Concat(Run(s, events, maxSize).slots)
  {
    if events != [] {
      var front, e := events[..|events| - 1], events[|events| - 1];
      var mid := Run(s, front, maxSize);
      EveryRunKeepsSuffix(s, front, maxSize);
      StepConserves(mid, e, maxSize);
      var more := if e.Log? then e.message else [];
      Regroup(Concat(s.slots), Logged(front), more, Lost(s, front, maxSize), Concat(mid.slots),
              Deleted(mid, e, maxSize), Concat(Step(mid, e, maxSize).slots));
    }
  }

  lemma Regroup(start: seq<Byte>, logged: seq<Byte>, more: seq<Byte>, lost: seq<Byte>, held: seq<Byte>,
                deleted: seq<Byte>, left: seq<Byte>)
    requires start + logged == lost + held
    requires held + more == deleted + left
    ensures start + (logged + more) == (lost + deleted) + left
  {
    calc {
      start + (logged + more);
      (start + logged) + more;
      lost + (held + more);
      (lost + deleted) + left;
    }
  }

  // ----- indices without gaps, and deletion only from a full row -----

  predicate Contiguous(v: Slots) {
    forall i, j :: 0 <= i < j < |v| && v[j].Some? ==> v[i].Some?
  }

  lemma StepContiguous(s: Sink, e: Event, maxSize: nat)
    requires s.slots != [] && Contiguous(s.slots)
    ensures Contiguous(Step(s, e, maxSize).slots)
    ensures s.slots[|s.slots| - 1].Some? ==> var t := Step(s, e, maxSize).slots; t[|t| - 1].Some?
  {
    var v := s.slots;
    hide PartlyRotated, Rotated, Bytes;
    assert Contiguous(Rotated(v)) by {
      forall j | 0 <= j < |v| && Rotated(v)[j].Some? ensures j == 0 || v[j - 1].Some? {
      }
    }
  }

  /**
   * Started on files without gaps, every run has files 0 to some count and none beyond, and bytes
   * are deleted only once all of max_files + 1 files exist.
   */
  lemma {:induction false} EveryRunIsContiguous(s: Sink, events: seq<Event>, maxSize: nat)
    requires s.slots != [] && Contiguous(s.slots)
    ensures Contiguous(Run(s, events, maxSize).slots)
    ensures s.slots[|s.slots| - 1].Some? ==> var t := Run(s, events, maxSize).slots; t[|t| - 1].Some?
    ensures Lost(s, events, maxSize) != [] ==>
              forall i :: 0 <= i < |s.slots| ==> Run(s, events, maxSize).slots[i].Some?
  {
    hide Step, Deleted;
    if events != [] {
      var front, last := events[..|events| - 1], events[|events| - 1];
      var before := Run(s, front, maxSize);
      EveryRunIsContiguous(s, front, maxSize);
      StepContiguous(before, last, maxSize);
      DeletesWhenFull(before, last, maxSize);
      hide Contiguous;
      FullRow(Step(before, last, maxSize).slots);
    }
  }

  lemma DeletesWhenFull(s: Sink, e: Event, maxSize: nat)
    requires s.slots != []
    ensures Deleted(s, e, maxSize) != [] ==> s.slots[|s.slots| - 1].Some?
  {
    hide Flatten;
  }

  lemma FullRow(v: Slots)
    requires v != [] && Contiguous(v)
    ensures v[|v| - 1].Some? ==> forall i :: 0 <= i < |v| ==> v[i].Some?
  {
  }

  // ----- file sizes -----

  /** A file is as the sink found it, within the limit, or holds a single message. */
  predicate Fits(slot: Option<LogFile>, maxSize: nat) {
    slot.None? || slot.value.untouched || |Bytes(slot)| <= maxSize || |slot.value.blocks| == 1
  }

  predicate Bounded(s: Sink, maxSize: nat) {
    && s.slots != []
    && |Bytes(s.slots[0])| <= s.size
    && forall j :: 0 <= j < |s.slots| ==> Fits(s.slots[j], maxSize)
  }

  lemma RotatedFits(v: Slots, maxSize: nat)
    requires v != [] && forall j :: 0 <= j < |v| ==> Fits(v[j], maxSize)
    ensures forall j :: 0 <= j < |v| ==> Fits(Rotated(v)[j], maxSize)
  {
    hide PartlyRotated, Rotated;
  }

  /** A message goes on top of what still leaves room for it, or into an empty file of its own. */
  lemma AppendedFits(v: Slots, message: seq<Byte>, maxSize: nat)
    requires v != [] && forall j :: 0 <= j < |v| ==> Fits(v[j], maxSize)
    requires |Bytes(v[0])| + |message| <= maxSize || v[0] == Some(FRESH)
    ensures forall j :: 0 <= j < |v| ==> Fits(Appended(v, message)[j], maxSize)
    ensures |Bytes(Appended(v, message)[0])| == |Bytes(v[0])| + |message|
  {
    AppendedBytes(v, message);
  }

  lemma StepBounded(s: Sink, e: Event, maxSize: nat)
    requires s.slots != [] && forall j :: 0 <= j < |s.slots| ==> Fits(s.slots[j], maxSize)
    requires e.Log? ==> Bounded(s, maxSize)
    ensures Bounded(Step(s, e, maxSize), maxSize)
  {
    hide PartlyRotated, Rotated;
    match e
    case Open(_) =>
      RotatedFits(s.slots, maxSize);
    case Log(message) =>
      if s.size + |message| > maxSize {
        RotatedFits(s.slots, maxSize);
        AppendedFits(Rotated(s.slots), message, maxSize);
      } else {
        AppendedFits(s.slots, message, maxSize);
      }
  }

  /** After any run every file the sink has written to is within max_size or holds exactly one message. */
  lemma {:induction false} EveryRunIsBounded(s: Sink, events: seq<Event>, maxSize: nat)
    requires s.slots != [] && forall j :: 0 <= j < |s.slots| ==> Fits(s.slots[j], maxSize)
    requires events != [] && events[0].Open?
    ensures Bounded(Run(s, events, maxSize), maxSize)
  {
    var front := events[..|events| - 1];
    if |events| == 1 {
      assert Run(s, front, maxSize) == s;
    } else {
      EveryRunIsBounded(s, front, maxSize);
    }
    StepBounded(Run(s, front, maxSize), events[|events| - 1], maxSize);
  }

  // ----- current_size_ -----

  predicate Exact(s: Sink)
    requires s.slots != []
  {
    s.size == |Bytes(s.slots[0])|
  }

  /** The constructor's own rotation leaves current_size_ at the size of the file it moved away. */
  lemma OpenExact(s: Sink, rotateOnOpen: bool, maxSize: nat)
    requires s.slots != []
    ensures Exact(Step(s, Open(rotateOnOpen), maxSize)) <==> !(rotateOnOpen && |Bytes(s.slots[0])| > 0)
    ensures Step(s, Open(rotateOnOpen), maxSize).size == |Bytes(s.slots[0])|
  {
  }

  lemma LogExact(s: Sink, message: seq<Byte>, maxSize: nat)
    requires s.slots != []
    ensures Exact(Step(s, Log(message), maxSize)) <==> Exact(s) || s.size + |message| > maxSize
    ensures s.size + |message| <= maxSize ==> Step(s, Log(message), maxSize).size == s.size + |message|
  {
    hide PartlyRotated, Rotated;
    AppendedBytes(s.slots, message);
    AppendedBytes(Rotated(s.slots), message);
  }

  /** Opening once and then logging. */
  function Session(rotateOnOpen: bool, messages: seq<seq<Byte>>): (events: seq<Event>)
    ensures |events| == |messages| + 1
  {
    [Open(rotateOnOpen)] + seq(|messages|, i requires 0 <= i < |messages| => Log(messages[i]))
  }

  lemma SessionLast(s: Sink, rotateOnOpen: bool, messages: seq<seq<Byte>>, maxSize: nat)
    requires s.slots != []
    ensures Run(s, Session(rotateOnOpen, messages), maxSize)
         == if messages == [] then Step(s, Open(rotateOnOpen), maxSize)
            else Step(Run(s, Session(rotateOnOpen, messages[..|messages| - 1]), maxSize),
                      Log(messages[|messages| - 1]), maxSize)
  {
    var events := Session(rotateOnOpen, messages);
    var front := events[..|events| - 1];
    hide Step;
    if messages == [] {
      assert Run(s, front, maxSize) == s;
    } else {
      assert front == Session(rotateOnOpen, messages[..|messages| - 1]);
    }
  }

  /**
   * current_size_ is the size of file 0 over a whole session exactly when the sink was not opened
   * with a rotation that moved bytes away, or so much has been logged since that file and messages
   * together pass max_size.
   */
  lemma {:induction false} SessionExact(s: Sink, rotateOnOpen: bool, messages: seq<seq<Byte>>, maxSize: nat)
    requires s.slots != []
    ensures var found := |Bytes(s.slots[0])|; var t := Run(s, Session(rotateOnOpen, messages), maxSize);
            && (Exact(t) <==> !(rotateOnOpen && found > 0) || (messages != [] && found + |Flatten(messages)| > maxSize))
            && (messages == [] || found + |Flatten(messages)| <= maxSize ==> t.size == found + |Flatten(messages)|)
  {
    SessionLast(s, rotateOnOpen, messages, maxSize);
    hide Bytes, Step, Exact, Run, Session;
    if messages == [] {
      OpenExact(s, rotateOnOpen, maxSize);
    } else {
      var before, message := messages[..|messages| - 1], messages[|messages| - 1];
      SessionExact(s, rotateOnOpen, before, maxSize);
      LogExact(Run(s, Session(rotateOnOpen, before), maxSize), message, maxSize);
      assert |Flatten(messages)| == |Flatten(before)| + |message|;
    }
  }

  /**
   * A session opened with a rotation can rotate away an empty file on its first message: with
   * max_size 10 and one spare file, nine old bytes are lost though only two are written.
   */
  lemma StaleSizeLosesFile()
    ensures var old9 := LogFile([seq(9, i => 65)], true);
            var t := Run(Sink([Some(old9), None], 0), Session(true, [[66, 66]]), 10);
            t.slots == [Some(LogFile([[66, 66]], false)), Some(FRESH)]
  {
    var old9 := LogFile([seq(9, i => 65)], true);
    var s := Sink([Some(old9), None], 0);
    var events := Session(true, [[66, 66]]);
    FlattenMore([], old9.blocks[0]);
    assert [] + old9.blocks == old9.blocks;
    assert |Bytes(Some(old9))| == 9;
    assert events == [Open(true), Log([66, 66])];
    assert events[..1] == [Open(true)];
    assert events[..1][..0] == [];
    assert Run(s, [], 10) == s;
    var begun := Run(s, [Open(true)], 10);
    assert begun == Sink([Some(FRESH), Some(old9)], 9);
    assert Run(s, events, 10) == Step(begun, Log([66, 66]), 10);
    assert Rotated(begun.slots) == [Some(FRESH), Some(FRESH)];
    var message: seq<Byte> := [66, 66];
    assert FRESH.blocks + [message] == [message];
    assert Appended([Some(FRESH), Some(FRESH)], [66, 66]) == [Some(LogFile([[66, 66]], false)), Some(FRESH)];
  }
}
