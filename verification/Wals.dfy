/** The write-ahead log of internal/wal/wal_forge.go: logging, syncing, rotating, and replay
    after a crash at any point. */
module Wals {
  import opened Bits
  import opened Decimal
  import opened EntryCodec
  import opened WalFrames
  import opened WalLayouts
  import opened WalNames

  ghost predicate Increasing(es: seq<Element>, top: int) {
    && (forall i :: 0 <= i < |es| ==> es[i].lsn <= top)
    && forall i, j :: 0 <= i < j < |es| ==> es[i].lsn < es[j].lsn
  }

  lemma OneAttempt(a: nat, es: seq<Element>)
    ensures (a % TWO64 + 1) % TWO64 == (a + 1) % TWO64
    ensures a + 1 < TWO64 ==> (a + 1) % TWO64 == a + 1
    ensures Increasing(es, a) ==> Increasing(es, a + 1)
  {
  }

  lemma NoneLogged<C(!new)>(codec: Codec<C>)
    ensures AllCarry(codec, []) && Increasing([], 0)
  {
  }

  lemma IncreasingAppend(es: seq<Element>, e: Element)
    requires Increasing(es, e.lsn - 1)
    ensures Increasing(es + [e], e.lsn)
  {
  }

  lemma FramesAppend<C(!new)>(codec: Codec<C>, es: seq<Element>, e: Element)
    requires AllCarry(codec, es) && Carries(codec, e)
    ensures Frames(codec, es + [e]) == Frames(codec, es) + Frame(codec, codec.marshalElement(e))
    ensures AllCarry(codec, es + [e])
  {
    hide Frame, Carries;
    assert (es + [e])[..|es|] == es;
  }

  /** Writes v as four bytes, low byte first. */
  method PutUint32(buf: array<byte>, lo: nat, v: nat)
    requires lo + 4 <= buf.Length
    modifies buf
    ensures forall i :: 0 <= i < 4 ==> buf[lo + i] == LittleEndian(v, 4)[i]
    ensures forall i :: 0 <= i < lo || lo + 4 <= i < buf.Length ==> buf[i] == old(buf[i])
  {
    hide Shr;
    buf[lo], buf[lo + 1] := Shr(v, 0) % 256, Shr(v, 8) % 256;
    buf[lo + 2], buf[lo + 3] := Shr(v, 16) % 256, Shr(v, 24) % 256;
    forall i | 0 <= i < 4 {
      LittleEndianAt(v, 4, i);
    }
  }

  lemma FrameFromParts(bytes: Str, crc: Str, size: Str, data: Str)
    requires |crc| == |size| == 4 && |bytes| == HEADER + |data|
    requires forall i :: 0 <= i < 4 ==> bytes[i] == crc[i] && bytes[4 + i] == size[i]
    requires forall i :: 0 <= i < |data| ==> bytes[HEADER + i] == data[i]
    ensures bytes == crc + size + data
  {
  }

  class Wal<C(!new)> {
    const codec: Codec<C>
    const maxSegmentSizeBytes: nat // a uint32, in whole megabytes
    const bb: array<byte> // holds one frame before it is written
    var csIdx: nat
    var csSize: nat // a uint32
    var lsn: nat // a uint64
    var segments: seq<Str> // what was written to each segment, buffered or not
    ghost var disk: Layout // the elements in each segment, and how many are on disk for certain
    ghost var attempts: nat // how often LogCommand has been called

    ghost predicate Valid()
      reads this
    {
      && Sound(codec) && bb.Length == BUFFER
      && maxSegmentSizeBytes % 0x10_0000 == 0 && maxSegmentSizeBytes < TWO32
      && disk.Shaped() && |segments| == |disk.entries| == csIdx + 1
      && (forall i :: 0 <= i <= csIdx ==>
            segments[i] == Frames(codec, disk.entries[i]) && AllCarry(codec, disk.entries[i]))
      && csSize == |segments[csIdx]|
      && csSize <= (if maxSegmentSizeBytes < BUFFER then BUFFER else maxSegmentSizeBytes)
      && lsn == attempts % TWO64
      && (attempts < TWO64 ==> Increasing(Logged(), attempts))
    }

    /** Everything logged, in order. */
    ghost function Logged(): seq<Element>
      reads this
    {
      Concat(disk.entries)
    }

    constructor (codec: Codec<C>, maxSegmentSizeMB: nat)
      requires Sound(codec)
      ensures Valid() && disk == NOTHING && attempts == 0 && this.codec == codec && fresh(bb)
      ensures maxSegmentSizeBytes == SegmentLimit(maxSegmentSizeMB)
    {
      hide Sound, AllCarry, Concat, Frames, Increasing, SegmentLimit;
      NoFrames(codec);
      NothingLogged();
      NoneLogged(codec);
      LimitIs(maxSegmentSizeMB);
      this.codec := codec;
      maxSegmentSizeBytes := SegmentLimit(maxSegmentSizeMB);
      bb := new byte[BUFFER](_ => 0);
      csIdx, csSize, lsn, segments := 0, 0, 0, [[]];
      disk, attempts := NOTHING, 0;
    }

    /** Flushes the buffer and syncs the file. */
    method Sync()
      requires Valid()
      modifies this`disk
      ensures Valid() && disk == old(disk).Synced()
      ensures Logged() == old(Logged()) && disk.Durable() == |Logged()|
    {
      hide Sound, AllCarry, Concat, Frames, Increasing;
      SyncedKeeps(disk);
      disk := disk.Synced();
    }

    method RotateLog()
      requires Valid()
      modifies this`disk, this`csIdx, this`csSize, this`segments
      ensures Valid() && disk == old(disk).Rotated()
      ensures Logged() == old(Logged()) && disk.Durable() == |Logged()|
      ensures csSize == 0 && csIdx == old(csIdx) + 1
    {
      hide Sound, AllCarry, Frames, Increasing, Concat;
      NoFrames(codec);
      NoneLogged(codec);
      RotatedKeeps(disk);
      Sync();
      csIdx := csIdx + 1;
      segments := segments + [[]];
      csSize := 0;
      disk := disk.Rotated();
    }

    /** Starts a new segment exactly when the frame would take the current one past its limit. */
    method RotateLogIfNeeded(entrySize: nat)
      requires Valid()
      modifies this`disk, this`csIdx, this`csSize, this`segments
      ensures Valid() && Logged() == old(Logged())
      ensures disk == old(disk).Space(codec, maxSegmentSizeBytes, entrySize)
      ensures 0 < entrySize <= BUFFER ==>
                csSize + entrySize <= if maxSegmentSizeBytes < BUFFER then BUFFER else maxSegmentSizeBytes
    {
      hide Sound, AllCarry, Concat, Frames, Increasing;
      if (csSize + entrySize) % TWO32 > maxSegmentSizeBytes {
        RotateLog();
      }
    }

    /** Puts the frame of the data into the buffer. */
    method FillBuffer(data: Str)
      requires bb.Length == BUFFER && HEADER + |data| <= BUFFER
      modifies bb
      ensures bb[..HEADER + |data|] == Frame(codec, data)
    {
      hide LittleEndian;
      ghost var crc, size := LittleEndian(codec.checksum(data), 4), LittleEndian(|data|, 4);
      PutUint32(bb, 0, codec.checksum(data));
      PutUint32(bb, 4, |data|);
      forall i | 0 <= i < |data| {
        bb[HEADER + i] := data[i];
      }
      FrameFromParts(bb[..HEADER + |data|], crc, size, data);
    }

    lemma CommandCarried(c: C, e: Element)
      requires Sound(codec) && e.payload == codec.marshalCommand(c)
      ensures Carries(codec, e) <==> Fits(codec, e)
    {
    }

    /** Writes the frame of an element to the current segment. */
    method WriteFrame(el: Element, data: Str)
      requires Valid() && data == codec.marshalElement(el) && Carries(codec, el) && Fits(codec, el)
      requires csSize + HEADER + |data| <= if maxSegmentSizeBytes < BUFFER then BUFFER else maxSegmentSizeBytes
      requires attempts < TWO64 ==> Increasing(Logged(), el.lsn - 1) && el.lsn == attempts
      modifies bb, this`csSize, this`segments, this`disk
      ensures Valid() && disk == old(disk).With(el) && Logged() == old(Logged()) + [el]
    {
      hide Sound, Carries, Concat, Frames, Frame, Increasing, AllCarry;
      FillBuffer(data);
      FramesAppend(codec, disk.Last(), el);
      WithKeeps(disk, el);
      if attempts < TWO64 {
        IncreasingAppend(Logged(), el);
      }
      segments := segments[csIdx := segments[csIdx] + bb[..HEADER + |data|]];
      csSize := (csSize + HEADER + |data|) % TWO32;
      disk := disk.With(el);
    }

    /** Appends one frame, after a rotation if there is no space; false stands for the panic on a
        frame that does not fit the buffer, which comes after the rotation. */
    method LogCommand(c: C, now: int) returns (ok: bool)
      requires Valid()
      modifies this, bb
      ensures Valid() && lsn == (old(lsn) + 1) % TWO64 && attempts == old(attempts) + 1
      ensures var e := Element(lsn, now, codec.marshalCommand(c));
              && ok == Fits(codec, e)
              && disk == old(disk).Log(codec, maxSegmentSizeBytes, e)
              && Logged() == if ok then old(Logged()) + [e] else old(Logged())
    {
      hide Sound, Carries, Concat, Frames, Frame, Increasing, AllCarry;
      hide Layout.Space, Layout.With, Layout.Last, Layout.Closed, Layout.Shaped;
      var b := codec.marshalCommand(c);
      OneAttempt(attempts, Logged());
      lsn := (lsn + 1) % TWO64;
      attempts := attempts + 1;
      var el := Element(lsn, now, b);
      var data := codec.marshalElement(el);
      var entrySize := (HEADER + |data|) % TWO32;
      RotateLogIfNeeded(entrySize);
      if entrySize > bb.Length || HEADER + |data| > bb.Length {
        return false;
      }
      CommandCarried(c, el);
      WriteFrame(el, data);
      ok := true;
    }

    // ---------- crash and replay ----------

    /** What a crash leaves on disk: the closed segments, which were synced when they were
        closed, and any part of the current one that holds what was synced. */
    ghost function AfterCrash(cut: nat): seq<Str>
      requires Valid() && cut <= |segments[csIdx]|
      reads this
    {
      segments[..csIdx] + [segments[csIdx][..cut]]
    }

    /** Replay in segment order delivers exactly the commands whose whole frames the crash left:
        the first ones logged, each once and in order, at least all that were synced; it ends
        without an error exactly when the crash cut between two frames. */
    lemma CrashSafe(cut: nat)
      requires Valid() && disk.Safe(codec) <= cut <= |segments[csIdx]|
      ensures var m := disk.Kept(codec, cut);
              && disk.Durable() <= m <= |Logged()| && AllCarry(codec, Logged()) && AllCarry(codec, Logged()[..m])
              && ReadAll(codec, AfterCrash(cut))
                 == (Commands(codec, Logged()[..m]), if AtBoundary(codec, disk.Last(), cut) then AtEnd else Failed)
    {
      hide Sound, Carries, Frames, Frame, ReadSegment, ReadAll, AllCarry, Increasing, Concat, AtBoundary, Whole;
      var closed, current := disk.Closed(), disk.Last();
      var k := ReadPrefix(codec, current, cut);
      WholeIs(codec, current, cut, k);
      BoundaryIs(codec, current, cut, k);
      KeptBounds(codec, disk, cut);
      ReadClosed(codec, closed, segments[..csIdx], segments[csIdx][..cut]);
      DurableIs(disk);
      assert Logged()[..|Concat(closed)| + k] == Concat(closed) + current[..k];
      PartCarries(codec, current, k);
      CommandsConcat(codec, Concat(closed), current[..k]);
      CommandsConcat(codec, Concat(closed), current);
    }

    /** Replay in the order the program reads the files, by name: while fewer than ten rotations
        have happened, it delivers the same. */
    lemma CrashSafeByName(cut: nat, order: seq<nat>)
      requires Valid() && disk.Safe(codec) <= cut <= |segments[csIdx]|
      requires csIdx < 10 && ByName(order, csIdx + 1)
      ensures order == UpTo(csIdx + 1)
      ensures var m := disk.Kept(codec, cut);
              && disk.Durable() <= m <= |Logged()| && AllCarry(codec, Logged()) && AllCarry(codec, Logged()[..m])
              && ReadAll(codec, Picked(AfterCrash(cut), order))
                 == (Commands(codec, Logged()[..m]), if AtBoundary(codec, disk.Last(), cut) then AtEnd else Failed)
    {
      hide Sound, Carries, Frames, Frame, ReadAll, AllCarry, Increasing, Concat, AtBoundary, ByName, Whole;
      CrashSafe(cut);
      NameOrderIsNumberOrder(order, csIdx + 1);
      assert Picked(AfterCrash(cut), order) == AfterCrash(cut);
    }
  }

  /** The read loop over one segment. */
  method ReplaySegment<C(!new)>(codec: Codec<C>, segment: Str) returns (delivered: seq<C>, ending: Ending)
    ensures (delivered, ending) == ReadSegment(codec, segment)
  {
    hide ReadFrame;
    delivered := [];
    var pos: nat := 0;
    assert segment[0..] == segment && [] + ReadSegment(codec, segment).0 == ReadSegment(codec, segment).0;
    while true
      invariant pos <= |segment|
      invariant ReadSegment(codec, segment).0 == delivered + ReadSegment(codec, segment[pos..]).0
      invariant ReadSegment(codec, segment).1 == ReadSegment(codec, segment[pos..]).1
      decreases |segment| - pos
    {
      var step := ReadFrame(codec, segment[pos..]);
      if step.Stop? {
        assert delivered + [] == delivered;
        return delivered, step.ending;
      }
      ghost var rest := ReadSegment(codec, segment[pos + step.size..]).0;
      assert segment[pos..][step.size..] == segment[pos + step.size..];
      assert delivered + ([step.command] + rest) == delivered + [step.command] + rest;
      delivered := delivered + [step.command];
      pos := pos + step.size;
    }
  }

  /** Reads the segments in the given order and hands over each command. */
  method ReplayCommand<C(!new)>(codec: Codec<C>, segments: seq<Str>) returns (delivered: seq<C>, ending: Ending)
    ensures (delivered, ending) == ReadAll(codec, segments)
  {
    hide ReadFrame, ReadSegment;
    delivered := [];
    assert segments[0..] == segments && [] + ReadAll(codec, segments).0 == ReadAll(codec, segments).0;
    for i := 0 to |segments|
      invariant ReadAll(codec, segments).0 == delivered + ReadAll(codec, segments[i..]).0
      invariant ReadAll(codec, segments).1 == ReadAll(codec, segments[i..]).1
    {
      assert segments[i..][0] == segments[i] && segments[i..][1..] == segments[i + 1..];
      var commands;
      commands, ending := ReplaySegment(codec, segments[i]);
      ghost var rest := ReadAll(codec, segments[i + 1..]).0;
      assert delivered + (commands + rest) == delivered + commands + rest;
      delivered := delivered + commands;
      if ending != AtEnd {
        return;
      }
    }
    assert segments[|segments|..] == [] && delivered + [] == delivered;
    ending := AtEnd;
  }

  datatype LogStep<C> = Log(command: C, now: int) | SyncBuffer | RotateSegment

  /** What a run amounts to: the commands attempted, the elements logged, how many of those came
      before the last sync or rotation that was asked for, and the layout on disk. */
  datatype History = History(attempts: nat, logged: seq<Element>, synced: nat, disk: Layout)

  /** A run with segments of at most so many megabytes. */
  function HistoryOf<C>(codec: Codec<C>, megabytes: nat, steps: seq<LogStep<C>>): (h: History)
    ensures h.synced <= |h.logged| && h.disk.Shaped()
  {
    if steps == [] then History(0, [], 0, NOTHING)
    else
      var n := |steps| - 1;
      NextHistory(codec, SegmentLimit(megabytes), HistoryOf(codec, megabytes, steps[..n]), steps[n])
  }

  function NextHistory<C>(codec: Codec<C>, limit: nat, h: History, step: LogStep<C>): (h': History)
    requires h.synced <= |h.logged| && h.disk.Shaped()
    ensures h'.synced <= |h'.logged| && h'.disk.Shaped()
  {
    match step
    case Log(command, now) =>
      var e := Element((h.attempts + 1) % TWO64, now, codec.marshalCommand(command));
      var logged := if Fits(codec, e) then h.logged + [e] else h.logged;
      History(h.attempts + 1, logged, h.synced, h.disk.Log(codec, limit, e))
    case SyncBuffer => History(h.attempts, h.logged, |h.logged|, h.disk.Synced())
    case RotateSegment => History(h.attempts, h.logged, |h.logged|, h.disk.Rotated())
  }

  lemma HistoryStep<C>(codec: Codec<C>, megabytes: nat, steps: seq<LogStep<C>>, i: nat)
    requires i < |steps|
    ensures HistoryOf(codec, megabytes, steps[..i + 1])
            == NextHistory(codec, SegmentLimit(megabytes), HistoryOf(codec, megabytes, steps[..i]), steps[i])
  {
    hide NextHistory;
    assert steps[..i + 1][..i] == steps[..i];
  }

  lemma NoHistory<C>(codec: Codec<C>, megabytes: nat)
    ensures HistoryOf(codec, megabytes, []) == History(0, [], 0, NOTHING)
  {
  }

  /** However the segments were rotated, they hold what was logged, in order, and what the run
      asked to be synced is durable. */
  lemma {:induction false} HistoryAgrees<C>(codec: Codec<C>, megabytes: nat, steps: seq<LogStep<C>>)
    ensures var h := HistoryOf(codec, megabytes, steps);
            Concat(h.disk.entries) == h.logged && h.synced <= h.disk.Durable()
  {
    hide Fits, Concat, Layout.Log, Layout.Synced, Layout.Rotated, Layout.Durable, HistoryOf;
    if steps == [] {
      NoHistory(codec, megabytes);
      NothingLogged();
    } else {
      var n := |steps| - 1;
      HistoryAgrees(codec, megabytes, steps[..n]);
      assert steps[..n + 1] == steps;
      HistoryStep(codec, megabytes, steps, n);
      var h := HistoryOf(codec, megabytes, steps[..n]);
      SyncedKeeps(h.disk);
      RotatedKeeps(h.disk);
      match steps[n]
      case Log(command, now) =>
        var e := Element((h.attempts + 1) % TWO64, now, codec.marshalCommand(command));
        LogKeeps(codec, SegmentLimit(megabytes), h.disk, e);
      case _ =>
    }
  }

  // ---------- what stays on disk ----------

  /** What is on disk stays there. */
  lemma {:induction false} DurableStays<C>(codec: Codec<C>, megabytes: nat, steps: seq<LogStep<C>>, i: nat)
    requires i <= |steps|
    ensures HistoryOf(codec, megabytes, steps[..i]).disk.Durable() <= HistoryOf(codec, megabytes, steps).disk.Durable()
    decreases |steps|
  {
    hide HistoryOf, Layout.Durable, Concat;
    if i == |steps| {
      assert steps[..i] == steps;
    } else {
      var n := |steps| - 1;
      DurableStays(codec, megabytes, steps[..n], i);
      assert steps[..n][..i] == steps[..i] && steps[..n + 1] == steps;
      HistoryStep(codec, megabytes, steps, n);
      StepDurable(codec, SegmentLimit(megabytes), HistoryOf(codec, megabytes, steps[..n]), steps[n]);
    }
  }

  lemma StepDurable<C>(codec: Codec<C>, limit: nat, h: History, step: LogStep<C>)
    requires h.synced <= |h.logged| && h.disk.Shaped()
    ensures var h' := NextHistory(codec, limit, h, step);
            && h.disk.Durable() <= h'.disk.Durable()
            && (!step.Log? ==> h'.disk.Durable() == |Concat(h.disk.entries)|)
  {
    hide Fits, Concat, Layout.Log, Layout.Synced, Layout.Rotated, Layout.Durable;
    SyncedKeeps(h.disk);
    RotatedKeeps(h.disk);
    DurableIs(h.disk);
    match step
    case Log(command, now) =>
      LogKeeps(codec, limit, h.disk, Element((h.attempts + 1) % TWO64, now, codec.marshalCommand(command)));
    case _ =>
  }

  /** Everything logged before a sync or a rotation is on disk from then on. */
  lemma SyncedStays<C>(codec: Codec<C>, megabytes: nat, steps: seq<LogStep<C>>, i: nat)
    requires i < |steps| && !steps[i].Log?
    ensures |HistoryOf(codec, megabytes, steps[..i]).logged| <= HistoryOf(codec, megabytes, steps).disk.Durable()
  {
    hide HistoryOf, Layout.Durable, Concat, NextHistory;
    HistoryAgrees(codec, megabytes, steps[..i]);
    HistoryStep(codec, megabytes, steps, i);
    StepDurable(codec, SegmentLimit(megabytes), HistoryOf(codec, megabytes, steps[..i]), steps[i]);
    DurableStays(codec, megabytes, steps, i + 1);
  }

  // ---------- when a segment is closed ----------

  /** The element that the next attempt logs, after so many. */
  function ElementOf<C>(codec: Codec<C>, attempts: nat, c: C, now: int): Element {
    Element((attempts + 1) % 0x1_0000_0000_0000_0000, now, codec.marshalCommand(c))
  }

  /** The length of the frame of an element. */
  function FrameLength<C>(codec: Codec<C>, e: Element): nat {
    8 + |codec.marshalElement(e)|
  }

  /** The last segment never outgrows the limit, or the buffer where that is larger. */
  lemma {:induction false} LastWithin<C>(codec: Codec<C>, megabytes: nat, steps: seq<LogStep<C>>)
    ensures var size := |Frames(codec, HistoryOf(codec, megabytes, steps).disk.Last())|;
            size <= WithBuffer(megabytes % 4096 * 0x10_0000)
  {
    hide HistoryOf, NextHistory, Frames, Layout.Last, SegmentLimit;
    NoBytes(codec);
    if steps == [] {
      NoHistory(codec, megabytes);
      NothingLogged();
    } else {
      var n := |steps| - 1;
      LastWithin(codec, megabytes, steps[..n]);
      assert steps[..n + 1] == steps;
      HistoryStep(codec, megabytes, steps, n);
      LimitIs(megabytes);
      StepWithin(codec, SegmentLimit(megabytes), HistoryOf(codec, megabytes, steps[..n]), steps[n]);
    }
  }

  /** What a segment can grow to. */
  function WithBuffer(limit: nat): nat {
    if limit < 10240 then 10240 else limit
  }

  lemma StepWithin<C>(codec: Codec<C>, limit: nat, h: History, step: LogStep<C>)
    requires h.synced <= |h.logged| && h.disk.Shaped() && limit % 0x10_0000 == 0 && limit < TWO32
    requires |Frames(codec, h.disk.Last())| <= WithBuffer(limit)
    ensures |Frames(codec, NextHistory(codec, limit, h, step).disk.Last())| <= WithBuffer(limit)
  {
    hide Frames;
    NoBytes(codec);
    match step
    case Log(command, now) => LastGrows(codec, h.disk.Last(), ElementOf(codec, h.attempts, command, now));
    case _ =>
  }

  lemma LastGrows<C>(codec: Codec<C>, es: seq<Element>, e: Element)
    ensures |Frames(codec, es + [e])| == |Frames(codec, es)| + FrameLength(codec, e)
    ensures |Frames(codec, [] + [e])| == FrameLength(codec, e)
  {
    assert (es + [e])[..|es|] == es;
    assert ([] + [e])[..0] == [];
    NoBytes(codec);
  }

  /** A command closes a segment exactly when its frame would take it past the limit in megabytes;
      the frame then goes to the next one, if it fits the buffer. */
  lemma ClosesExactly<C>(codec: Codec<C>, megabytes: nat, steps: seq<LogStep<C>>, i: nat)
    requires i < |steps| && steps[i].Log?
    ensures var h, h' := HistoryOf(codec, megabytes, steps[..i]), HistoryOf(codec, megabytes, steps[..i + 1]);
            var e := ElementOf(codec, h.attempts, steps[i].command, steps[i].now);
            var entries, size := h.disk.entries, |Frames(codec, h.disk.Last())| + FrameLength(codec, e);
            && (FrameLength(codec, e) <= 10240 ==>
                  h'.disk.entries == if megabytes % 4096 * 0x10_0000 < size then entries + [[e]]
                                     else entries[|entries| - 1 := entries[|entries| - 1] + [e]])
            && (FrameLength(codec, e) > 10240 && size < 0x1_0000_0000 ==>
                  h'.disk.entries == if megabytes % 4096 * 0x10_0000 < size then entries + [[]] else entries)
  {
    hide HistoryOf, Frames;
    HistoryStep(codec, megabytes, steps, i);
    LimitIs(megabytes);
    LastWithin(codec, megabytes, steps[..i]);
    var h := HistoryOf(codec, megabytes, steps[..i]);
    WithEntries(h.disk, ElementOf(codec, h.attempts, steps[i].command, steps[i].now));
  }

  /** What the commands of a run take as frames. */
  function BytesOf<C>(codec: Codec<C>, steps: seq<LogStep<C>>): nat {
    if steps == [] then 0
    else
      var n := |steps| - 1;
      BytesOf(codec, steps[..n])
      + match steps[n]
        case Log(command, now) => FrameLength(codec, ElementOf(codec, Attempts(steps[..n]), command, now))
        case _ => 0
  }

  /** How many commands a run tries to log. */
  function Attempts<C>(steps: seq<LogStep<C>>): nat {
    if steps == [] then 0 else Attempts(steps[..|steps| - 1]) + if steps[|steps| - 1].Log? then 1 else 0
  }

  /** While everything fits the limit and no rotation is asked for, there is one segment. */
  lemma {:induction false} OneSegment<C>(codec: Codec<C>, megabytes: nat, steps: seq<LogStep<C>>)
    requires megabytes < 4096 && BytesOf(codec, steps) <= megabytes * 0x10_0000
    requires forall i :: 0 <= i < |steps| ==> !steps[i].RotateSegment?
    ensures var h := HistoryOf(codec, megabytes, steps);
            && h.attempts == Attempts(steps) && h.disk.entries == [h.logged]
            && |Frames(codec, h.logged)| <= BytesOf(codec, steps)
  {
    hide HistoryOf, Frames;
    NoBytes(codec);
    if steps == [] {
      NoHistory(codec, megabytes);
    } else {
      var n := |steps| - 1;
      OneSegment(codec, megabytes, steps[..n]);
      assert steps[..n + 1] == steps;
      HistoryStep(codec, megabytes, steps, n);
      var h := HistoryOf(codec, megabytes, steps[..n]);
      match steps[n]
      case Log(command, now) =>
        ClosesExactly(codec, megabytes, steps, n);
        LastGrows(codec, h.logged, ElementOf(codec, h.attempts, command, now));
      case _ =>
    }
  }

  /** A run of logging, syncing and rotating from the start leaves exactly the segments, and syncs
      exactly as much of them, as its steps and the size limit determine. */
  method RunLog<C(!new)>(codec: Codec<C>, maxSegmentSizeMB: nat, steps: seq<LogStep<C>>) returns (wal: Wal<C>)
    requires Sound(codec)
    ensures fresh(wal) && wal.Valid() && wal.codec == codec
    ensures var h := HistoryOf(codec, maxSegmentSizeMB, steps);
            wal.disk == h.disk && wal.Logged() == h.logged && h.synced <= wal.disk.Durable()
  {
    hide Sound, AllCarry, Frames, Concat, Increasing, Frame, Carries, Fits, HistoryOf;
    hide Layout.Log, Layout.Synced, Layout.Rotated, Layout.Durable, Layout.Last, Layout.Closed, Layout.Shaped;
    wal := new Wal(codec, maxSegmentSizeMB);
    NoHistory(codec, maxSegmentSizeMB);
    assert steps[..0] == [];
    for i := 0 to |steps|
      invariant fresh(wal) && fresh(wal.bb) && wal.Valid()
      invariant wal.codec == codec && wal.maxSegmentSizeBytes == SegmentLimit(maxSegmentSizeMB)
      invariant var h := HistoryOf(codec, maxSegmentSizeMB, steps[..i]);
                wal.attempts == h.attempts && wal.disk == h.disk
    {
      HistoryStep(codec, maxSegmentSizeMB, steps, i);
      OneAttempt(wal.attempts, []);
      match steps[i] {
        case Log(command, now) =>
          var ok := wal.LogCommand(command, now);
        case SyncBuffer => wal.Sync();
        case RotateSegment => wal.RotateLog();
      }
    }
    assert steps[..|steps|] == steps;
    HistoryAgrees(codec, maxSegmentSizeMB, steps);
  }

  /** Any run from the start, a crash that leaves any `cut` bytes of the last segment that hold
      what was synced of it, and the replay of what is on disk: exactly the commands whose whole
      frames are left, which are the first ones logged, with all that the run synced. */
  method RunCrashReplay<C(!new)>(codec: Codec<C>, maxSegmentSizeMB: nat, steps: seq<LogStep<C>>, cut: nat)
    returns (delivered: seq<C>, ending: Ending)
    requires Sound(codec)
    requires var disk := HistoryOf(codec, maxSegmentSizeMB, steps).disk;
             disk.Safe(codec) <= cut <= |Frames(codec, disk.Last())|
    ensures var h := HistoryOf(codec, maxSegmentSizeMB, steps);
            && Concat(h.disk.entries) == h.logged && AllCarry(codec, h.logged)
            && var m := h.disk.Kept(codec, cut);
               && h.synced <= h.disk.Durable() <= m <= |h.logged|
               && delivered == Commands(codec, h.logged)[..m]
               && (forall i :: 0 <= i < |steps| && !steps[i].Log? ==>
                     |HistoryOf(codec, maxSegmentSizeMB, steps[..i]).logged| <= |delivered|)
               && ending == if AtBoundary(codec, h.disk.Last(), cut) then AtEnd else Failed
  {
    hide Sound, AllCarry, Frames, ReadAll, AtBoundary, Concat, Increasing, Frame, Carries, HistoryOf, Whole;
    HistoryAgrees(codec, maxSegmentSizeMB, steps);
    var wal := RunLog(codec, maxSegmentSizeMB, steps);
    var disk := wal.segments[..wal.csIdx] + [wal.segments[wal.csIdx][..cut]];
    delivered, ending := ReplayCommand(codec, disk);
    wal.CrashSafe(cut);
    FirstCommands(codec, wal.Logged(), wal.disk.Kept(codec, cut));
    forall i | 0 <= i < |steps| && !steps[i].Log?
      ensures |HistoryOf(codec, maxSegmentSizeMB, steps[..i]).logged| <= |delivered|
    {
      SyncedStays(codec, maxSegmentSizeMB, steps, i);
    }
  }

  lemma FirstCommands<C(!new)>(codec: Codec<C>, es: seq<Element>, m: nat)
    requires AllCarry(codec, es) && m <= |es|
    ensures AllCarry(codec, es[..m]) && Commands(codec, es[..m]) == Commands(codec, es)[..m]
  {
  }
}
