/** The two list types side by side: on every sequence of commands they give the answers
    that a plain sequence of byte strings gives. */
module Lockstep {
  import opened Options
  import opened Decimal
  import opened EntryCodec
  import opened Cells
  import opened Deques
  import opened ByteLists
  import opened DequeScan
  import DequeInsert
  import DequeBasics
  import opened ListSpec

  datatype Command =
    | LPush(x: Str)
    | RPush(x: Str)
    | LPop
    | RPop
    | LInsert(pivot: Str, x: Str, where: string)
    | LRange(start: int, stop: int)
  {
    predicate Stores() {
      LPush? || RPush? || LInsert?
    }

    /** What both list types can hold: not a number of 21 or more characters. */
    predicate InDomain() {
      Stores() ==> Encodable(x) && !LongNumber(x)
    }

    /** Entries of at most 257 bytes never meet the limits of Deque. */
    predicate Short() {
      Stores() ==> GetEncodeDeqEntrySize(x) <= 257
    }

    /** Whether the command puts an element in front of all others. */
    predicate PushesFront(values: seq<Str>) {
      LPush? || (LInsert? && where == "before" && values != [] && values[0] == pivot)
    }
  }

  datatype Reply = Done | Popped(x: Option<Str>) | Placed(reply: InsertReply) | Listed(values: seq<Str>)

  /** The values after a command. */
  function After(values: seq<Str>, cmd: Command): seq<Str> {
    match cmd
    case LPush(x) => [Canon(x)] + values
    case RPush(x) => values + [Canon(x)]
    case LPop => if values == [] then [] else values[1..]
    case RPop => if values == [] then [] else values[..|values| - 1]
    case LInsert(pivot, x, where) => Inserted(values, pivot, Canon(x), where)
    case LRange(_, _) => values
  }

  /** The answer to a command. */
  function Answer(values: seq<Str>, cmd: Command): Reply {
    match cmd
    case LPush(_) => Done
    case RPush(_) => Done
    case LPop => Popped(if values == [] then None else Some(values[0]))
    case RPop => Popped(if values == [] then None else Some(values[|values| - 1]))
    case LInsert(pivot, _, where) => Placed(ReplyOf(values, pivot, where))
    case LRange(start, stop) => Listed(Range(values, start, stop))
  }

  /** The values after a run from the empty list. */
  function ValuesAfter(cmds: seq<Command>): seq<Str> {
    if cmds == [] then [] else After(ValuesAfter(cmds[..|cmds| - 1]), cmds[|cmds| - 1])
  }

  /** The answers of a run from the empty list. */
  function Answers(cmds: seq<Command>): seq<Reply> {
    if cmds == [] then []
    else
      var before := cmds[..|cmds| - 1];
      Answers(before) + [Answer(ValuesAfter(before), cmds[|cmds| - 1])]
  }

  ghost predicate Clean(cells: seq<Cell>) {
    forall i :: 0 <= i < |cells| ==> cells[i].pad == 0
  }

  /** The two places where Deque goes wrong: a push to the front for which it asks for too
      little capacity, and a pop from the right of an entry with a dirty pad. */
  ghost predicate Stuck(l: Layout, cmd: Command) {
    var cells := Flatten(l.chunks);
    || (cmd.PushesFront(Values(cells)) && 256 < l.leftIdx < GetEncodeDeqEntrySize(cmd.x))
    || (cmd.RPop? && cells != [] && cells[|cells| - 1].pad != 0)
  }

  ghost predicate StoredAs(c: Cell, x: Str) {
    c.Ok() && c.x == Canon(x)
  }

  ghost predicate FrontPushed(l: Layout, size: nat, l': Layout, c: Cell) {
    && PushedLeft(l.chunks, l.leftIdx, size, l'.chunks, l'.leftIdx, c)
    && SparePushedLeft(l.chunks, l.leftIdx, l.spare, size, l'.spare)
  }

  ghost predicate BackPushed(l: Layout, size: nat, l': Layout, c: Cell) {
    l'.leftIdx == l.leftIdx && SparePushedRight(l.chunks, l.spare, size, l'.chunks, l'.spare, c)
  }

  ghost predicate FrontPopped(l: Layout, l': Layout) {
    && l.chunks != [] && l.chunks[0] != []
    && PoppedLeft(l.chunks, l.leftIdx, l'.chunks, l'.leftIdx)
    && SparePoppedLeft(l.chunks, l.spare, l'.spare)
  }

  ghost predicate BackPopped(l: Layout, l': Layout) {
    && l.chunks != [] && l.chunks[|l.chunks| - 1] != []
    && PoppedRight(l.chunks, l.leftIdx, l'.chunks, l'.leftIdx)
    && SparePoppedRight(l.chunks, l.leftIdx, l.spare, l'.spare)
  }

  /** What a command makes of the layout.  Open is only what the runtime decides, the capacity of
      a buffer that append makes, and what a reused byte held. */
  ghost predicate Becomes(l: Layout, cmd: Command, l': Layout) {
    match cmd
    case LPush(x) => exists c :: StoredAs(c, x) && FrontPushed(l, GetEncodeDeqEntrySize(x), l', c)
    case RPush(x) => exists c :: StoredAs(c, x) && BackPushed(l, GetEncodeDeqEntrySize(x), l', c)
    case LPop => if Flatten(l.chunks) == [] then l' == l else FrontPopped(l, l')
    case RPop => if Flatten(l.chunks) == [] then l' == l else BackPopped(l, l')
    case LInsert(pivot, x, where) =>
      var values := Values(Flatten(l.chunks));
      if ReplyOf(values, pivot, where).length == -1 then l' == l
      else
        && pivot in values
        && exists c, k: nat, j: nat, s ::
             && StoredAs(c, x)
             && DequeInsert.Placed(l, where, k, j, GetEncodeDeqEntrySize(x), l', c, s)
             && |Flatten(l.chunks[..k])| + j == IndexOf(values, pivot)
    case LRange(_, _) => l' == l
  }

  const NOTHING: Layout := Layout([], 0, [])

  /** What is stored for a short element has no dirty pad. */
  lemma StoredClean(x: Str, c: Cell)
    requires Encodable(x) && !LongNumber(x)
    requires c.Ok() && c.x == Canon(x)
    ensures GetEncodeDeqEntrySize(x) <= 257 ==> c.pad == 0
  {
    hide EntryData, Canon, LongNumber, Encodable, GetEncodeDeqEntrySize;
    CanonStable(x);
    SizeIsLength(x, 0);
  }

  lemma Empty(q: Deque)
    requires q.list.nodes == [] && q.Contents() == [] && q.chunks == [] && q.leftIdx == 0
    ensures ArraysOf(q.list.nodes) == {} && Clean(q.Contents()) && LayoutOf(q) == NOTHING
  {
  }

  lemma ShapeOf(q: Deque)
    requires q.Valid()
    ensures q.Shape()
  {
  }

  lemma ContentsIs(q: Deque)
    ensures q.Contents() == Flatten(q.chunks)
  {
  }

  lemma NotStuck(q: Deque, cmd: Command)
    ensures !Stuck(LayoutOf(q), cmd) <==>
              && (cmd.PushesFront(Values(q.Contents())) ==> q.LPushFits(cmd.x))
              && (cmd.RPop? && q.Contents() != [] ==> q.Contents()[|q.Contents()| - 1].pad == 0)
  {
  }

  lemma BecomesPushedLeft(l: Layout, x: Str, l': Layout, c: Cell)
    requires c.Ok() && c.x == Canon(x)
    requires PushedLeft(l.chunks, l.leftIdx, GetEncodeDeqEntrySize(x), l'.chunks, l'.leftIdx, c)
    requires SparePushedLeft(l.chunks, l.leftIdx, l.spare, GetEncodeDeqEntrySize(x), l'.spare)
    ensures Becomes(l, LPush(x), l')
  {
    hide PushedLeft, SparePushedLeft, GetEncodeDeqEntrySize;
    assert StoredAs(c, x) && FrontPushed(l, GetEncodeDeqEntrySize(x), l', c);
  }

  lemma BecomesPushedRight(l: Layout, x: Str, l': Layout, c: Cell)
    requires c.Ok() && c.x == Canon(x) && l'.leftIdx == l.leftIdx
    requires SparePushedRight(l.chunks, l.spare, GetEncodeDeqEntrySize(x), l'.chunks, l'.spare, c)
    ensures Becomes(l, RPush(x), l')
  {
    hide SparePushedRight, GetEncodeDeqEntrySize;
    assert StoredAs(c, x) && BackPushed(l, GetEncodeDeqEntrySize(x), l', c);
  }

  lemma BecomesPoppedLeft(l: Layout, l': Layout)
    requires if Flatten(l.chunks) == [] then l' == l
             else
               && l.chunks != [] && l.chunks[0] != []
               && PoppedLeft(l.chunks, l.leftIdx, l'.chunks, l'.leftIdx)
               && SparePoppedLeft(l.chunks, l.spare, l'.spare)
    ensures Becomes(l, LPop, l')
  {
    hide Flatten, PoppedLeft, SparePoppedLeft;
  }

  lemma BecomesPoppedRight(l: Layout, l': Layout)
    requires if Flatten(l.chunks) == [] then l' == l
             else
               && l.chunks != [] && l.chunks[|l.chunks| - 1] != []
               && PoppedRight(l.chunks, l.leftIdx, l'.chunks, l'.leftIdx)
               && SparePoppedRight(l.chunks, l.leftIdx, l.spare, l'.spare)
    ensures Becomes(l, RPop, l')
  {
    hide Flatten, PoppedRight, SparePoppedRight;
  }

  lemma BecomesPlaced(l: Layout, cmd: Command, l': Layout, c: Cell, k: nat, j: nat, s: int)
    requires cmd.LInsert? && c.Ok() && c.x == Canon(cmd.x) && cmd.pivot in Values(Flatten(l.chunks))
    requires DequeInsert.Placed(l, cmd.where, k, j, GetEncodeDeqEntrySize(cmd.x), l', c, s)
    requires |Flatten(l.chunks[..k])| + j == IndexOf(Values(Flatten(l.chunks)), cmd.pivot)
    requires ReplyOf(Values(Flatten(l.chunks)), cmd.pivot, cmd.where).length != -1
    ensures Becomes(l, cmd, l')
  {
    hide Cell.Ok, Canon, Flatten, Values, IndexOf, ReplyOf;
    assert StoredAs(c, cmd.x);
  }

  lemma BecomesItself(l: Layout, cmd: Command)
    requires cmd.LRange? || (cmd.LInsert? && ReplyOf(Values(Flatten(l.chunks)), cmd.pivot, cmd.where).length == -1)
    ensures Becomes(l, cmd, l)
  {
  }

  method ApplyDeque(q: Deque, cmd: Command) returns (r: Reply)
    requires q.Valid() && cmd.InDomain() && !Stuck(LayoutOf(q), cmd)
    modifies q, q.list, q.list.nodes, ArraysOf(q.list.nodes)
    ensures q.Valid()
    ensures old(Clean(q.Contents())) && cmd.Short() ==> Clean(q.Contents())
    ensures Values(q.Contents()) == old(After(Values(q.Contents()), cmd))
    ensures r == old(Answer(Values(q.Contents()), cmd))
    ensures Becomes(old(LayoutOf(q)), cmd, LayoutOf(q))
    ensures forall n :: n in q.list.nodes ==> n in old(q.list.nodes) || fresh(n)
    ensures forall a :: a in ArraysOf(q.list.nodes) ==> a in old(ArraysOf(q.list.nodes)) || fresh(a)
  {
    hide Deque.Valid, Deque.Contents, ArraysOf, Canon, EntryData, LongNumber, Encodable, GetEncodeDeqEntrySize,
         Cell.Ok, Range, Inserted, ReplyOf, Deque.Shape, Deque.LeftPad, Deque.RightPad, Deque.LPushFits,
         PushedLeft, PoppedLeft, PoppedRight, SparePushedLeft, SparePushedRight, SparePoppedLeft, SparePoppedRight,
         DequeInsert.Placed, Becomes, Stuck, IndexOf, SpareOf, Flatten;
    ShapeOf(q);
    ArraysAllocated(q.list.nodes);
    ContentsIs(q);
    NotStuck(q, cmd);
    ghost var l := LayoutOf(q);
    match cmd
    case LPush(x) =>
      ghost var c: Cell;
      var ok;
      ok, c := q.LPush(x);
      StoredClean(x, c);
      BecomesPushedLeft(l, x, LayoutOf(q), c);
      r := Done;
    case RPush(x) =>
      ghost var c := q.RPush(x);
      StoredClean(x, c);
      BecomesPushedRight(l, x, LayoutOf(q), c);
      r := Done;
    case LPop =>
      var v := q.LPop();
      BecomesPoppedLeft(l, LayoutOf(q));
      r := Popped(v);
    case RPop =>
      var v := q.RPop();
      BecomesPoppedRight(l, LayoutOf(q));
      r := Popped(v);
    case LInsert(pivot, x, where) =>
      var reply, at, c, k, j, s := DequeInsert.LInsert(q, pivot, x, where);
      if reply.length != -1 {
        StoredClean(x, c);
        BecomesPlaced(l, cmd, LayoutOf(q), c, k, j, s);
      } else {
        BecomesItself(l, cmd);
      }
      r := Placed(reply);
    case LRange(start, stop) =>
      var values := DequeScan.LRange(q, start, stop);
      BecomesItself(l, cmd);
      r := Listed(values);
  }

  method ApplyBasic(q: DequeBasics.DequeBasic, cmd: Command) returns (r: Reply)
    requires q.Valid() && (cmd.Stores() ==> Encodable(cmd.x))
    modifies q, q.arr
    ensures q.Valid() && q.Contents() == old(After(q.Contents(), cmd))
    ensures r == old(Answer(q.Contents(), cmd))
    ensures q.arr == old(q.arr) || fresh(q.arr)
  {
    hide DequeBasics.DequeBasic.Valid, DequeBasics.DequeBasic.Contents, Canon, Encodable, Range, Inserted, ReplyOf;
    match cmd
    case LPush(x) =>
      q.LPush(x);
      r := Done;
    case RPush(x) =>
      q.RPush(x);
      r := Done;
    case LPop =>
      var v := q.LPop();
      r := Popped(v);
    case RPop =>
      var v := q.RPop();
      r := Popped(v);
    case LInsert(pivot, x, where) =>
      var reply := DequeBasics.LInsert(q, pivot, x, where);
      r := Placed(reply);
    case LRange(start, stop) =>
      var values := DequeBasics.LRange(q, start, stop);
      r := Listed(values);
  }

  /** The first element tells whether a command pushes to the front. */
  lemma FirstOnly(values: seq<Str>, cmd: Command)
    ensures cmd.PushesFront(Range(values, 0, 0)) <==> cmd.PushesFront(values)
  {
    if values == [] {
      WithinNone(values, 0, 0);
    } else {
      RangeIsSlice(values, 0, 0);
    }
  }

  /** Whether a pop from the right would find the start of the last entry, whose element is x. */
  method FindsLast(q: Deque, x: Str) returns (finds: bool)
    requires q.Valid() && q.Contents() != [] && q.Contents()[|q.Contents()| - 1].x == x
    ensures finds <==> q.Contents()[|q.Contents()| - 1].pad == 0
  {
    hide ByteListNode.Holds, Apart, AllHold, ArraysOf, Packed, ByteList.Linked, Cell.Bytes, Cell.Ok, Cell.Stored,
         GetEncodeDeqEntrySize, EntryData, Flatten;
    LengthIs(q);
    q.NotDrained();
    ghost var front, rest, last := q.LastNode();
    var tail := q.list.tail;
    ghost var c := last[|last| - 1];
    HoldsLast(tail, if front == [] then q.leftIdx else 0, last);
    OkStored(c);
    SizeFits(c);
    var backlenStart, entryStart := LastStart(tail.Buf(), tail.Buf()[..tail.len - |c.Bytes()|], c);
    finds := entryStart == tail.len - GetEncodeDeqEntrySize(x);
  }

  /** Whether the deque would go wrong on a command, told from the values that b holds. */
  method IsStuck(q: Deque, b: DequeBasics.DequeBasic, cmd: Command) returns (stuck: bool)
    requires q.Valid() && b.Valid() && b.Contents() == Values(q.Contents()) && cmd.InDomain()
    ensures stuck <==> Stuck(LayoutOf(q), cmd)
  {
    hide Deque.Valid, Deque.Contents, ArraysOf, DequeBasics.DequeBasic.Valid, DequeBasics.DequeBasic.Contents, Range,
         GetEncodeDeqEntrySize, LongNumber, Encodable;
    ArraysAllocated(q.list.nodes);
    NotStuck(q, cmd);
    ghost var values := b.Contents();
    if cmd.RPop? {
      var last := DequeBasics.LRange(b, -1, -1);
      LastOnly(values);
      stuck := false;
      if last != [] {
        var finds := FindsLast(q, last[0]);
        stuck := !finds;
      }
    } else {
      var first := DequeBasics.LRange(b, 0, 0);
      FirstOnly(values, cmd);
      stuck := cmd.PushesFront(first) && !q.LPushFits(cmd.x);
    }
  }

  /** The last element, as LRANGE gives it. */
  lemma LastOnly(values: seq<Str>)
    ensures Range(values, -1, -1) == if values == [] then [] else [values[|values| - 1]]
  {
    RangeBetween(values, -1, -1);
  }

  /** A run of the deque from the empty one: how it was laid out before each command, and after
      the last; it never went wrong on the way, and held what the plain list holds. */
  ghost predicate Run(trace: seq<Layout>, cmds: seq<Command>) {
    && |trace| == |cmds| + 1 && trace[0] == NOTHING
    && forall i :: 0 <= i < |cmds| ==> !Stuck(trace[i], cmds[i]) && Becomes(trace[i], cmds[i], trace[i + 1])
  }

  lemma NoRun()
    ensures Run([NOTHING], []) && Flatten(NOTHING.chunks) == [] && ValuesAfter([]) == [] && Answers([]) == []
  {
  }

  lemma RunStep(trace: seq<Layout>, cmds: seq<Command>, cmd: Command, l: Layout)
    requires Run(trace, cmds) && !Stuck(trace[|cmds|], cmd) && Becomes(trace[|cmds|], cmd, l)
    ensures Run(trace + [l], cmds + [cmd])
  {
    hide Stuck, Becomes;
  }

  // ---------- the layouts of a run hold the values of the plain list ----------

  lemma PushedRightHolds(chunks: seq<seq<Cell>>, spare: seq<int>, size: nat, chunks': seq<seq<Cell>>, spare': seq<int>,
                         c: Cell)
    requires SparePushedRight(chunks, spare, size, chunks', spare', c)
    ensures Flatten(chunks') == Flatten(chunks) + [c]
  {
    hide Flatten;
    if chunks' == chunks + [[c]] {
      FlattenLast(chunks, [c]);
    } else {
      var n := |chunks| - 1;
      AppendLastParts(chunks[..n], chunks[n], c);
      assert chunks == chunks[..n] + [chunks[n]];
    }
  }

  lemma PushedLeftHolds(chunks: seq<seq<Cell>>, leftIdx: nat, size: nat, chunks': seq<seq<Cell>>, leftIdx': nat,
                        c: Cell)
    requires PushedLeft(chunks, leftIdx, size, chunks', leftIdx', c)
    ensures Flatten(chunks') == [c] + Flatten(chunks)
  {
    hide Flatten;
    if leftIdx > 0 {
      PrependFirstParts(chunks[0], chunks[1..], c);
      assert chunks == [chunks[0]] + chunks[1..];
    } else {
      FlattenFirst([c], chunks);
    }
  }

  lemma PoppedLeftHolds(l: Layout, l': Layout)
    requires FrontPopped(l, l')
    ensures Flatten(l.chunks) != [] && Flatten(l'.chunks) == Flatten(l.chunks)[1..]
  {
    hide Flatten, Cell.Bytes, SparePoppedLeft;
    var first, rest := l.chunks[0], l.chunks[1..];
    assert l.chunks == [first] + rest;
    FlattenFirst(first, rest);
    FlattenFirst(first[1..], rest);
    assert (first + Flatten(rest))[1..] == first[1..] + Flatten(rest);
  }

  lemma PoppedRightHolds(l: Layout, l': Layout)
    requires BackPopped(l, l')
    ensures Flatten(l.chunks) != [] && Flatten(l'.chunks) == Flatten(l.chunks)[..|Flatten(l.chunks)| - 1]
  {
    hide Flatten, Cell.Bytes, SparePoppedRight;
    var n := |l.chunks| - 1;
    var rest, last := l.chunks[..n], l.chunks[n];
    assert l.chunks == rest + [last];
    PoppedRightParts(rest, last, l.leftIdx);
    FlattenLast(rest, last[..|last| - 1]);
  }

  /** Where an element has been placed, seen from the elements alone. */
  lemma PlacedHolds(l: Layout, where: string, k: nat, j: nat, size: nat, l': Layout, c: Cell, s: int)
    requires DequeInsert.Placed(l, where, k, j, size, l', c, s)
    ensures var all, at := Flatten(l.chunks), |Flatten(l.chunks[..k])| + j + if where == "before" then 0 else 1;
            at <= |all| && Flatten(l'.chunks) == all[..at] + [c] + all[at..]
  {
    hide Flatten, DequeInsert.PlacedAfter, DequeInsert.PlacedBefore;
    if where == "before" {
      BeforeHolds(l, k, j, size, l', c, s);
      Cut(l.chunks, k, j);
    } else {
      AfterHolds(l, k, j, size, l', c, s);
      Cut(l.chunks, k, j + 1);
    }
  }

  /** The elements before a place in a chunk and from it on. */
  lemma Cut(chunks: seq<seq<Cell>>, k: nat, at: nat)
    requires k < |chunks| && at <= |chunks[k]|
    ensures var all, t := Flatten(chunks), |Flatten(chunks[..k])| + at;
            && t <= |all|
            && all[..t] == Flatten(chunks[..k]) + chunks[k][..at]
            && all[t..] == chunks[k][at..] + Flatten(chunks[k + 1..])
  {
    hide Flatten;
    assert chunks[k] == chunks[k][..at] + chunks[k][at..];
    DequeInsert.Halves(chunks, k, chunks[k][..at], chunks[k][at..]);
  }

  lemma BeforeHolds(l: Layout, k: nat, j: nat, size: nat, l': Layout, c: Cell, s: int)
    requires k < |l.chunks| == |l.spare| && j < |l.chunks[k]|
    requires DequeInsert.PlacedBefore(l, k, j, size, l', c, s)
    ensures Flatten(l'.chunks) == Flatten(l.chunks[..k]) + l.chunks[k][..j] + [c]
                                  + (l.chunks[k][j..] + Flatten(l.chunks[k + 1..]))
  {
    hide Flatten, PushedLeft, SparePushedLeft;
    if k == 0 && j == 0 {
      PushedLeftHolds(l.chunks, l.leftIdx, size, l'.chunks, l'.leftIdx, c);
      NoneHeld();
      Cut(l.chunks, 0, 0);
      assert l.chunks[..0] == [] && [] + l.chunks[0][..0] + [c] == [c];
      assert Flatten(l.chunks)[0..] == Flatten(l.chunks);
    } else {
      WithinHolds(l.chunks[..k], l.chunks[k][..j], l.chunks[k][j..], l.chunks[k + 1..], c);
    }
  }

  lemma NoneHeld()
    ensures Flatten([]) == []
  {
  }

  lemma AfterHolds(l: Layout, k: nat, j: nat, size: nat, l': Layout, c: Cell, s: int)
    requires k < |l.chunks| == |l.spare| && j < |l.chunks[k]|
    requires DequeInsert.PlacedAfter(l, k, j, size, l', c, s)
    ensures var left, right := l.chunks[k][..j + 1], l.chunks[k][j + 1..];
            Flatten(l'.chunks) == Flatten(l.chunks[..k]) + left + [c] + (right + Flatten(l.chunks[k + 1..]))
  {
    hide Flatten, SparePushedRight, Bytes;
    var left, right, after := l.chunks[k][..j + 1], l.chunks[k][j + 1..], l.chunks[k + 1..];
    var before, room := l.chunks[..k] + [left], l.spare[..k] + [l.spare[k] + |Bytes(right)|];
    var tail := if right == [] then after else [right] + after;
    var roomAfter := if right == [] then l.spare[k + 1..] else [s] + l.spare[k + 1..];
    var grown, spare :| SparePushedRight(before, room, size, grown, spare, c)
                        && l'.chunks == grown + tail && l'.spare == spare + roomAfter;
    PushedRightHolds(before, room, size, grown, spare, c);
    FlattenConcat(grown, tail);
    FlattenFirst(right, after);
    FlattenLast(l.chunks[..k], left);
  }

  lemma WithinHolds(front: seq<seq<Cell>>, left: seq<Cell>, right: seq<Cell>, after: seq<seq<Cell>>, c: Cell)
    ensures Flatten(front + (if left == [] then [[c]] else [left, [c]]) + ([right] + after))
            == Flatten(front) + left + [c] + (right + Flatten(after))
  {
    hide Flatten;
    FlattenConcat(front + (if left == [] then [[c]] else [left, [c]]), [right] + after);
    FlattenFirst(right, after);
    if left == [] {
      FlattenLast(front, [c]);
    } else {
      FlattenLast(front, left);
      FlattenLast(front + [left], [c]);
      assert front + [left] + [[c]] == front + [left, [c]];
    }
  }

  /** A command makes of the layout one that holds what the command makes of the values. */
  lemma BecomesAfter(l: Layout, cmd: Command, l': Layout)
    requires Becomes(l, cmd, l')
    ensures Values(Flatten(l'.chunks)) == After(Values(Flatten(l.chunks)), cmd)
  {
    hide Flatten, PushedLeft, SparePushedLeft, SparePushedRight, FrontPopped, BackPopped, DequeInsert.Placed,
         Canon, Cell.Ok, IndexOf, GetEncodeDeqEntrySize, Inserted, ReplyOf;
    var cells := Flatten(l.chunks);
    match cmd
    case LPush(x) =>
      var c :| StoredAs(c, x) && FrontPushed(l, GetEncodeDeqEntrySize(x), l', c);
      PushedLeftHolds(l.chunks, l.leftIdx, GetEncodeDeqEntrySize(x), l'.chunks, l'.leftIdx, c);
    case RPush(x) =>
      var c :| StoredAs(c, x) && BackPushed(l, GetEncodeDeqEntrySize(x), l', c);
      PushedRightHolds(l.chunks, l.spare, GetEncodeDeqEntrySize(x), l'.chunks, l'.spare, c);
    case LPop =>
      if cells != [] {
        PoppedLeftHolds(l, l');
      }
    case RPop =>
      if cells != [] {
        PoppedRightHolds(l, l');
      }
    case LInsert(pivot, x, where) => InsertBecomes(l, pivot, x, where, l');
    case LRange(_, _) =>
  }

  lemma InsertBecomes(l: Layout, pivot: Str, x: Str, where: string, l': Layout)
    requires Becomes(l, LInsert(pivot, x, where), l')
    ensures Values(Flatten(l'.chunks)) == Inserted(Values(Flatten(l.chunks)), pivot, Canon(x), where)
  {
    hide Flatten, DequeInsert.PlacedAfter, DequeInsert.PlacedBefore, Canon, Cell.Ok, IndexOf, GetEncodeDeqEntrySize,
         Inserted, ReplyOf;
    var cells, values, size := Flatten(l.chunks), Values(Flatten(l.chunks)), GetEncodeDeqEntrySize(x);
    ReplyIs(values, pivot, where);
    if ReplyOf(values, pivot, where).length == -1 {
      NotInserted(values, pivot, Canon(x), where);
    } else {
      var c, k: nat, j: nat, s :|
        && StoredAs(c, x) && DequeInsert.Placed(l, where, k, j, size, l', c, s)
        && |Flatten(l.chunks[..k])| + j == IndexOf(values, pivot);
      PlacedHolds(l, where, k, j, size, l', c, s);
      var i := IndexOf(values, pivot);
      InsertedAt(values, pivot, Canon(x), where, i);
      ValuesInserted(cells, if where == "before" then i else i + 1, c);
    }
  }

  lemma ReplyIs(values: seq<Str>, pivot: Str, where: string)
    ensures ReplyOf(values, pivot, where).length == -1 <==>
              pivot !in values || (where != "before" && where != "after")
  {
  }

  /** So every layout of a run holds what the plain list holds. */
  lemma {:induction false} RunHolds(trace: seq<Layout>, cmds: seq<Command>, i: nat)
    requires Run(trace, cmds) && i <= |cmds|
    ensures Values(Flatten(trace[i].chunks)) == ValuesAfter(cmds[..i])
  {
    hide Becomes, Stuck, After;
    if i > 0 {
      RunHolds(trace, cmds, i - 1);
      BecomesAfter(trace[i - 1], cmds[i - 1], trace[i]);
      assert cmds[..i][..i - 1] == cmds[..i - 1];
    }
  }

  /** The loop of RunBoth. */
  method RunCommands(cmds: seq<Command>)
    returns (q: Deque, served: nat, linked: seq<Reply>, flat: seq<Reply>, ghost trace: seq<Layout>)
    requires forall i :: 0 <= i < |cmds| ==> cmds[i].InDomain()
    ensures fresh(q) && q.Valid() && served <= |cmds|
    ensures Run(trace, cmds[..served]) && trace[served] == LayoutOf(q)
    ensures linked == Answers(cmds[..served])
    ensures flat == Answers(cmds[..served])
    ensures Values(q.Contents()) == ValuesAfter(cmds[..served])
    ensures served < |cmds| ==> Stuck(trace[served], cmds[served])
    ensures (forall i :: 0 <= i < |cmds| ==> cmds[i].Short()) ==> served == |cmds|
  {
    hide Deque.Valid, Deque.Contents, ArraysOf, Canon, EntryData, LongNumber, Encodable, Answer, After, Deque.Shape,
         DequeBasics.DequeBasic.Valid, DequeBasics.DequeBasic.Contents, GetEncodeDeqEntrySize, Clean, Command.Short,
         Stuck, Becomes, Run, LayoutOf;
    var b := new DequeBasics.DequeBasic();
    q := new Deque();
    Empty(q);
    NoRun();
    trace := [NOTHING];
    ghost var short := forall i :: 0 <= i < |cmds| ==> cmds[i].Short();
    served, linked, flat := 0, [], [];
    assert cmds[..0] == [];
    while served < |cmds|
      invariant served <= |cmds|
      invariant fresh(q) && fresh(q.list) && fresh(b) && fresh(b.arr)
      invariant forall i :: 0 <= i < |q.list.nodes| ==> fresh(q.list.nodes[i])
      invariant forall a :: a in ArraysOf(q.list.nodes) ==> fresh(a)
      invariant b.arr !in ArraysOf(q.list.nodes)
      invariant q.Valid() && b.Valid()
      invariant short ==> Clean(q.Contents())
      invariant Values(q.Contents()) == b.Contents() == ValuesAfter(cmds[..served])
      invariant linked == flat == Answers(cmds[..served])
      invariant |trace| == served + 1 && Run(trace, cmds[..served]) && trace[served] == LayoutOf(q)
    {
      var cmd := cmds[served];
      ArraysAllocated(q.list.nodes);
      var stuck := IsStuck(q, b, cmd);
      if stuck {
        if short {
          ShortNeverStuck(q, cmd);
        }
        return;
      }
      ghost var nodes := q.list.nodes;
      var r1 := ApplyDeque(q, cmd);
      forall i | 0 <= i < |q.list.nodes|
        ensures fresh(q.list.nodes[i])
      {
        var n := q.list.nodes[i];
        assert n in q.list.nodes;
        assert n in nodes ==> exists j :: 0 <= j < |nodes| && nodes[j] == n;
      }
      ArraysAllocated(q.list.nodes);
      var r2 := ApplyBasic(b, cmd);
      assert cmds[..served + 1] == cmds[..served] + [cmd];
      RunStep(trace, cmds[..served], cmd, LayoutOf(q));
      Extended(cmds[..served], cmd);
      trace := trace + [LayoutOf(q)];
      linked, flat := linked + [r1], flat + [r2];
      served := served + 1;
    }
    assert cmds[..served] == cmds;
  }

  lemma Extended(cmds: seq<Command>, cmd: Command)
    ensures ValuesAfter(cmds + [cmd]) == After(ValuesAfter(cmds), cmd)
    ensures Answers(cmds + [cmd]) == Answers(cmds) + [Answer(ValuesAfter(cmds), cmd)]
  {
    hide After, Answer;
    assert (cmds + [cmd])[..|cmds|] == cmds;
  }

  /** Runs the commands on both list types: to the end, or up to the first on which Deque goes
      wrong.  Runs of entries of at most 257 bytes go to the end. */
  method RunBoth(cmds: seq<Command>)
    returns (q: Deque, served: nat, linked: seq<Reply>, flat: seq<Reply>, ghost trace: seq<Layout>)
    requires forall i :: 0 <= i < |cmds| && cmds[i].Stores() ==> |cmds[i].x| < 0x1_0000_0000 && !LongNumber(cmds[i].x)
    ensures fresh(q) && q.Valid() && served <= |cmds|
    ensures Run(trace, cmds[..served]) && trace[served] == LayoutOf(q)
    ensures linked == Answers(cmds[..served])
    ensures flat == Answers(cmds[..served])
    ensures Values(q.Contents()) == ValuesAfter(cmds[..served])
    ensures served < |cmds| ==> Stuck(trace[served], cmds[served])
    ensures (forall i :: 0 <= i < |cmds| && cmds[i].Stores() ==> GetEncodeDeqEntrySize(cmds[i].x) <= 257) ==>
              served == |cmds|
  {
    hide GetEncodeDeqEntrySize, LongNumber, Run, Stuck, LayoutOf, Deque.Valid, Deque.Contents, Answers, ValuesAfter;
    q, served, linked, flat, trace := RunCommands(cmds);
  }

  lemma ShortNeverStuck(q: Deque, cmd: Command)
    requires q.Valid() && Clean(q.Contents()) && cmd.Short()
    ensures !Stuck(LayoutOf(q), cmd)
  {
  }
}
