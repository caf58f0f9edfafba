/** How log segments are laid out on disk by internal/wal/wal_forge.go, and what reading whole
    segments and the part of one that a crash leaves gives back. */
module WalLayouts {
  import opened Decimal
  import opened WalFrames

  /** All elements of all segments, in the order they were written. */
  ghost function Concat(entries: seq<seq<Element>>): seq<Element> {
    if entries == [] then [] else Concat(entries[..|entries| - 1]) + entries[|entries| - 1]
  }

  /** What logging makes of the disk: the elements in each segment, and how many of those in the
      last one are synced; the segments before it were synced when they were closed. */
  datatype Layout = Layout(entries: seq<seq<Element>>, synced: nat) {
    ghost predicate Shaped() {
      entries != [] && synced <= |Last()|
    }

    function Last(): seq<Element>
      requires entries != []
    {
      entries[|entries| - 1]
    }

    function Closed(): seq<seq<Element>>
      requires entries != []
    {
      entries[..|entries| - 1]
    }

    function Synced(): Layout
      requires entries != []
    {
      Layout(entries, |Last()|)
    }

    function Rotated(): Layout {
      Layout(entries + [[]], 0)
    }

    function With(e: Element): Layout
      requires entries != []
    {
      Layout(Closed() + [Last() + [e]], synced)
    }

    /** A new segment exactly when the entry would take the last one past the limit. */
    function Space<C>(codec: Codec<C>, limit: nat, entrySize: nat): (l: Layout)
      requires Shaped()
      ensures l.Shaped()
    {
      if (|Frames(codec, Last())| + entrySize) % TWO32 > limit then Rotated() else this
    }

    /** Space is made first, also for an element that then does not fit the buffer. */
    function Log<C>(codec: Codec<C>, limit: nat, e: Element): (l: Layout)
      requires Shaped()
      ensures l.Shaped()
    {
      var space := Space(codec, limit, (HEADER + |codec.marshalElement(e)|) % TWO32);
      if Fits(codec, e) then space.With(e) else space
    }

    /** How much is on disk for certain. */
    ghost function Durable(): nat
      requires Shaped()
    {
      |Concat(Closed())| + synced
    }

    /** How many elements a crash leaves that cuts the last segment. */
    ghost function Kept<C>(codec: Codec<C>, cut: nat): nat
      requires Shaped()
    {
      |Concat(Closed())| + Whole(codec, Last(), cut)
    }

    /** How many bytes of the last segment a crash cannot take. */
    function Safe<C>(codec: Codec<C>): nat
      requires Shaped()
    {
      |Frames(codec, Last()[..synced])|
    }
  }

  const NOTHING: Layout := Layout([[]], 0)

  lemma NothingLogged()
    ensures NOTHING.Shaped() && NOTHING.Last() == [] && Concat(NOTHING.entries) == []
  {
  }

  /** A limit in megabytes as the program computes it, in 32-bit words. */
  function SegmentLimit(megabytes: nat): nat {
    megabytes % TWO32 * 0x10_0000 % TWO32
  }

  /** A limit of 4096 megabytes or more wraps around. */
  lemma LimitIs(megabytes: nat)
    ensures SegmentLimit(megabytes) == megabytes % 4096 * 0x10_0000 < TWO32
    ensures SegmentLimit(megabytes) % 0x10_0000 == 0
  {
    var m := megabytes % TWO32;
    assert m == m / 4096 * 4096 + m % 4096;
    assert m % 4096 == megabytes % 4096;
    assert m * 0x10_0000 == m / 4096 * TWO32 + m % 4096 * 0x10_0000;
  }

  lemma SyncedKeeps(l: Layout)
    requires l.Shaped()
    ensures l.Synced().Shaped() && l.Synced().entries == l.entries
    ensures l.Synced().Durable() == |Concat(l.entries)|
    ensures Concat(l.entries) == Concat(l.Closed()) + l.Last()
  {
    assert l.entries == l.Closed() + [l.Last()];
  }

  lemma RotatedKeeps(l: Layout)
    ensures var r := l.Rotated();
            && r.Shaped() && r.Closed() == l.entries && r.Last() == []
            && Concat(r.entries) == Concat(l.entries) && r.Durable() == |Concat(l.entries)|
  {
    assert l.Rotated().Closed() == l.entries;
  }

  lemma WithKeeps(l: Layout, e: Element)
    requires l.Shaped()
    ensures var w := l.With(e);
            && w.Shaped() && w.Closed() == l.Closed() && w.Last() == l.Last() + [e]
            && Concat(w.entries) == Concat(l.entries) + [e] && w.Durable() == l.Durable()
  {
    var w := l.With(e);
    assert w.Closed() == l.Closed();
    assert Concat(w.entries) == Concat(l.Closed()) + (l.Last() + [e]);
  }

  lemma WithEntries(l: Layout, e: Element)
    requires l.entries != []
    ensures var n := |l.entries| - 1; l.With(e).entries == l.entries[n := l.entries[n] + [e]]
    ensures l.Rotated().With(e).entries == l.entries + [[e]]
  {
    assert l.Rotated().Closed() == l.entries && [] + [e] == [e];
  }

  /** Logging an element adds it behind what was logged, if it fits, and takes nothing back that
      is on disk. */
  lemma LogKeeps<C>(codec: Codec<C>, limit: nat, l: Layout, e: Element)
    requires l.Shaped()
    ensures var g := l.Log(codec, limit, e);
            && g.Shaped() && l.Durable() <= g.Durable()
            && Concat(g.entries) == if Fits(codec, e) then Concat(l.entries) + [e] else Concat(l.entries)
  {
    hide Frames, Fits, Concat, Layout.Durable, Layout.With;
    SyncedKeeps(l);
    RotatedKeeps(l);
    DurableIs(l);
    WithKeeps(l, e);
    WithKeeps(l.Rotated(), e);
  }

  lemma DurableIs(l: Layout)
    requires l.Shaped()
    ensures l.Durable() <= |Concat(l.entries)|
    ensures Concat(l.entries) == Concat(l.Closed()) + l.Last()
  {
  }

  /** How many whole frames lie before a cut. */
  ghost function Whole<C>(codec: Codec<C>, es: seq<Element>, cut: nat): (k: nat)
    ensures k <= |es|
  {
    if es == [] || |Frames(codec, es)| <= cut then |es| else Whole(codec, es[..|es| - 1], cut)
  }

  lemma {:induction false} WholeIs<C>(codec: Codec<C>, es: seq<Element>, cut: nat, k: nat)
    requires k <= |es| && |Frames(codec, es[..k])| <= cut
    requires k < |es| ==> cut < |Frames(codec, es[..k + 1])|
    ensures Whole(codec, es, cut) == k
  {
    hide Frames;
    assert es[..|es|] == es;
    if k < |es| {
      if k + 1 < |es| {
        FramesGrow(codec, es, k + 1, |es|);
      }
      var less := es[..|es| - 1];
      assert less[..k] == es[..k];
      if k < |less| {
        assert less[..k + 1] == es[..k + 1];
      }
      WholeIs(codec, less, cut, k);
    }
  }

  lemma {:induction false} WholeBounds<C>(codec: Codec<C>, es: seq<Element>, cut: nat)
    requires |Frames(codec, [])| <= cut
    ensures var k := Whole(codec, es, cut);
            |Frames(codec, es[..k])| <= cut && (k < |es| ==> cut < |Frames(codec, es[..k + 1])|)
  {
    hide Frames;
    assert es[..|es|] == es;
    if es != [] && cut < |Frames(codec, es)| {
      var less := es[..|es| - 1];
      WholeBounds(codec, less, cut);
      var k := Whole(codec, less, cut);
      assert less[..k] == es[..k];
      if k < |less| {
        assert less[..k + 1] == es[..k + 1];
      }
    }
  }

  /** A crash leaves everything that was synced. */
  lemma KeptBounds<C>(codec: Codec<C>, l: Layout, cut: nat)
    requires l.Shaped() && l.Safe(codec) <= cut
    ensures l.Durable() <= l.Kept(codec, cut) <= |Concat(l.entries)|
  {
    hide Frames, Whole, Concat;
    NoBytes(codec);
    var k := Whole(codec, l.Last(), cut);
    WholeBounds(codec, l.Last(), cut);
    DurableIs(l);
    if k + 1 < l.synced {
      FramesGrow(codec, l.Last(), k + 1, l.synced);
    }
  }

  lemma NoBytes<C>(codec: Codec<C>)
    ensures Frames(codec, []) == []
  {
  }

  /** Nothing more is certain: a crash can leave every number of elements from what was synced up
      to what was logged, and no other. */
  lemma CrashLeaves<C>(codec: Codec<C>, l: Layout, m: nat)
    requires l.Shaped()
    ensures (exists cut: nat :: l.Safe(codec) <= cut <= |Frames(codec, l.Last())| && l.Kept(codec, cut) == m)
            <==> l.Durable() <= m <= |Concat(l.entries)|
  {
    hide Frames, Whole, Concat;
    var safe, all := l.Safe(codec), |Frames(codec, l.Last())|;
    if cut: nat :| safe <= cut <= all && l.Kept(codec, cut) == m {
      KeptBounds(codec, l, cut);
    }
    DurableIs(l);
    if l.Durable() <= m <= |Concat(l.entries)| {
      var last, k := l.Last(), m - |Concat(l.Closed())|;
      var cut := |Frames(codec, last[..k])|;
      assert last[..|last|] == last;
      if l.synced < k {
        FramesGrow(codec, last, l.synced, k);
      }
      if k < |last| {
        FramesGrow(codec, last, k, |last|);
        FramesGrow(codec, last, k, k + 1);
      }
      WholeIs(codec, last, cut, k);
      assert l.Kept(codec, cut) == m;
    }
  }

  lemma PartCarries<C(!new)>(codec: Codec<C>, es: seq<Element>, k: nat)
    requires AllCarry(codec, es) && k <= |es|
    ensures AllCarry(codec, es[..k])
  {
  }

  lemma CommandsConcat<C(!new)>(codec: Codec<C>, a: seq<Element>, b: seq<Element>)
    requires AllCarry(codec, a) && AllCarry(codec, b)
    ensures AllCarry(codec, a + b)
    ensures Commands(codec, a + b) == Commands(codec, a) + Commands(codec, b)
  {
    hide Carries;
    assert AllCarry(codec, a + b);
  }

  lemma ConcatLast(entries: seq<seq<Element>>)
    requires entries != []
    ensures Concat(entries) == Concat(entries[..|entries| - 1]) + entries[|entries| - 1]
  {
  }

  lemma NoEntries()
    ensures Concat([]) == []
  {
  }

  lemma {:induction false} ConcatFirst(entries: seq<seq<Element>>)
    requires entries != []
    ensures Concat(entries) == entries[0] + Concat(entries[1..])
  {
    hide Concat;
    var n := |entries| - 1;
    var front, rest := entries[..n], entries[1..];
    ConcatLast(entries);
    if n == 0 {
      assert front == [] && rest == [];
      NoEntries();
    } else {
      ConcatFirst(front);
      ConcatLast(rest);
      assert front[1..] == rest[..n - 1];
      var first, middle, last := entries[0], Concat(front[1..]), entries[n];
      assert (first + middle) + last == first + (middle + last);
    }
  }

  /** Whole segments read back in full, and then the last one as far as it goes. */
  lemma {:induction false} ReadClosed<C(!new)>(codec: Codec<C>, entries: seq<seq<Element>>,
      files: seq<Str>, last: Str)
    requires Sound(codec) && |files| == |entries|
    requires forall i :: 0 <= i < |files| ==> files[i] == Frames(codec, entries[i]) && AllCarry(codec, entries[i])
    ensures AllCarry(codec, Concat(entries))
    ensures ReadAll(codec, files + [last])
            == (Commands(codec, Concat(entries)) + ReadSegment(codec, last).0, ReadSegment(codec, last).1)
    decreases |files|
  {
    hide Sound, Carries, Frames, Frame, ReadSegment;
    var all := files + [last];
    if files == [] {
      var only := ReadSegment(codec, last).0;
      assert all[0] == last && all[1..] == [] && Concat(entries) == [] && only + [] == only;
      assert Commands(codec, []) + only == only;
    } else {
      ReadClosed(codec, entries[1..], files[1..], last);
      assert all[1..] == files[1..] + [last];
      ConcatFirst(entries);
      ReadWholeSegment(codec, entries[0]);
      CommandsConcat(codec, entries[0], Concat(entries[1..]));
      var first, tail := Commands(codec, entries[0]), ReadSegment(codec, last).0;
      var rest := Commands(codec, Concat(entries[1..]));
      assert first + (rest + tail) == first + rest + tail;
    }
  }

  lemma ReadWholeSegment<C(!new)>(codec: Codec<C>, es: seq<Element>)
    requires Sound(codec) && AllCarry(codec, es)
    ensures ReadSegment(codec, Frames(codec, es)) == (Commands(codec, es), AtEnd)
  {
    hide Sound, Carries, Frames, Frame, ReadSegment;
    var bytes := Frames(codec, es);
    var k := ReadPrefix(codec, es, |bytes|);
    assert bytes[..|bytes|] == bytes && es[..|es|] == es;
    if k < |es| {
      if k + 1 < |es| {
        FramesGrow(codec, es, k + 1, |es|);
      }
      assert false;
    }
  }
}
