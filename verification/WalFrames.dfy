/** The frames of a log segment in internal/wal/wal_forge.go, and what reading them back gives
    wherever the bytes end. */
module WalFrames {
  import opened Bits
  import opened Options
  import opened Decimal
  import opened EntryCodec
  import opened EntryDecode

  const HEADER: int := 8
  const BUFFER: int := 10240 // of the writer, and of the reader
  const TWO32: int := 0x1_0000_0000

  datatype Element = Element(lsn: nat, timestamp: int, payload: Str)

  /** Marshalling and the checksum, which the log gets from libraries: any functions. */
  datatype Codec<!C> = Codec(
    marshalCommand: C -> Str,
    unmarshalCommand: Str -> Option<C>,
    marshalElement: Element -> Str,
    unmarshalElement: Str -> Option<Element>,
    checksum: Str -> nat)

  /** Unmarshalling undoes marshalling, and a checksum is a 32-bit word. */
  ghost predicate Sound<C(!new)>(codec: Codec<C>) {
    && (forall c: C :: codec.unmarshalCommand(codec.marshalCommand(c)) == Some(c))
    && (forall e: Element :: codec.unmarshalElement(codec.marshalElement(e)) == Some(e))
    && (forall b: Str :: codec.checksum(b) < TWO32)
  }

  // ---------- a sound codec ----------

  /** A number in unary: so many zeros, and a one. */
  function Unary(n: nat): (s: Str) {
    Zeros(n) + [1]
  }

  function LeadingZeros(s: Str): (z: nat)
    ensures z <= |s|
  {
    if s == [] || s[0] != 48 then 0 else 1 + LeadingZeros(s[1..])
  }

  function Pack(e: Element): Str {
    Unary(e.lsn) + Unary(if e.timestamp < 0 then 2 * -e.timestamp - 1 else 2 * e.timestamp) + e.payload
  }

  function Unpack(s: Str): Option<Element> {
    var z := LeadingZeros(s);
    if z == |s| then None
    else
      var rest := s[z + 1..];
      var t := LeadingZeros(rest);
      if t == |rest| then None
      else Some(Element(z, if t % 2 == 1 then -(t / 2) - 1 else t / 2, rest[t + 1..]))
  }

  lemma {:induction false} UnaryParts(n: nat, s: Str)
    ensures LeadingZeros(Unary(n) + s) == n
    ensures n < |Unary(n) + s| && (Unary(n) + s)[n + 1..] == s
  {
    var all := Unary(n) + s;
    if n > 0 {
      UnaryParts(n - 1, s);
      assert all[1..] == Unary(n - 1) + s;
    }
  }

  lemma UnpackPack(e: Element)
    ensures Unpack(Pack(e)) == Some(e)
  {
    hide LeadingZeros, Unary;
    var t := if e.timestamp < 0 then 2 * -e.timestamp - 1 else 2 * e.timestamp;
    assert Pack(e) == Unary(e.lsn) + (Unary(t) + e.payload);
    UnaryParts(e.lsn, Unary(t) + e.payload);
    UnaryParts(t, e.payload);
  }

  /** There is one, so nothing below is said of nothing. */
  lemma SoundCodec() returns (codec: Codec<Str>)
    ensures Sound(codec)
  {
    hide Pack, Unpack;
    codec := Codec((c: Str) => c, (s: Str) => Some(s), Pack, Unpack, (s: Str) => 0);
    forall e: Element
      ensures Unpack(Pack(e)) == Some(e)
    {
      UnpackPack(e);
    }
  }

  // ---------- frames ----------

  /** CRC32 | size of the payload | payload */
  function Frame<C>(codec: Codec<C>, payload: Str): (f: Str)
    ensures |f| == HEADER + |payload|
  {
    LittleEndian(codec.checksum(payload), 4) + LittleEndian(|payload|, 4) + payload
  }

  function Frames<C>(codec: Codec<C>, es: seq<Element>): Str {
    if es == [] then []
    else Frames(codec, es[..|es| - 1]) + Frame(codec, codec.marshalElement(es[|es| - 1]))
  }

  /** What the writer accepts: the whole frame fits its buffer. */
  predicate Fits<C>(codec: Codec<C>, e: Element) {
    HEADER + |codec.marshalElement(e)| <= BUFFER
  }

  /** How a read ends: at the end of the data, with an error, or in a panic. */
  datatype Ending = AtEnd | Failed | Panicked

  /** One frame at the front of the bytes: the command in it, or how the read ends instead. */
  datatype Step<C> = Next(command: C, size: nat) | Stop(ending: Ending)

  function ReadFrame<C>(codec: Codec<C>, bytes: Str): (s: Step<C>)
    ensures s.Next? ==> HEADER <= s.size <= |bytes|
  {
    if bytes == [] then Stop(AtEnd)
    else if |bytes| < HEADER then Stop(Failed)
    else
      var crc, entrySize := OrLittleEndian(bytes[0..4]), OrLittleEndian(bytes[4..8]);
      if entrySize > BUFFER then Stop(Panicked)
      else if |bytes| < HEADER + entrySize then Stop(Failed)
      else
        var data := bytes[HEADER..HEADER + entrySize];
        if crc != codec.checksum(data) then Stop(Failed)
        else
          match codec.unmarshalElement(data)
          case None => Stop(Failed)
          case Some(el) =>
            match codec.unmarshalCommand(el.payload)
            case None => Stop(Failed)
            case Some(c) => Next(c, HEADER + entrySize)
  }

  /** The commands in a segment, and how the read ends. */
  function ReadSegment<C>(codec: Codec<C>, bytes: Str): (seq<C>, Ending)
    decreases |bytes|
  {
    match ReadFrame(codec, bytes)
    case Stop(ending) => ([], ending)
    case Next(c, size) =>
      var (rest, ending) := ReadSegment(codec, bytes[size..]);
      ([c] + rest, ending)
  }

  /** The commands in a sequence of segments, read up to the first that does not end well. */
  function ReadAll<C>(codec: Codec<C>, files: seq<Str>): (seq<C>, Ending) {
    if files == [] then ([], AtEnd)
    else
      var (first, ending) := ReadSegment(codec, files[0]);
      if ending != AtEnd then (first, ending)
      else
        var (rest, last) := ReadAll(codec, files[1..]);
        (first + rest, last)
  }

  // ---------- reading back what was written ----------

  /** The command that an element carries, if its payload is a marshalled one. */
  ghost predicate Carries<C(!new)>(codec: Codec<C>, e: Element) {
    Fits(codec, e) && codec.unmarshalCommand(e.payload).Some?
  }

  ghost predicate AllCarry<C(!new)>(codec: Codec<C>, es: seq<Element>) {
    forall i :: 0 <= i < |es| ==> Carries(codec, es[i])
  }

  ghost function Commands<C(!new)>(codec: Codec<C>, es: seq<Element>): (cs: seq<C>)
    requires AllCarry(codec, es)
    ensures |cs| == |es|
  {
    seq(|es|, i requires 0 <= i < |es| => codec.unmarshalCommand(es[i].payload).value)
  }

  lemma Word32(n: nat)
    requires n < TWO32
    ensures OrLittleEndian(LittleEndian(n, 4)) == n
  {
    hide OrLittleEndian, LittleEndian, Low;
    JoinBytes(n, 4);
    LowWord32(n);
  }

  /** A whole frame reads back as its command, whatever follows. */
  lemma ReadWhole<C(!new)>(codec: Codec<C>, e: Element, suffix: Str)
    requires Sound(codec) && Carries(codec, e)
    ensures var f := Frame(codec, codec.marshalElement(e));
            ReadFrame(codec, f + suffix) == Next(codec.unmarshalCommand(e.payload).value, |f|)
  {
    hide OrLittleEndian, LittleEndian;
    var data := codec.marshalElement(e);
    var bytes := Frame(codec, data) + suffix;
    Word32(codec.checksum(data));
    Word32(|data|);
    assert bytes[0..4] == LittleEndian(codec.checksum(data), 4);
    assert bytes[4..8] == LittleEndian(|data|, 4);
    assert bytes[8..8 + |data|] == data;
  }

  /** A frame cut short anywhere is an error, unless nothing of it is left; never a panic. */
  lemma ReadCut<C(!new)>(codec: Codec<C>, e: Element, cut: nat)
    requires Sound(codec) && Carries(codec, e)
    requires cut < |Frame(codec, codec.marshalElement(e))|
    ensures ReadFrame(codec, Frame(codec, codec.marshalElement(e))[..cut]) == Stop(if cut == 0 then AtEnd else Failed)
  {
    hide OrLittleEndian, LittleEndian;
    var data := codec.marshalElement(e);
    var bytes := Frame(codec, data)[..cut];
    Word32(|data|);
    if HEADER <= cut {
      assert bytes[4..8] == LittleEndian(|data|, 4);
    }
  }

  /** What any header followed by any bytes reads as: a size above the buffer makes the reader panic,
      too few bytes, a wrong checksum or a payload that does not unmarshal is an error. */
  lemma ReadAny<C>(codec: Codec<C>, crc: nat, size: nat, rest: Str)
    requires crc < 0x1_0000_0000 && size < 0x1_0000_0000
    ensures var step := ReadFrame(codec, LittleEndian(crc, 4) + LittleEndian(size, 4) + rest);
            if 10240 < size then step == Stop(Panicked)
            else if |rest| < size || crc != codec.checksum(rest[..size]) then step == Stop(Failed)
            else
              var el := codec.unmarshalElement(rest[..size]);
              if el == None || codec.unmarshalCommand(el.value.payload) == None then step == Stop(Failed)
              else step == Next(codec.unmarshalCommand(el.value.payload).value, 8 + size)
    ensures forall bytes: Str :: |bytes| < 8 ==> ReadFrame(codec, bytes) == Stop(if bytes == [] then AtEnd else Failed)
  {
    hide OrLittleEndian, LittleEndian;
    var bytes := LittleEndian(crc, 4) + LittleEndian(size, 4) + rest;
    Word32(crc);
    Word32(size);
    assert bytes[0..4] == LittleEndian(crc, 4) && bytes[4..8] == LittleEndian(size, 4);
    if size <= |rest| {
      assert bytes[8..8 + size] == rest[..size];
    }
  }

  /** A frame whose payload was damaged, so that its checksum is another, ends the read of its segment
      with an error, behind the commands of all frames before it. */
  lemma {:induction false} Damaged<C(!new)>(codec: Codec<C>, es: seq<Element>, crc: nat, data: Str, rest: Str)
    requires Sound(codec) && AllCarry(codec, es)
    requires crc < 0x1_0000_0000 && |data| <= 10240 && crc != codec.checksum(data)
    ensures ReadSegment(codec, Frames(codec, es) + (LittleEndian(crc, 4) + LittleEndian(|data|, 4) + (data + rest)))
            == (Commands(codec, es), Failed)
    decreases |es|
  {
    hide Sound, Carries, Frames, Frame, ReadFrame, LittleEndian;
    var damaged := LittleEndian(crc, 4) + LittleEndian(|data|, 4) + (data + rest);
    if es == [] {
      NoFrames(codec);
      ReadAny(codec, crc, |data|, data + rest);
      assert (data + rest)[..|data|] == data;
      assert Frames(codec, es) + damaged == damaged;
    } else {
      FramesFirst(codec, es);
      Damaged(codec, es[1..], crc, data, rest);
      var f, tail := Frame(codec, codec.marshalElement(es[0])), Frames(codec, es[1..]) + damaged;
      ReadWhole(codec, es[0], tail);
      assert Frames(codec, es) + damaged == f + tail && (f + tail)[|f|..] == tail;
      CommandsFirst(codec, es, |es| - 1);
      assert es[..|es|] == es && es[1..][..|es| - 1] == es[1..];
    }
  }

  lemma {:induction false} FramesFirst<C>(codec: Codec<C>, es: seq<Element>)
    requires es != []
    ensures Frames(codec, es) == Frame(codec, codec.marshalElement(es[0])) + Frames(codec, es[1..])
  {
    hide LittleEndian;
    var n := |es| - 1;
    if n == 0 {
      assert es[..0] == [] && es[1..] == [];
    } else {
      FramesFirst(codec, es[..n]);
      assert es[..n][1..] == es[1..][..n - 1];
    }
  }

  /** The end of some frame, or the start of the segment. */
  ghost predicate AtBoundary<C>(codec: Codec<C>, es: seq<Element>, cut: nat) {
    exists k :: 0 <= k <= |es| && cut == |Frames(codec, es[..k])|
  }

  /** A segment cut anywhere reads back as the commands of its whole frames, and without an
      error exactly when the cut is between frames. */
  lemma {:induction false} ReadPrefix<C(!new)>(codec: Codec<C>, es: seq<Element>, cut: nat) returns (k: nat)
    requires Sound(codec) && AllCarry(codec, es) && cut <= |Frames(codec, es)|
    ensures k <= |es| && |Frames(codec, es[..k])| <= cut
    ensures k < |es| ==> cut < |Frames(codec, es[..k + 1])|
    ensures ReadSegment(codec, Frames(codec, es)[..cut])
            == (Commands(codec, es[..k]), if cut == |Frames(codec, es[..k])| then AtEnd else Failed)
    decreases |es|
  {
    hide Sound, Carries, Frames, ReadFrame, Frame;
    if es == [] {
      k := 0;
      NoFrames(codec);
      assert es[..0] == [];
    } else {
      var f := Frame(codec, codec.marshalElement(es[0]));
      FramesFirst(codec, es);
      if cut < |f| {
        k := 0;
        NoFrames(codec);
        assert es[..0] == [] && es[..1] == [es[0]];
        OneFrame(codec, es[0]);
        ReadCut(codec, es[0], cut);
        assert Frames(codec, es)[..cut] == f[..cut];
      } else {
        var k' := ReadPrefix(codec, es[1..], cut - |f|);
        k := k' + 1;
        FirstOf(codec, es, k');
        if k < |es| {
          FirstOf(codec, es, k);
        }
        var rest := Frames(codec, es[1..])[..cut - |f|];
        assert Frames(codec, es)[..cut] == f + rest;
        ReadWhole(codec, es[0], rest);
        assert (f + rest)[|f|..] == rest;
        CommandsFirst(codec, es, k');
      }
    }
  }

  lemma CommandsFirst<C(!new)>(codec: Codec<C>, es: seq<Element>, k: nat)
    requires AllCarry(codec, es) && k < |es|
    ensures Carries(codec, es[0])
    ensures Commands(codec, es[..k + 1])
            == [codec.unmarshalCommand(es[0].payload).value] + Commands(codec, es[1..][..k])
  {
  }

  lemma NoFrames<C(!new)>(codec: Codec<C>)
    ensures Frames(codec, []) == [] && ReadFrame(codec, []) == Stop(AtEnd) && Commands(codec, []) == []
  {
  }

  lemma OneFrame<C>(codec: Codec<C>, e: Element)
    ensures Frames(codec, [e]) == Frame(codec, codec.marshalElement(e))
  {
    hide Frame;
    assert [e][..0] == [];
    assert Frames(codec, []) == [];
  }

  lemma FirstOf<C>(codec: Codec<C>, es: seq<Element>, k: nat)
    requires k < |es|
    ensures Frames(codec, es[..k + 1]) == Frame(codec, codec.marshalElement(es[0])) + Frames(codec, es[1..][..k])
  {
    hide Frame, Frames;
    FramesFirst(codec, es[..k + 1]);
    assert es[..k + 1][1..] == es[1..][..k];
  }

  lemma {:induction false} FramesGrow<C>(codec: Codec<C>, es: seq<Element>, j: nat, k: nat)
    requires j < k <= |es|
    ensures |Frames(codec, es[..j])| + HEADER <= |Frames(codec, es[..k])|
    decreases k
  {
    hide Frame;
    assert es[..k][..k - 1] == es[..k - 1];
    if j < k - 1 {
      FramesGrow(codec, es, j, k - 1);
    }
  }

  /** The cut is between frames exactly when nothing is left after the whole frames. */
  lemma BoundaryIs<C>(codec: Codec<C>, es: seq<Element>, cut: nat, k: nat)
    requires k <= |es| && |Frames(codec, es[..k])| <= cut
    requires k < |es| ==> cut < |Frames(codec, es[..k + 1])|
    requires cut <= |Frames(codec, es)|
    ensures AtBoundary(codec, es, cut) <==> cut == |Frames(codec, es[..k])|
  {
    hide Frames;
    assert es[..|es|] == es;
    if AtBoundary(codec, es, cut) {
      var j :| 0 <= j <= |es| && cut == |Frames(codec, es[..j])|;
      if j < k {
        FramesGrow(codec, es, j, k);
      } else if k + 1 < j {
        FramesGrow(codec, es, k + 1, j);
      }
    }
  }
}
