/** The Count-Min Sketch of internal/eval/countminsketch.go.  A sketch stands for the stream of
    updates it has seen; its cells are 64-bit words. */
module Sketches {
  import opened Bits
  import opened Decimal

  type Stream = seq<(Str, nat)>

  /** The options of a sketch.  The hash is any function from keys to two words. */
  datatype Opts = Opts(depth: nat, width: nat, hasher: Str -> (nat, nat)) {
    predicate Ok() {
      1 <= depth && 1 <= width
    }

    /** The column of a key in a row; the sum is a 64-bit word. */
    function Position(row: nat, key: Str): (col: nat)
      requires Ok()
      ensures col < width
    {
      var (hash1, hash2) := hasher(key);
      (hash1 + hash2 * row) % TWO64 % width
    }

    /** The columns of a key: its two hashes, combined as words by row, modulo the width. */
    ghost predicate Columns(key: Str, positions: seq<nat>)
      requires Ok()
    {
      var hash := hasher(key);
      && |positions| == depth
      && forall row :: 0 <= row < depth ==>
           positions[row] == (hash.0 + hash.1 * row) % 0x1_0000_0000_0000_0000 % width < width
    }

    /** No other key that a stream counts shares the column of a key in a row. */
    ghost predicate Alone(s: Stream, row: nat, key: Str)
      requires Ok()
    {
      var hash := hasher(key);
      forall i :: 0 <= i < |s| && s[i].0 != key && 0 < s[i].1 ==>
        var other := hasher(s[i].0);
        (other.0 + other.1 * row) % TWO64 % width != (hash.0 + hash.1 * row) % TWO64 % width
    }
  }

  // ---------- streams of updates ----------

  /** How much of a stream falls into a cell. */
  ghost function CellSum(o: Opts, s: Stream, row: nat, col: nat): nat
    requires o.Ok()
  {
    if s == [] then 0
    else
      var (key, count) := s[|s| - 1];
      CellSum(o, s[..|s| - 1], row, col) + if o.Position(row, key) == col then count else 0
  }

  ghost function Total(s: Stream): nat {
    if s == [] then 0 else Total(s[..|s| - 1]) + s[|s| - 1].1
  }

  /** The true count of a key. */
  ghost function TrueCount(s: Stream, key: Str): nat {
    if s == [] then 0 else TrueCount(s[..|s| - 1], key) + if s[|s| - 1].0 == key then s[|s| - 1].1 else 0
  }

  /** The first columns of a row, added up. */
  ghost function RowSum(o: Opts, s: Stream, row: nat, cols: nat): nat
    requires o.Ok()
  {
    if cols == 0 then 0 else RowSum(o, s, row, cols - 1) + CellSum(o, s, row, cols - 1)
  }

  /** The cell of a key counts it in full, and nothing twice. */
  lemma {:induction false} CellBounds(o: Opts, s: Stream, row: nat, key: Str)
    requires o.Ok()
    ensures TrueCount(s, key) <= CellSum(o, s, row, o.Position(row, key)) <= Total(s)
  {
    hide Opts.Position;
    if s != [] {
      CellBounds(o, s[..|s| - 1], row, key);
    }
  }

  lemma ColumnIs(o: Opts, row: nat, key: Str)
    requires o.Ok()
    ensures o.Position(row, key) == (o.hasher(key).0 + o.hasher(key).1 * row) % TWO64 % o.width
  {
  }

  lemma ColumnsAre(o: Opts, key: Str, positions: seq<nat>)
    requires o.Ok() && |positions| == o.depth
    requires forall row :: 0 <= row < o.depth ==> positions[row] == o.Position(row, key)
    ensures o.Columns(key, positions)
  {
    hide Opts.Position;
    forall row | 0 <= row < o.depth
      ensures positions[row] == (o.hasher(key).0 + o.hasher(key).1 * row) % TWO64 % o.width < o.width
    {
      ColumnIs(o, row, key);
    }
  }

  /** The part of a stream that is alone in its column. */
  lemma AloneStep(o: Opts, s: Stream, row: nat, key: Str)
    requires o.Ok() && s != []
    ensures var (k, n) := s[|s| - 1];
            o.Alone(s, row, key) <==>
              o.Alone(s[..|s| - 1], row, key)
              && (k != key && 0 < n ==> o.Position(row, k) != o.Position(row, key))
  {
    ColumnIs(o, row, key);
    ColumnIs(o, row, s[|s| - 1].0);
    hide Opts.Position;
    assert forall i :: 0 <= i < |s| - 1 ==> s[..|s| - 1][i] == s[i];
  }

  /** The cell of a key is its true count exactly when the key is alone there. */
  lemma {:induction false} CellExact(o: Opts, s: Stream, row: nat, key: Str)
    requires o.Ok()
    ensures CellSum(o, s, row, o.Position(row, key)) == TrueCount(s, key) <==> o.Alone(s, row, key)
  {
    hide Opts.Position, Opts.Alone;
    if s == [] {
      NoneClash(o, row, key);
    } else {
      CellExact(o, s[..|s| - 1], row, key);
      CellBounds(o, s[..|s| - 1], row, key);
      AloneStep(o, s, row, key);
    }
  }

  lemma NoneClash(o: Opts, row: nat, key: Str)
    requires o.Ok()
    ensures o.Alone([], row, key)
  {
  }

  /** One update adds its count to the part of a row that holds its column. */
  lemma {:induction false} RowStep(o: Opts, s: Stream, key: Str, count: nat, row: nat, cols: nat)
    requires o.Ok()
    ensures RowSum(o, s + [(key, count)], row, cols)
            == RowSum(o, s, row, cols) + if o.Position(row, key) < cols then count else 0
    decreases cols
  {
    hide Opts.Position;
    if cols > 0 {
      RowStep(o, s, key, count, row, cols - 1);
      assert (s + [(key, count)])[..|s|] == s;
    }
  }

  /** Each row adds up to the whole stream. */
  lemma {:induction false} RowTotal(o: Opts, s: Stream, row: nat)
    requires o.Ok()
    ensures RowSum(o, s, row, o.width) == Total(s)
  {
    hide Opts.Position;
    if s == [] {
      RowEmpty(o, row, o.width);
    } else {
      var before := s[..|s| - 1];
      var (key, count) := s[|s| - 1];
      RowTotal(o, before, row);
      RowStep(o, before, key, count, row, o.width);
      assert s == before + [(key, count)];
    }
  }

  lemma {:induction false} RowEmpty(o: Opts, row: nat, cols: nat)
    requires o.Ok()
    ensures RowSum(o, [], row, cols) == 0
    decreases cols
  {
    if cols > 0 {
      RowEmpty(o, row, cols - 1);
    }
  }

  // ---------- weighted streams ----------

  ghost function Scaled(s: Stream, w: nat): Stream {
    if s == [] then [] else Scaled(s[..|s| - 1], w) + [(s[|s| - 1].0, w * s[|s| - 1].1)]
  }

  /** The streams one after the other, each update times the weight of its stream. */
  ghost function Merged(streams: seq<Stream>, weights: seq<nat>): Stream
    requires |streams| == |weights|
  {
    if streams == [] then []
    else
      var n := |streams| - 1;
      Merged(streams[..n], weights[..n]) + Scaled(streams[n], weights[n])
  }

  /** The weighted sum of what each stream counts for a key. */
  ghost function WeightedCount(streams: seq<Stream>, weights: seq<nat>, key: Str): nat
    requires |streams| == |weights|
  {
    if streams == [] then 0
    else
      var n := |streams| - 1;
      WeightedCount(streams[..n], weights[..n], key) + weights[n] * TrueCount(streams[n], key)
  }

  lemma Distribute(w: nat, a: nat, b: nat)
    ensures w * (a + b) == w * a + w * b
  {
  }

  lemma {:induction false} ScaledSums(o: Opts, s: Stream, w: nat, row: nat, col: nat, key: Str)
    requires o.Ok()
    ensures CellSum(o, Scaled(s, w), row, col) == w * CellSum(o, s, row, col)
    ensures Total(Scaled(s, w)) == w * Total(s)
    ensures TrueCount(Scaled(s, w), key) == w * TrueCount(s, key)
  {
    hide Opts.Position;
    if s != [] {
      var before := s[..|s| - 1];
      var (k, count) := s[|s| - 1];
      ScaledSums(o, before, w, row, col, key);
      var t := Scaled(s, w);
      assert t[..|t| - 1] == Scaled(before, w) && t[|t| - 1] == (k, w * count);
      Distribute(w, CellSum(o, before, row, col), count);
      Distribute(w, Total(before), count);
      Distribute(w, TrueCount(before, key), count);
    }
  }

  lemma {:induction false} ConcatSums(o: Opts, a: Stream, b: Stream, row: nat, col: nat, key: Str)
    requires o.Ok()
    ensures CellSum(o, a + b, row, col) == CellSum(o, a, row, col) + CellSum(o, b, row, col)
    ensures Total(a + b) == Total(a) + Total(b)
    ensures TrueCount(a + b, key) == TrueCount(a, key) + TrueCount(b, key)
    decreases |b|
  {
    hide Opts.Position;
    if b == [] {
      assert a + b == a;
    } else {
      ConcatSums(o, a, b[..|b| - 1], row, col, key);
      assert (a + b)[..|a + b| - 1] == a + b[..|b| - 1];
    }
  }

  /** One stream more adds its weight times what it counts. */
  lemma MergedStep(o: Opts, streams: seq<Stream>, weights: seq<nat>, i: nat, row: nat, col: nat, key: Str)
    requires o.Ok() && |streams| == |weights| && i < |streams|
    ensures var before, after := Merged(streams[..i], weights[..i]), Merged(streams[..i + 1], weights[..i + 1]);
            && CellSum(o, after, row, col)
               == CellSum(o, before, row, col) + weights[i] * CellSum(o, streams[i], row, col)
            && Total(after) == Total(before) + weights[i] * Total(streams[i])
            && TrueCount(after, key) == TrueCount(before, key) + weights[i] * TrueCount(streams[i], key)
  {
    hide Opts.Position, CellSum, Total, TrueCount, Scaled;
    assert streams[..i + 1][..i] == streams[..i] && weights[..i + 1][..i] == weights[..i];
    ScaledSums(o, streams[i], weights[i], row, col, key);
    ConcatSums(o, Merged(streams[..i], weights[..i]), Scaled(streams[i], weights[i]), row, col, key);
  }

  /** The merged stream counts each key with the weights. */
  lemma {:induction false} MergedCount(o: Opts, streams: seq<Stream>, weights: seq<nat>, key: Str)
    requires o.Ok() && |streams| == |weights|
    ensures TrueCount(Merged(streams, weights), key) == WeightedCount(streams, weights, key)
  {
    hide CellSum, Total, TrueCount, Scaled, Merged;
    var n := |streams| - 1;
    if n >= 0 {
      MergedCount(o, streams[..n], weights[..n], key);
      MergedStep(o, streams, weights, n, 0, 0, key);
      assert streams[..n + 1] == streams && weights[..n + 1] == weights;
    } else {
      MergedNone(streams, weights, key);
    }
  }

  lemma MergedNone(streams: seq<Stream>, weights: seq<nat>, key: Str)
    requires streams == [] && weights == []
    ensures TrueCount(Merged(streams, weights), key) == 0
  {
  }

  // ---------- 64-bit words ----------

  lemma AddWord(a: nat, b: nat)
    ensures (a % TWO64 + b) % TWO64 == (a + b) % TWO64
  {
  }

  lemma {:induction false} DropWords(x: nat, q: nat)
    ensures (x + q * TWO64) % TWO64 == x % TWO64
    decreases q
  {
    if q > 0 {
      DropWords(x, q - 1);
      AddWord(x + (q - 1) * TWO64, TWO64);
    }
  }

  lemma AddWords(a: nat, b: nat, c: nat)
    requires a % TWO64 == b % TWO64
    ensures (a + c % TWO64) % TWO64 == (b + c) % TWO64
  {
  }

  /** A product taken of a word is the product, as a word. */
  lemma AddMulWord(a: nat, w: nat, b: nat)
    ensures (a % TWO64 + w * (b % TWO64)) % TWO64 == (a + w * b) % TWO64
  {
    var q := b / TWO64;
    MulParts(w, b % TWO64, q);
    DropWords(a + w * (b % TWO64), w * q);
    AddWord(a, w * (b % TWO64));
  }

  lemma MulParts(w: nat, r: nat, q: nat)
    ensures w * (r + q * TWO64) == w * r + w * q * TWO64
  {
  }

  // ---------- the sketch ----------

  class CountMinSketch {
    const opts: Opts
    const matrix: array2<nat>
    var count: nat
    ghost var stream: Stream // the updates the sketch stands for

    ghost predicate Shaped()
      reads this
    {
      opts.Ok() && matrix.Length0 == opts.depth && matrix.Length1 == opts.width
    }

    /** Every cell is the sum of the updates that fall into it, as a word. */
    ghost predicate Valid()
      reads this, matrix
    {
      && Shaped()
      && (forall row, col :: 0 <= row < opts.depth && 0 <= col < opts.width ==>
            matrix[row, col] == CellSum(opts, stream, row, col) % TWO64)
      && count == Total(stream) % TWO64
    }

    constructor (opts: Opts)
      requires opts.Ok()
      ensures Valid() && this.opts == opts && stream == []
      ensures fresh(matrix)
    {
      this.opts := opts;
      matrix := new nat[opts.depth, opts.width]((_, _) => 0);
      count := 0;
      stream := [];
    }

    method MatrixPositions(key: Str) returns (positions: seq<nat>)
      requires opts.Ok()
      ensures |positions| == opts.depth
      ensures forall row :: 0 <= row < opts.depth ==> positions[row] == opts.Position(row, key)
      ensures opts.Columns(key, positions)
    {
      hide Opts.Position;
      positions := [];
      var row := 0;
      while row < opts.depth
        invariant 0 <= row <= opts.depth && |positions| == row
        invariant forall r :: 0 <= r < row ==> positions[r] == opts.Position(r, key)
      {
        positions := positions + [opts.Position(row, key)];
        row := row + 1;
      }
      ColumnsAre(opts, key, positions);
    }

    /** One update, which may wrap a cell around. */
    method UpdateMatrix(key: Str, n: nat)
      requires Valid()
      modifies this, matrix
      ensures Valid() && stream == old(stream) + [(key, n)]
    {
      hide Opts.Position, Opts.Columns;
      var positions := MatrixPositions(key);
      var row := 0;
      while row < opts.depth
        invariant 0 <= row <= opts.depth
        invariant Shaped() && stream == old(stream) && count == old(count)
        invariant forall r, col :: 0 <= r < opts.depth && 0 <= col < opts.width ==>
                    matrix[r, col] == if r < row && col == positions[r] then (old(matrix[r, col]) + n) % TWO64
                                      else old(matrix[r, col])
      {
        var col := positions[row];
        matrix[row, col] := (matrix[row, col] + n) % TWO64;
        row := row + 1;
      }
      count := (count + n) % TWO64;
      stream := stream + [(key, n)];
      assert stream[..|stream| - 1] == old(stream);
      AddWord(Total(old(stream)), n);
      forall r, col | 0 <= r < opts.depth && 0 <= col < opts.width
        ensures matrix[r, col] == CellSum(opts, stream, r, col) % TWO64
      {
        AddWord(CellSum(opts, old(stream), r, col), n);
      }
    }

    /** The least of the cells of a key.  Where nothing has wrapped, it is at least the true
        count and at most the count of the sketch, and it is the true count exactly when the key is
        alone in its column of some row. */
    method EstimateCount(key: Str) returns (estimate: nat)
      requires Valid()
      ensures forall row :: 0 <= row < opts.depth ==> estimate <= matrix[row, opts.Position(row, key)]
      ensures exists row :: 0 <= row < opts.depth && estimate == matrix[row, opts.Position(row, key)]
      ensures Total(stream) < TWO64 ==> TrueCount(stream, key) <= estimate <= count
      ensures Total(stream) < TWO64 ==>
                (estimate == TrueCount(stream, key) <==>
                 exists row :: 0 <= row < opts.depth && opts.Alone(stream, row, key))
    {
      hide Opts.Position, Opts.Alone, Opts.Columns;
      var positions := MatrixPositions(key);
      estimate := TWO64 - 1;
      var row := 0;
      while row < opts.depth
        invariant 0 <= row <= opts.depth
        invariant forall r :: 0 <= r < row ==> estimate <= matrix[r, positions[r]]
        invariant if row == 0 then estimate == TWO64 - 1
                  else exists r :: 0 <= r < row && estimate == matrix[r, positions[r]]
      {
        if matrix[row, positions[row]] < estimate {
          estimate := matrix[row, positions[row]];
        }
        row := row + 1;
      }
      if Total(stream) < TWO64 {
        Exact(key);
      }
    }

    /** Nothing wraps while the total fits a word. */
    lemma Exact(key: Str)
      requires Valid() && Total(stream) < TWO64
      ensures count == Total(stream)
      ensures forall row :: 0 <= row < opts.depth ==>
              && TrueCount(stream, key) <= matrix[row, opts.Position(row, key)] <= count
              && (matrix[row, opts.Position(row, key)] == TrueCount(stream, key) <==> opts.Alone(stream, row, key))
    {
      hide Opts.Position, Opts.Alone;
      forall row | 0 <= row < opts.depth
        ensures TrueCount(stream, key) <= matrix[row, opts.Position(row, key)] <= count
        ensures matrix[row, opts.Position(row, key)] == TrueCount(stream, key) <==> opts.Alone(stream, row, key)
      {
        CellBounds(opts, stream, row, key);
        CellExact(opts, stream, row, key);
      }
    }

    /** What the first columns of a row hold, added up. */
    ghost function RowCells(row: nat, cols: nat): nat
      requires Shaped() && row < opts.depth && cols <= opts.width
      reads this, matrix
    {
      if cols == 0 then 0 else RowCells(row, cols - 1) + matrix[row, cols - 1]
    }

    lemma {:induction false} RowCellsSum(row: nat, cols: nat)
      requires Valid() && row < opts.depth && cols <= opts.width
      ensures RowCells(row, cols) % TWO64 == RowSum(opts, stream, row, cols) % TWO64
      ensures RowSum(opts, stream, row, cols) < TWO64 ==> RowCells(row, cols) == RowSum(opts, stream, row, cols)
    {
      hide Opts.Position, CellSum, Total;
      if cols > 0 {
        RowCellsSum(row, cols - 1);
        AddWords(RowCells(row, cols - 1), RowSum(opts, stream, row, cols - 1), CellSum(opts, stream, row, cols - 1));
      }
    }

    /** Each row of the matrix adds up to count: as words always, and exactly where nothing wrapped. */
    lemma RowIsCount(row: nat)
      requires Valid() && row < opts.depth
      ensures RowCells(row, opts.width) % TWO64 == count
      ensures Total(stream) < TWO64 ==> RowCells(row, opts.width) == count
    {
      RowCellsSum(row, opts.width);
      RowTotal(opts, stream, row);
    }

    method DeepCopy() returns (c: CountMinSketch)
      requires Valid()
      ensures c.Valid() && c.opts == opts && c.stream == stream
      ensures fresh(c) && fresh(c.matrix)
    {
      hide Opts.Position, CellSum, Total;
      c := new CountMinSketch(opts);
      var row := 0;
      while row < opts.depth
        invariant 0 <= row <= opts.depth && c.Shaped()
        invariant forall r, col :: 0 <= r < row && 0 <= col < opts.width ==> c.matrix[r, col] == matrix[r, col]
      {
        forall col | 0 <= col < opts.width {
          c.matrix[row, col] := matrix[row, col];
        }
        row := row + 1;
      }
      c.count := count;
      c.stream := stream;
    }

    /** The streams of the sources. */
    static ghost function StreamsOf(sources: seq<CountMinSketch>): (s: seq<Stream>)
      reads sources
      ensures |s| == |sources| && forall i :: 0 <= i < |s| ==> s[i] == sources[i].stream
    {
      seq(|sources|, i requires 0 <= i < |sources| reads sources => sources[i].stream)
    }

    /** What the caller guarantees: all sketches are of one shape, and the destination is
        among the sources exactly under its own key. */
    ghost predicate CanMerge(sources: seq<CountMinSketch>, weights: seq<nat>, originalKey: Str, keys: seq<Str>)
      reads this, matrix, sources, set s | s in sources :: s.matrix
    {
      && Valid() && |sources| == |weights| == |keys|
      && forall i :: 0 <= i < |sources| ==>
           && sources[i].Valid() && sources[i].opts == opts
           && (keys[i] == originalKey <==> sources[i] == this)
           && (sources[i] != this ==> sources[i].matrix != matrix)
    }

    method Reset()
      requires Shaped()
      modifies matrix
      ensures forall row, col :: 0 <= row < opts.depth && 0 <= col < opts.width ==> matrix[row, col] == 0
    {
      var row := 0;
      while row < opts.depth
        invariant 0 <= row <= opts.depth
        invariant forall r, col :: 0 <= r < row && 0 <= col < opts.width ==> matrix[r, col] == 0
      {
        var col := 0;
        while col < opts.width
          invariant 0 <= col <= opts.width
          invariant forall r, c :: 0 <= r < row && 0 <= c < opts.width ==> matrix[r, c] == 0
          invariant forall c :: 0 <= c < col ==> matrix[row, c] == 0
        {
          matrix[row, col] := 0;
          col := col + 1;
        }
        row := row + 1;
      }
    }

    /** The sketches the merge reads, and the streams they stand for; the merge writes none of them. */
    ghost predicate Ready(used: seq<CountMinSketch>, streams: seq<Stream>)
      reads used, set s | s in used :: s.matrix
    {
      && |used| == |streams|
      && forall i :: 0 <= i < |used| ==>
           && used[i].Valid() && used[i].opts == opts && used[i].stream == streams[i]
           && used[i] != this && used[i].matrix != matrix
    }

    /** The weighted sum of one cell over all sources. */
    method MergeCell(sources: seq<CountMinSketch>, weights: seq<nat>, originalKey: Str, keys: seq<Str>,
                     originalCopy: CountMinSketch, ghost used: seq<CountMinSketch>, ghost streams: seq<Stream>,
                     row: nat, col: nat)
      requires Shaped() && row < opts.depth && col < opts.width && matrix[row, col] == 0
      requires Ready(used, streams) && |sources| == |weights| == |keys| == |used|
      requires forall i :: 0 <= i < |sources| ==> used[i] == if keys[i] == originalKey then originalCopy else sources[i]
      modifies matrix
      ensures matrix[row, col] == CellSum(opts, Merged(streams, weights), row, col) % TWO64
      ensures forall r, c :: 0 <= r < opts.depth && 0 <= c < opts.width && (r != row || c != col) ==>
                matrix[r, c] == old(matrix[r, c])
    {
      hide Opts.Position, CellSum, Total, Merged, TrueCount;
      NoneMerged(opts, row, col);
      for i := 0 to |sources|
        invariant Ready(used, streams)
        invariant matrix[row, col] == CellSum(opts, Merged(streams[..i], weights[..i]), row, col) % TWO64
        invariant forall r, c :: 0 <= r < opts.depth && 0 <= c < opts.width && (r != row || c != col) ==>
                    matrix[r, c] == old(matrix[r, c])
      {
        MergedStep(opts, streams, weights, i, row, col, []);
        AddMulWord(CellSum(opts, Merged(streams[..i], weights[..i]), row, col), weights[i],
          CellSum(opts, streams[i], row, col));
        var src := if keys[i] == originalKey then originalCopy else sources[i];
        assert src == used[i];
        matrix[row, col] := (matrix[row, col] + weights[i] * src.matrix[row, col]) % TWO64;
      }
      assert streams[..|sources|] == streams && weights[..|sources|] == weights;
    }

    method MergeCount(sources: seq<CountMinSketch>, weights: seq<nat>, originalKey: Str, keys: seq<Str>,
                      originalCopy: CountMinSketch, ghost used: seq<CountMinSketch>, ghost streams: seq<Stream>)
      requires opts.Ok()
      requires Ready(used, streams) && |sources| == |weights| == |keys| == |used|
      requires forall i :: 0 <= i < |sources| ==> used[i] == if keys[i] == originalKey then originalCopy else sources[i]
      modifies this`count
      ensures count == Total(Merged(streams, weights)) % TWO64
    {
      hide Opts.Position, CellSum, Total, Merged, TrueCount;
      count := 0;
      NoneMerged(opts, 0, 0);
      for i := 0 to |sources|
        invariant Ready(used, streams)
        invariant count == Total(Merged(streams[..i], weights[..i])) % TWO64
      {
        MergedStep(opts, streams, weights, i, 0, 0, []);
        AddMulWord(Total(Merged(streams[..i], weights[..i])), weights[i], Total(streams[i]));
        var src := if keys[i] == originalKey then originalCopy else sources[i];
        assert src == used[i];
        count := (count + weights[i] * src.count) % TWO64;
      }
      assert streams[..|sources|] == streams && weights[..|sources|] == weights;
    }

    /** Afterwards the sketch stands for the weighted streams of the sources as they were
        before the call, also where it is one or several of them itself. */
    method MergeMatrices(sources: seq<CountMinSketch>, weights: seq<nat>, originalKey: Str, keys: seq<Str>)
      requires CanMerge(sources, weights, originalKey, keys)
      modifies this, matrix
      ensures Valid() && stream == Merged(old(StreamsOf(sources)), weights)
      ensures forall key :: TrueCount(stream, key) == WeightedCount(old(StreamsOf(sources)), weights, key)
    {
      hide Opts.Position, CellSum, Total, Merged, TrueCount, WeightedCount;
      ghost var streams := StreamsOf(sources);
      ghost var merged := Merged(streams, weights);
      var originalCopy := DeepCopy();
      ghost var used := seq(|sources|, i requires 0 <= i < |sources| =>
        if keys[i] == originalKey then originalCopy else sources[i]);
      assert Ready(used, streams);
      Reset();
      var row := 0;
      while row < opts.depth
        invariant 0 <= row <= opts.depth && Ready(used, streams)
        invariant forall r, c :: 0 <= r < opts.depth && 0 <= c < opts.width ==>
                    matrix[r, c] == if r < row then CellSum(opts, merged, r, c) % TWO64 else 0
      {
        var col := 0;
        while col < opts.width
          invariant 0 <= col <= opts.width && Ready(used, streams)
          invariant forall r, c :: 0 <= r < opts.depth && 0 <= c < opts.width ==>
                      matrix[r, c] == if r < row || (r == row && c < col)
                                      then CellSum(opts, merged, r, c) % TWO64 else 0
        {
          MergeCell(sources, weights, originalKey, keys, originalCopy, used, streams, row, col);
          col := col + 1;
        }
        row := row + 1;
      }
      MergeCount(sources, weights, originalKey, keys, originalCopy, used, streams);
      stream := merged;
      forall key
        ensures TrueCount(stream, key) == WeightedCount(streams, weights, key)
      {
        MergedCount(opts, streams, weights, key);
      }
    }
  }

  lemma NoneMerged(o: Opts, row: nat, col: nat)
    requires o.Ok()
    ensures CellSum(o, Merged([], []), row, col) == 0 && Total(Merged([], [])) == 0
  {
  }
}
