/** The wrapping 32-bit ids of internal/id/id.go, and how the table of cycles expands them
    to the number of the call that issued them. */
module IdGen {
  import opened Bits

  const TURN_BITS: nat := 4
  const COUNTER_BITS: nat := 28
  const TURNS: int := 16 // 2^TURN_BITS
  const COUNTS: int := 0x1000_0000 // 2^COUNTER_BITS
  const IDS: int := 0x1_0000_0000 // the range of uint32

  /** How often the counter has wrapped when n ids have been issued. */
  function Cycles(n: nat): nat {
    n / COUNTS
  }

  /** Where the table keeps the c-th cycle. */
  function Turn(c: nat): (t: nat)
    ensures t < TURNS
  {
    c % TURNS
  }

  lemma TurnsDiffer(c: nat)
    ensures forall b: nat :: b < c < b + TURNS ==> Turn(b) != Turn(c)
  {
  }

  /** One call more: the counter moves on, and where it wraps the cycle does. */
  lemma Advance(n: nat)
    ensures (n + 1) % COUNTS == (n % COUNTS + 1) % COUNTS
    ensures var c := Cycles(n);
            && Cycles(n + 1) == (if (n + 1) % COUNTS == 0 then c + 1 else c)
            && Turn(c + 1) == (Turn(c) + 1) % TURNS && (c + 1) % IDS == (c % IDS + 1) % IDS
  {
    hide Turn;
    NextMod(n, COUNTS);
    NextTurn(Cycles(n));
    NextMod(Cycles(n), IDS);
  }

  lemma NextTurn(c: nat)
    ensures Turn(c + 1) == (Turn(c) + 1) % TURNS
  {
  }

  lemma NextMod(n: nat, m: nat)
    requires m == COUNTS || m == IDS
    ensures (n + 1) % m == (n % m + 1) % m
    ensures (n + 1) / m == if (n + 1) % m == 0 then n / m + 1 else n / m
  {
  }

  lemma SplitId(n: nat)
    ensures n % IDS == Turn(Cycles(n)) * COUNTS + n % COUNTS
    ensures n == Cycles(n) * COUNTS + n % COUNTS
  {
  }

  class Generator {
    var turn: nat
    var cycle: nat
    var counter: nat
    const cycleMap: array<nat>
    ghost var issued: nat // how many ids have been issued

    ghost predicate Valid()
      reads this, cycleMap
    {
      && cycleMap.Length == TURNS
      && turn == Turn(Cycles(issued))
      && cycle == Cycles(issued) % IDS
      && counter == issued % COUNTS
      && forall c: nat :: c <= Cycles(issued) < c + TURNS ==> cycleMap[Turn(c)] == c % IDS
    }

    constructor ()
      ensures Valid() && issued == 0 && fresh(cycleMap)
    {
      turn, cycle, counter, issued := 0, 0, 0, 0;
      cycleMap := new nat[Shl(1, TURN_BITS)](_ => 0);
    }

    /** The n-th call returns n mod 2^32. */
    method NextID() returns (id: nat)
      requires Valid()
      modifies this, cycleMap
      ensures Valid() && issued == old(issued) + 1
      ensures id == issued % IDS
    {
      hide And, Or, Shl, Cycles, Turn;
      Advance(issued);
      TurnsDiffer(Cycles(issued) + 1);
      SplitId(issued + 1);
      MaskCounter(counter + 1);
      counter := And(counter + 1, Shl(1, COUNTER_BITS) - 1);
      if counter == 0 {
        cycle := (cycle + 1) % IDS;
        MaskTurn(turn + 1);
        turn := And(turn + 1, Shl(1, TURN_BITS) - 1);
        cycleMap[turn] := cycle;
      }
      issued := issued + 1;
      id := JoinTurn(turn, counter);
    }

    function ExpandID(id: nat): nat
      requires Valid() && id < IDS
      reads this, cycleMap
    {
      ShrCounter(id);
      Or(id, Shl(cycleMap[Shr(id, COUNTER_BITS)], COUNTER_BITS))
    }

    /** An id expands to the number of the call that issued it exactly until the cycle has
        advanced by 16. */
    lemma ExpandExact(n: nat)
      requires Valid() && n <= issued < 0x1000_0000_0000_0000
      ensures ExpandID(n % IDS) == n <==> Cycles(issued) < Cycles(n) + TURNS
    {
      hide Or, Shl, Shr, Cycles, Turn;
      var id, now := n % IDS, Cycles(issued);
      SplitId(n);
      ShrCounter(id);
      IdParts(n);
      CyclesSmall(issued, n);
      var c := LatestAt(Turn(Cycles(n)), now, Cycles(n));
      OrCycle(id, c);
      SmallId(c);
      assert cycleMap[Turn(c)] == c;
    }
  }

  lemma IdParts(n: nat)
    ensures n % IDS / COUNTS == Turn(Cycles(n)) && n % IDS % COUNTS == n % COUNTS
  {
  }

  lemma CyclesSmall(m: nat, n: nat)
    requires n <= m < 0x1000_0000_0000_0000
    ensures Cycles(n) <= Cycles(m) < IDS
  {
  }

  lemma SmallId(c: nat)
    requires c < IDS
    ensures c % IDS == c
  {
  }

  /** The last cycle so far that the table keeps where it kept cycle c. */
  lemma LatestAt(t: nat, now: nat, c: nat) returns (latest: nat)
    requires t == Turn(c) && c <= now
    ensures Turn(latest) == t && latest <= now < latest + TURNS
    ensures latest == c <==> now < c + TURNS
  {
    latest := now - (now - c) % TURNS;
  }

  lemma MaskCounter(x: nat)
    requires x <= COUNTS
    ensures Shl(1, COUNTER_BITS) == COUNTS
    ensures And(x, Shl(1, COUNTER_BITS) - 1) == x % COUNTS
  {
    hide And, Shl, Shr, Low;
    Pow2Values();
    ShlMul(1, COUNTER_BITS);
    AndLow(x, COUNTER_BITS);
    LowBound(x, COUNTER_BITS);
    ShrCounter(x);
  }

  lemma MaskTurn(x: nat)
    requires x <= TURNS
    ensures Shl(1, TURN_BITS) == TURNS
    ensures And(x, Shl(1, TURN_BITS) - 1) == x % TURNS
  {
    hide And, Low;
    AndLow(x, TURN_BITS);
    LowMod(x, TURN_BITS);
  }

  /** The high and the low part of a number, split at the counter. */
  lemma ShrCounter(x: nat)
    ensures Shr(x, COUNTER_BITS) == x / COUNTS && Low(x, COUNTER_BITS) == x % COUNTS
  {
    hide Shl, Shr, Low, Pow2;
    Pow2Values();
    LowShr(x, COUNTER_BITS);
    LowBound(x, COUNTER_BITS);
    ShlMul(Shr(x, COUNTER_BITS), COUNTER_BITS);
  }

  function JoinTurn(turn: nat, counter: nat): (id: nat)
    requires counter < COUNTS
    ensures id == turn * COUNTS + counter
  {
    Pow2Values();
    OrDisjoint(counter, turn, COUNTER_BITS);
    ShlMul(turn, COUNTER_BITS);
    Or(Shl(turn, COUNTER_BITS), counter)
  }

  /** Bits above the n-th do not meet those below. */
  lemma {:induction false} OrAbove(k: nat, t: nat, c: nat, n: nat)
    requires k < Pow2(n)
    ensures Or(k + Shl(t, n), Shl(c, n)) == k + Shl(Or(t, c), n)
    decreases n
  {
    if n > 0 {
      OrAbove(k / 2, t, c, n - 1);
      var y, z := Shl(t, n - 1), Shl(c, n - 1);
      assert 2 * z / 2 == z && 2 * z % 2 == 0;
      assert (k + 2 * y) / 2 == k / 2 + y && (k + 2 * y) % 2 == k % 2;
    }
  }

  lemma {:induction false} OrLow(c: nat, n: nat)
    ensures Or(Low(c, n), c) == c
    decreases n
  {
    if n > 0 {
      OrLow(c / 2, n - 1);
    }
  }

  /** The turn kept in an id is part of the cycle, so setting the cycle's bits replaces it. */
  lemma OrCycle(id: nat, c: nat)
    requires id < IDS && Turn(c) == id / COUNTS
    ensures Or(id, Shl(c, COUNTER_BITS)) == c * COUNTS + id % COUNTS
  {
    hide Or, Shl, Low;
    Pow2Values();
    var k, t := id % COUNTS, id / COUNTS;
    ShlMul(t, COUNTER_BITS);
    ShlMul(c, COUNTER_BITS);
    OrAbove(k, t, c, COUNTER_BITS);
    LowMod(c, TURN_BITS);
    OrLow(c, TURN_BITS);
  }

  /** Ids drawn in a row: distinct over any 2^32 calls, and increasing once expanded. */
  method Draw(g: Generator, k: nat) returns (ids: seq<nat>, expanded: seq<nat>)
    requires g.Valid() && g.issued + k < 0x1000_0000_0000_0000
    modifies g, g.cycleMap
    ensures |ids| == |expanded| == k
    ensures forall i, j :: 0 <= i < j < k ==> expanded[i] < expanded[j]
    ensures forall i, j :: 0 <= i < j < k && j - i < IDS ==> ids[i] != ids[j]
  {
    ghost var start := g.issued;
    ids, expanded := [], [];
    while |ids| < k
      invariant g.Valid() && |ids| == |expanded| <= k && g.issued == start + |ids|
      invariant forall i :: 0 <= i < |ids| ==> ids[i] == (start + i + 1) % IDS && expanded[i] == start + i + 1
    {
      var id := g.NextID();
      g.ExpandExact(g.issued);
      var e := g.ExpandID(id);
      ids, expanded := ids + [id], expanded + [e];
    }
    forall i, j | 0 <= i < j < k && j - i < IDS
      ensures ids[i] != ids[j]
    {
      assert (start + i + 1) % IDS != (start + j + 1) % IDS;
    }
  }
}
