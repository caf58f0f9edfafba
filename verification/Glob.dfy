/** WildCardMatch of internal/regex/regex.go: matching with * and ? by remembering only the last star. */
module Glob {
  import opened Bits
  import opened Decimal

  const STAR: byte := 42
  const ANY: byte := 63

  /** What a pattern means: * stands for any run of bytes, ? for any one byte. */
  predicate Matches(p: Str, k: Str)
    decreases |p| + |k|
  {
    if p == [] then k == []
    else if p[0] == 42 then Matches(p[1..], k) || (k != [] && Matches(p, k[1..]))
    else k != [] && (p[0] == 63 || p[0] == k[0]) && Matches(p[1..], k[1..])
  }

  /** One step of matching the first i bytes of a key. */
  lemma MatchesStep(p: Str, k: Str, i: nat)
    requires p != [] && i <= |k|
    ensures p[0] == 42 ==>
              (Matches(p, k[..i]) <==> Matches(p[1..], k[..i]) || (i > 0 && Matches(p, k[1..][..i - 1])))
    ensures p[0] != 42 ==>
              (Matches(p, k[..i]) <==> i > 0 && (p[0] == 63 || p[0] == k[0]) && Matches(p[1..], k[1..][..i - 1]))
  {
    if i > 0 {
      assert k[..i][1..] == k[1..][..i - 1];
    }
  }

  ghost predicate SplitAt(p: Str, q: Str, k: Str, i: nat)
    requires i <= |k|
  {
    Matches(p, k[..i]) && Matches(q, k[i..])
  }

  /** A pattern matches a key exactly when its two parts match two parts of the key. */
  lemma {:induction false} MatchesParts(p: Str, q: Str, k: Str)
    ensures Matches(p + q, k) <==> exists i :: 0 <= i <= |k| && SplitAt(p, q, k, i)
    decreases |p| + |k|
  {
    if p == [] {
      assert p + q == q && k[0..] == k && k[..0] == [];
      assert SplitAt([], q, k, 0) == Matches(q, k);
    } else {
      hide Matches;
      PartsStep(p, q, k);
      MatchesParts(p[1..], q, k);
      if i :| 0 <= i <= |k| && SplitAt(p[1..], q, k, i) && p[0] == 42 {
        assert SplitAt(p, q, k, i);
      }
      if k != [] {
        var rest := k[1..];
        MatchesParts(p[1..], q, rest);
        MatchesParts(p, q, rest);
        if i :| 0 <= i <= |rest| && SplitAt(p, q, rest, i) && p[0] == 42 {
          assert SplitAt(p, q, k, i + 1);
        }
        if i :| 0 <= i <= |rest| && SplitAt(p[1..], q, rest, i) && p[0] != 42 {
          assert SplitAt(p, q, k, i + 1) <==> p[0] == 63 || p[0] == k[0];
        }
      }
    }
  }

  /** What one step does to both sides. */
  lemma PartsStep(p: Str, q: Str, k: Str)
    requires p != []
    ensures p[0] == 42 ==>
              (Matches(p + q, k) <==> Matches(p[1..] + q, k) || (k != [] && Matches(p + q, k[1..])))
    ensures p[0] != 42 ==>
              (Matches(p + q, k) <==> k != [] && (p[0] == 63 || p[0] == k[0]) && Matches(p[1..] + q, k[1..]))
    ensures forall i :: 0 <= i <= |k| && p[0] == 42 ==>
              (SplitAt(p, q, k, i) <==> SplitAt(p[1..], q, k, i) || (i > 0 && SplitAt(p, q, k[1..], i - 1)))
    ensures forall i :: 0 <= i <= |k| && p[0] != 42 ==>
              (SplitAt(p, q, k, i) <==>
                 i > 0 && (p[0] == 63 || p[0] == k[0]) && SplitAt(p[1..], q, k[1..], i - 1))
    ensures forall i :: 0 <= i < |k| ==> k[1..][i..] == k[i + 1..]
  {
    hide Matches;
    assert (p + q)[1..] == p[1..] + q && (p + q)[0] == p[0] && k[..|k|] == k;
    MatchesStep(p + q, k, |k|);
    if k != [] {
      assert k[1..][..|k| - 1] == k[1..];
    }
    forall i | 0 <= i <= |k|
      ensures p[0] == 42 ==>
                (SplitAt(p, q, k, i) <==> SplitAt(p[1..], q, k, i) || (i > 0 && SplitAt(p, q, k[1..], i - 1)))
      ensures p[0] != 42 ==>
                (SplitAt(p, q, k, i) <==>
                   i > 0 && (p[0] == 63 || p[0] == k[0]) && SplitAt(p[1..], q, k[1..], i - 1))
    {
      MatchesStep(p, k, i);
      if i > 0 {
        assert k[1..][i - 1..] == k[i..];
      }
    }
  }

  /** One byte: "*" matches every key, "?" every single byte, and any other byte itself. */
  lemma {:induction false} MatchesOne(c: byte, k: Str)
    ensures Matches([c], k) <==> c == 42 || (|k| == 1 && (c == 63 || k == [c]))
    decreases |k|
  {
    assert [c][1..] == [];
    if k != [] {
      MatchesOne(c, k[1..]);
    }
  }

  predicate AllStars(p: Str) {
    forall i :: 0 <= i < |p| ==> p[i] == STAR
  }

  /** A position of the scan: star and mark are -1, or the last star passed and where its run ends. */
  predicate InRange(p: Str, k: Str, pi: int, ki: int, star: int, mark: int) {
    && 0 <= pi <= |p| && 0 <= ki <= |k|
    && (star == -1 || (0 <= star < pi && p[star] == STAR && 0 <= mark && mark + pi - star - 1 == ki))
  }

  /** The answer of the scan from a position on. */
  predicate Scan(p: Str, k: Str, pi: int, ki: int, star: int, mark: int)
    requires InRange(p, k, pi, ki, star, mark)
    decreases |p| - star, |k| - mark, |k| - ki
  {
    if ki == |k| then AllStars(p[pi..])
    else if pi < |p| && (p[pi] == ANY || p[pi] == k[ki]) then Scan(p, k, pi + 1, ki + 1, star, mark)
    else if pi < |p| && p[pi] == STAR then Scan(p, k, pi + 1, ki, pi, ki)
    else if star != -1 then Scan(p, k, star + 1, mark + 1, star, mark + 1)
    else false
  }

  predicate Accepts(p: Str, k: Str) {
    Scan(p, k, 0, 0, -1, -1)
  }

  method WildCardMatch(pattern: Str, key: Str) returns (r: bool)
    ensures r == Accepts(pattern, key)
    ensures r ==> Matches(pattern, key)
    ensures STAR !in key ==> r == Matches(pattern, key)
  {
    hide Matches, Scan, AllStars;
    var patternIndex, keyIndex, starIndex, kIndex := 0, 0, -1, -1;
    Verdict(pattern, key);
    while keyIndex < |key|
      invariant InRange(pattern, key, patternIndex, keyIndex, starIndex, kIndex)
      invariant Accepts(pattern, key) == Scan(pattern, key, patternIndex, keyIndex, starIndex, kIndex)
      decreases |pattern| - starIndex, |key| - kIndex, |key| - keyIndex
    {
      ScanStep(pattern, key, patternIndex, keyIndex, starIndex, kIndex);
      if patternIndex < |pattern| && (pattern[patternIndex] == ANY || pattern[patternIndex] == key[keyIndex]) {
        patternIndex := patternIndex + 1;
        keyIndex := keyIndex + 1;
      } else if patternIndex < |pattern| && pattern[patternIndex] == STAR {
        starIndex := patternIndex;
        kIndex := keyIndex;
        patternIndex := patternIndex + 1;
      } else if starIndex != -1 {
        patternIndex := starIndex + 1;
        kIndex := kIndex + 1;
        keyIndex := kIndex;
      } else {
        return false;
      }
    }
    ScanStep(pattern, key, patternIndex, keyIndex, starIndex, kIndex);
    ghost var rest := pattern[patternIndex..];
    while patternIndex < |pattern| && pattern[patternIndex] == STAR
      invariant 0 <= patternIndex <= |pattern|
      invariant AllStars(rest) == AllStars(pattern[patternIndex..])
    {
      StarFirst(pattern[patternIndex..]);
      assert pattern[patternIndex..][1..] == pattern[patternIndex + 1..];
      patternIndex := patternIndex + 1;
    }
    NotStars(pattern, patternIndex);
    return patternIndex == |pattern|;
  }

  /** One step of the scan, or its answer at the end of the key. */
  lemma ScanStep(p: Str, k: Str, pi: int, ki: int, star: int, mark: int)
    requires InRange(p, k, pi, ki, star, mark)
    ensures Scan(p, k, pi, ki, star, mark) ==
            if ki == |k| then AllStars(p[pi..])
            else if pi < |p| && (p[pi] == ANY || p[pi] == k[ki]) then Scan(p, k, pi + 1, ki + 1, star, mark)
            else if pi < |p| && p[pi] == STAR then Scan(p, k, pi + 1, ki, pi, ki)
            else star != -1 && Scan(p, k, star + 1, mark + 1, star, mark + 1)
  {
    hide AllStars;
  }

  lemma NotStars(p: Str, i: nat)
    requires i <= |p| && (i < |p| ==> p[i] != STAR)
    ensures AllStars(p[i..]) <==> i == |p|
  {
    assert i < |p| ==> p[i..][0] == p[i];
  }

  lemma StarFirst(p: Str)
    requires p != [] && p[0] == STAR
    ensures AllStars(p) == AllStars(p[1..])
  {
    assert forall i :: 0 < i < |p| ==> p[i] == p[1..][i - 1];
  }

  lemma {:induction false} StarsMatchNothing(p: Str)
    ensures Matches(p, []) <==> AllStars(p)
  {
    if p != [] && p[0] == STAR {
      StarFirst(p);
      StarsMatchNothing(p[1..]);
    }
  }

  /** One byte of the pattern against one byte of the key: a star may take that byte too. */
  lemma StepMatch(p: Str, k: Str, pi: nat, ki: nat)
    requires pi < |p| && ki < |k| && (p[pi] == ANY || p[pi] == k[ki])
    requires Matches(p[pi + 1..], k[ki + 1..])
    ensures Matches(p[pi..], k[ki..])
  {
    assert p[pi..][1..] == p[pi + 1..] && k[ki..][1..] == k[ki + 1..];
    if p[pi] == STAR {
      assert Matches(p[pi..], k[ki + 1..]);
    }
  }

  /** Either the rest of the pattern matches here, or the last star takes at least one byte more. */
  ghost predicate StillMatches(p: Str, k: Str, pi: int, ki: int, star: int, mark: int)
    requires InRange(p, k, pi, ki, star, mark)
  {
    || Matches(p[pi..], k[ki..])
    || (star != -1 && mark < |k| && Matches(p[star..], k[mark + 1..]))
  }

  /** What a star matches: the empty run, or one byte and what it then matches. */
  lemma AtStar(p: Str, k: Str, pi: nat, ki: nat)
    requires pi < |p| && ki <= |k| && p[pi] == STAR
    ensures Matches(p[pi..], k[ki..]) <==>
            Matches(p[pi + 1..], k[ki..]) || (ki < |k| && Matches(p[pi..], k[ki + 1..]))
  {
    assert p[pi..][1..] == p[pi + 1..];
    if ki < |k| {
      assert k[ki..][1..] == k[ki + 1..];
    }
  }

  /** The scan accepts nothing but what the pattern means, whatever the key. */
  lemma {:induction false} Sound(p: Str, k: Str, pi: int, ki: int, star: int, mark: int)
    requires InRange(p, k, pi, ki, star, mark)
    requires Scan(p, k, pi, ki, star, mark)
    ensures StillMatches(p, k, pi, ki, star, mark)
    decreases |p| - star, |k| - mark, |k| - ki
  {
    hide Matches;
    if ki == |k| {
      StarsMatchNothing(p[pi..]);
      assert k[ki..] == [];
    } else if pi < |p| && (p[pi] == ANY || p[pi] == k[ki]) {
      Sound(p, k, pi + 1, ki + 1, star, mark);
      if Matches(p[pi + 1..], k[ki + 1..]) {
        StepMatch(p, k, pi, ki);
      }
    } else if pi < |p| && p[pi] == STAR {
      Sound(p, k, pi + 1, ki, pi, ki);
      AtStar(p, k, pi, ki);
    } else {
      Sound(p, k, star + 1, mark + 1, star, mark + 1);
      AtStar(p, k, star, mark + 1);
    }
  }

  /** A stretch of the pattern without stars takes as many bytes as it is long. */
  lemma {:induction false} Segment(p: Str, k: Str, a: nat, b: nat, j: nat)
    requires a <= b <= |p| && j <= |k| && STAR !in p[a..b]
    requires Matches(p[a..], k[j..])
    ensures j + b - a <= |k| && Matches(p[b..], k[j + b - a..])
    decreases b - a
  {
    if a < b {
      assert p[a] == p[a..b][0];
      assert p[a..][1..] == p[a + 1..] && k[j..][1..] == k[j + 1..] && p[a..b][1..] == p[a + 1..b];
      Segment(p, k, a + 1, b, j + 1);
    }
  }

  /** A star that matches from m on matches from any earlier place. */
  lemma {:induction false} Absorb(p: Str, k: Str, b: nat, i: nat, m: nat)
    requires b < |p| && p[b] == STAR && i <= m <= |k| && Matches(p[b..], k[m..])
    ensures Matches(p[b..], k[i..])
    decreases m - i
  {
    if i < m {
      Absorb(p, k, b, i + 1, m);
      AtStar(p, k, b, i);
    }
  }

  /** What a star matches, all at once: some run, and then the rest of the pattern. */
  lemma {:induction false} Run(p: Str, k: Str, star: nat, i: nat) returns (j: nat)
    requires star < |p| && p[star] == STAR && i <= |k| && Matches(p[star..], k[i..])
    ensures i <= j <= |k| && Matches(p[star + 1..], k[j..])
    decreases |k| - i
  {
    AtStar(p, k, star, i);
    if Matches(p[star + 1..], k[i..]) {
      j := i;
    } else {
      j := Run(p, k, star, i + 1);
    }
  }

  /** Giving more to the last star never helps once a later star has been reached. */
  lemma LastStarSuffices(p: Str, k: Str, pi: nat, ki: nat, star: nat, mark: nat)
    requires InRange(p, k, pi, ki, star, mark) && STAR !in p[star + 1..pi]
    requires mark < |k| && Matches(p[star..], k[mark + 1..])
    ensures ki < |k|
    ensures pi < |p| && p[pi] == STAR ==> Matches(p[pi..], k[ki..])
  {
    hide Matches;
    var j := Run(p, k, star, mark + 1);
    Segment(p, k, star + 1, pi, j);
    if pi < |p| && p[pi] == STAR {
      Absorb(p, k, pi, ki, j + pi - star - 1);
    }
  }

  /** When the key holds no star, the scan accepts everything the pattern means. */
  lemma {:induction false} Complete(p: Str, k: Str, pi: int, ki: int, star: int, mark: int)
    requires InRange(p, k, pi, ki, star, mark) && STAR !in k && STAR !in p[star + 1..pi]
    requires StillMatches(p, k, pi, ki, star, mark)
    ensures Scan(p, k, pi, ki, star, mark)
    decreases |p| - star, |k| - mark, |k| - ki
  {
    hide Matches;
    var later := star != -1 && mark < |k| && Matches(p[star..], k[mark + 1..]);
    if later {
      LastStarSuffices(p, k, pi, ki, star, mark);
    }
    if ki == |k| {
      assert k[ki..] == [];
      StarsMatchNothing(p[pi..]);
    } else if pi < |p| && (p[pi] == ANY || p[pi] == k[ki]) {
      assert p[pi] != STAR && p[star + 1..pi + 1] == p[star + 1..pi] + [p[pi]];
      if Matches(p[pi..], k[ki..]) {
        Literal(p, k, pi, ki);
      }
      Complete(p, k, pi + 1, ki + 1, star, mark);
    } else if pi < |p| && p[pi] == STAR {
      AtStar(p, k, pi, ki);
      assert p[pi + 1..pi + 1] == [];
      Complete(p, k, pi + 1, ki, pi, ki);
    } else {
      Mismatch(p, k, pi, ki);
      AtStar(p, k, star, mark + 1);
      assert p[star + 1..star + 1] == [];
      Complete(p, k, star + 1, mark + 1, star, mark + 1);
    }
  }

  /** The scan from the start: never wrong to accept, and right on keys without a star. */
  lemma Verdict(p: Str, k: Str)
    ensures Accepts(p, k) ==> Matches(p, k)
    ensures STAR !in k ==> Accepts(p, k) == Matches(p, k)
  {
    hide Matches, Scan;
    assert p[0..] == p && k[0..] == k;
    if Accepts(p, k) {
      Sound(p, k, 0, 0, -1, -1);
    }
    if STAR !in k && Matches(p, k) {
      Complete(p, k, 0, 0, -1, -1);
    }
  }

  lemma Literal(p: Str, k: Str, pi: nat, ki: nat)
    requires pi < |p| && ki < |k| && p[pi] != STAR && Matches(p[pi..], k[ki..])
    ensures Matches(p[pi + 1..], k[ki + 1..])
  {
    assert p[pi..][1..] == p[pi + 1..] && k[ki..][1..] == k[ki + 1..];
  }

  lemma Mismatch(p: Str, k: Str, pi: nat, ki: nat)
    requires pi <= |p| && ki < |k|
    requires pi < |p| ==> p[pi] != STAR && p[pi] != ANY && p[pi] != k[ki]
    ensures !Matches(p[pi..], k[ki..])
  {
  }

  // ---------- keys that hold a star ----------

  /** A pattern that starts like the key, without a star, gets that far. */
  lemma {:induction false} SamePrefix(p: Str, k: Str, n: nat, i: nat)
    requires i <= n <= |p| && n <= |k| && p[..n] == k[..n]
    ensures Scan(p, k, i, i, -1, -1) == Scan(p, k, n, n, -1, -1)
    decreases n - i
  {
    if i < n {
      assert p[i] == p[..n][i] && k[i] == k[..n][i];
      SamePrefix(p, k, n, i + 1);
    }
  }

  lemma {:induction false} PrefixMatches(p: Str, k: Str, n: nat, i: nat)
    requires i <= n <= |p| && n <= |k| && p[..n] == k[..n]
    requires Matches(p[n..], k[n..])
    ensures Matches(p[i..], k[i..])
    decreases n - i
  {
    if i < n {
      assert p[i] == p[..n][i] && k[i] == k[..n][i];
      PrefixMatches(p, k, n, i + 1);
      StepMatch(p, k, i, i);
    }
  }

  /** Some pattern is refused although it means the key: the scan takes a star in the key
      for the star of the pattern. */
  lemma StarInKey(k: Str) returns (p: Str)
    requires STAR in k
    ensures Matches(p, k) && !Accepts(p, k)
  {
    var n :| 0 <= n < |k| && k[n] == STAR;
    var more := n + 1 < |k|;
    p := k[..n + 1] + if more then [] else [ANY];
    SamePrefix(p, k, n + 1, 0);
    if more {
      StarsMatchNothing(p[n..]);
      assert k[|k|..] == [];
      Absorb(p, k, n, n, |k|);
    } else {
      assert p[n + 1..] == [ANY] && k[n..] == [STAR] && [ANY][1..] == [] && [STAR][1..] == [];
      AtStar(p, k, n, n);
    }
    PrefixMatches(p, k, n, 0);
    assert p[0..] == p && k[0..] == k;
  }

  /** WildCardMatch agrees with the meaning of every pattern exactly on the keys without a star. */
  lemma AgreesExactly(k: Str)
    ensures (forall p :: Accepts(p, k) == Matches(p, k)) <==> STAR !in k
  {
    if STAR in k {
      var p := StarInKey(k);
    } else {
      forall p
        ensures Accepts(p, k) == Matches(p, k)
      {
        Verdict(p, k);
      }
    }
  }
}
