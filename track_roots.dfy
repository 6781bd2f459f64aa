/** `scripts/track_roots.py`: starting from the instances of a class, count
    who refers to them, level by level, and stop following the
    (class, referring class) pairs that are already common. The database
    queries are inputs to the model. */
module TrackRoots {
  import opened Wrappers

  /** One instance found at some level: its class, its surrogate, its array
      length when it is an array, and the class of the instance it refers
      to (lines 19-23). */
  datatype Ref = Ref(className: string, instanceId: int, arrayLen: Option<int>, refClassName: Option<string>)

  /** One line of a report (lines 13-16). */
  datatype Count = Count(className: string, refClassName: Option<string>, count: nat)

  type Pair = (string, Option<string>)

  /** `class_pair` (lines 26-27), on instances and on report lines. */
  function ClassPair(r: Ref): Pair {
    (r.className, r.refClassName)
  }

  function CountPair(c: Count): Pair {
    (c.className, c.refClassName)
  }

  function Pairs(instances: seq<Ref>): (ps: seq<Pair>)
    ensures |ps| == |instances| && forall i | 0 <= i < |ps| :: ps[i] == ClassPair(instances[i])
  {
    seq(|instances|, i requires 0 <= i < |instances| => ClassPair(instances[i]))
  }

  function PairsOfCounts(items: seq<Count>): (ps: seq<Pair>)
    ensures |ps| == |items| && forall i | 0 <= i < |ps| :: ps[i] == CountPair(items[i])
  {
    seq(|items|, i requires 0 <= i < |items| => CountPair(items[i]))
  }

  // ---------------------------------------------------------------------
  // Counting (line 156 and lines 158-161)

  function Occurrences(ps: seq<Pair>, p: Pair): nat {
    if ps == [] then 0 else Occurrences(ps[..|ps| - 1], p) + (if ps[|ps| - 1] == p then 1 else 0)
  }

  /** Position of the line for `p`, or `|items|` when there is none. */
  function FindPair(items: seq<Count>, p: Pair): (k: nat)
    ensures k <= |items|
    ensures k < |items| ==> CountPair(items[k]) == p
    ensures k == |items| ==> forall i | 0 <= i < |items| :: CountPair(items[i]) != p
  {
    if items == [] then 0
    else if CountPair(items[0]) == p then 0
    else 1 + FindPair(items[1..], p)
  }

  /** The lines of `Counter(...).items()`: one per distinct pair, in order
      of first occurrence, each with its number of occurrences. */
  function Tally(ps: seq<Pair>): seq<Count> {
    if ps == [] then []
    else
      var items := Tally(ps[..|ps| - 1]);
      var p := ps[|ps| - 1];
      var k := FindPair(items, p);
      if k < |items| then items[k := items[k].(count := items[k].count + 1)]
      else items + [Count(p.0, p.1, 1)]
  }

  function SumCounts(items: seq<Count>): nat {
    if items == [] then 0 else SumCounts(items[..|items| - 1]) + items[|items| - 1].count
  }

  ghost predicate DistinctPairs(items: seq<Count>) {
    forall i, j | 0 <= i < j < |items| :: CountPair(items[i]) != CountPair(items[j])
  }

  lemma {:induction false} SumCountsBump(items: seq<Count>, k: nat)
    requires k < |items|
    ensures SumCounts(items[k := items[k].(count := items[k].count + 1)]) == SumCounts(items) + 1
  {
    var bumped := items[k := items[k].(count := items[k].count + 1)];
    if k < |items| - 1 {
      assert bumped[..|bumped| - 1] == items[..|items| - 1][k := items[k].(count := items[k].count + 1)];
      SumCountsBump(items[..|items| - 1], k);
    } else {
      assert bumped[..|bumped| - 1] == items[..|items| - 1];
    }
  }

  lemma OccurrencesLast(ps: seq<Pair>, q: Pair)
    requires ps != []
    ensures Occurrences(ps, q) == Occurrences(ps[..|ps| - 1], q) + (if ps[|ps| - 1] == q then 1 else 0)
  {
  }

  lemma OccurrencesZero(ps: seq<Pair>, q: Pair)
    requires q !in ps
    ensures Occurrences(ps, q) == 0
  {
  }

  lemma OccurrencesPositive(ps: seq<Pair>, q: Pair)
    requires q in ps
    ensures Occurrences(ps, q) >= 1
  {
  }

  /** One step of the counter: the line for the new pair is bumped or
      appended, and nothing else changes. */
  lemma {:induction false} TallyStep(ps: seq<Pair>)
    requires ps != []
    ensures var items := Tally(ps[..|ps| - 1]);
            var p := ps[|ps| - 1];
            var k := FindPair(items, p);
            if k < |items| then Tally(ps) == items[k := items[k].(count := items[k].count + 1)]
            else Tally(ps) == items + [Count(p.0, p.1, 1)]
  {
  }

  /** The counter holds one line per distinct pair of the input and no
      other. */
  lemma {:induction false} TallyPairs(ps: seq<Pair>)
    ensures DistinctPairs(Tally(ps))
    ensures forall p :: p in PairsOfCounts(Tally(ps)) <==> p in ps
  {
    if ps != [] {
      var front := ps[..|ps| - 1];
      TallyPairs(front);
      TallyStep(ps);
      var items := Tally(front);
      var p := ps[|ps| - 1];
      assert ps == front + [p];
      var k := FindPair(items, p);
      if k < |items| {
        assert PairsOfCounts(Tally(ps)) == PairsOfCounts(items);
      } else {
        assert PairsOfCounts(Tally(ps)) == PairsOfCounts(items) + [p];
      }
    }
  }

  /** Each line counts its pair's occurrences in the input. */
  lemma {:induction false} TallyCounts(ps: seq<Pair>)
    ensures forall i | 0 <= i < |Tally(ps)| :: Tally(ps)[i].count == Occurrences(ps, CountPair(Tally(ps)[i]))
  {
    if ps != [] {
      var front := ps[..|ps| - 1];
      TallyCounts(front);
      TallyPairs(front);
      TallyStep(ps);
      var items := Tally(front);
      var p := ps[|ps| - 1];
      var k := FindPair(items, p);
      forall i | 0 <= i < |Tally(ps)|
        ensures Tally(ps)[i].count == Occurrences(ps, CountPair(Tally(ps)[i]))
      {
        var q := CountPair(Tally(ps)[i]);
        OccurrencesLast(ps, q);
        if k < |items| {
          assert q == CountPair(items[i]);
          if i != k {
            assert CountPair(items[k]) == p;
          }
        } else if i < |items| {
          assert q == CountPair(items[i]);
        } else {
          assert q == p && p !in front;
          OccurrencesZero(front, p);
        }
      }
    }
  }

  /** The counts add up to the number of instances. */
  lemma {:induction false} TallySum(ps: seq<Pair>)
    ensures SumCounts(Tally(ps)) == |ps|
  {
    if ps != [] {
      var front := ps[..|ps| - 1];
      TallySum(front);
      TallyStep(ps);
      var items := Tally(front);
      var p := ps[|ps| - 1];
      var k := FindPair(items, p);
      if k < |items| {
        SumCountsBump(items, k);
      } else {
        assert (items + [Count(p.0, p.1, 1)])[..|items|] == items;
      }
    }
  }

  lemma TallyFacts(ps: seq<Pair>)
    ensures DistinctPairs(Tally(ps))
    ensures forall p :: p in PairsOfCounts(Tally(ps)) <==> p in ps
    ensures forall i | 0 <= i < |Tally(ps)| :: Tally(ps)[i].count == Occurrences(ps, CountPair(Tally(ps)[i])) >= 1
    ensures SumCounts(Tally(ps)) == |ps|
  {
    TallyPairs(ps);
    TallyCounts(ps);
    TallySum(ps);
    forall i | 0 <= i < |Tally(ps)| ensures Occurrences(ps, CountPair(Tally(ps)[i])) >= 1 {
      assert CountPair(Tally(ps)[i]) in PairsOfCounts(Tally(ps));
      OccurrencesPositive(ps, CountPair(Tally(ps)[i]));
    }
  }

  // ---------------------------------------------------------------------
  // The report (lines 155-169)

  ghost predicate NonIncreasing(items: seq<Count>) {
    forall p, q | 0 <= p < q < |items| :: items[p].count >= items[q].count
  }

  /** Exchanges `a[j - 1]` and `a[j]`. */
  method SwapDown(a: array<Count>, j: int)
    requires 0 < j < a.Length
    modifies a
    ensures a[j - 1] == old(a[j]) && a[j] == old(a[j - 1])
    ensures forall k | 0 <= k < a.Length && k != j - 1 && k != j :: a[k] == old(a[k])
    ensures multiset(a[..]) == multiset(old(a[..]))
  {
    a[j - 1], a[j] := a[j], a[j - 1];
  }

  /** Moves `a[i]` left past every strictly smaller count, so that
      `a[..i + 1]` is in decreasing order. */
  method SinkLeft(a: array<Count>, i: int)
    requires 0 <= i < a.Length
    requires NonIncreasing(a[..i])
    modifies a
    ensures NonIncreasing(a[..i + 1])
    ensures a[i + 1..] == old(a[i + 1..])
    ensures multiset(a[..]) == multiset(old(a[..]))
  {
    var j := i;
    while j > 0 && a[j - 1].count < a[j].count
      invariant 0 <= j <= i
      invariant forall p, q | 0 <= p < q <= i && p != j && q != j :: a[p].count >= a[q].count
      invariant forall q | j < q <= i :: a[j].count > a[q].count
      invariant a[i + 1..] == old(a[i + 1..])
      invariant multiset(a[..]) == multiset(old(a[..]))
    {
      SwapDown(a, j);
      j := j - 1;
    }
  }

  /** `items.sort(key=count, reverse=True)` (line 162), in place; an
      element moves left only past a strictly smaller count. */
  method SortByCountDescending(a: array<Count>)
    modifies a
    ensures NonIncreasing(a[..])
    ensures multiset(a[..]) == multiset(old(a[..]))
  {
    for i := 0 to a.Length
      invariant NonIncreasing(a[..i])
      invariant multiset(a[..]) == multiset(old(a[..]))
    {
      SinkLeft(a, i);
    }
    assert a[..a.Length] == a[..];
  }

  /** `report` (lines 155-169): the counter's lines sorted by decreasing
      count, and for each line whether it is marked with " *", which it is
      exactly when its count reaches `limit`. */
  method Report(instances: seq<Ref>, limit: int) returns (items: seq<Count>, marked: seq<bool>)
    ensures multiset(items) == multiset(Tally(Pairs(instances)))
    ensures NonIncreasing(items)
    ensures |marked| == |items|
    ensures forall i | 0 <= i < |items| :: marked[i] <==> items[i].count >= limit
  {
    var tally := Tally(Pairs(instances));
    var a := new Count[|tally|](i requires 0 <= i < |tally| => tally[i]);
    assert a[..] == tally;
    SortByCountDescending(a);
    items := a[..];
    marked := [];
    for i := 0 to |items|
      invariant |marked| == i
      invariant forall j | 0 <= j < i :: marked[j] <==> items[j].count >= limit
    {
      marked := marked + [items[i].count >= limit];
    }
  }

  lemma {:induction false} SumCountsPermutation(a: seq<Count>, b: seq<Count>)
    requires multiset(a) == multiset(b)
    ensures SumCounts(a) == SumCounts(b)
    decreases |a|
  {
    if a != [] {
      var x := a[|a| - 1];
      assert x in multiset(b);
      var k :| 0 <= k < |b| && b[k] == x;
      var rest := RemoveAt(b, k);
      DropLast(a);
      SumCountsPermutation(a[..|a| - 1], rest);
    }
  }

  lemma DropLast(a: seq<Count>)
    requires a != []
    ensures multiset(a[..|a| - 1]) == multiset(a) - multiset{a[|a| - 1]}
  {
    assert a == a[..|a| - 1] + [a[|a| - 1]];
  }

  /** `b` without its `k`-th line: one copy fewer of it, and its count
      fewer in the sum. */
  lemma RemoveAt(b: seq<Count>, k: int) returns (rest: seq<Count>)
    requires 0 <= k < |b|
    ensures multiset(rest) == multiset(b) - multiset{b[k]}
    ensures SumCounts(b) == SumCounts(rest) + b[k].count
    ensures |rest| == |b| - 1
  {
    rest := b[..k] + b[k + 1..];
    assert b == b[..k] + [b[k]] + b[k + 1..];
    SumCountsSplit(b[..k], b[k + 1..], b[k]);
  }

  lemma {:induction false} SumCountsAppend(a: seq<Count>, b: seq<Count>)
    ensures SumCounts(a + b) == SumCounts(a) + SumCounts(b)
    decreases |b|
  {
    if b == [] {
      assert a + b == a;
    } else {
      assert (a + b)[..|a + b| - 1] == a + b[..|b| - 1];
      SumCountsAppend(a, b[..|b| - 1]);
    }
  }

  lemma SumCountsSplit(u: seq<Count>, v: seq<Count>, x: Count)
    ensures SumCounts(u + [x] + v) == SumCounts(u + v) + x.count
  {
    SumCountsAppend(u + [x], v);
    SumCountsAppend(u, [x]);
    SumCountsAppend(u, v);
    assert [x][..0] == [];
  }

  lemma SameElements(items: seq<Count>, tally: seq<Count>)
    requires multiset(items) == multiset(tally)
    ensures forall i | 0 <= i < |items| :: items[i] in tally
    ensures forall i | 0 <= i < |tally| :: tally[i] in items
  {
    forall i | 0 <= i < |items| ensures items[i] in tally {
      assert items[i] in multiset(items);
    }
    forall i | 0 <= i < |tally| ensures tally[i] in items {
      assert tally[i] in multiset(tally);
    }
  }

  /** A reordering of lines with distinct pairs still has distinct pairs. */
  lemma PermutationKeepsDistinct(items: seq<Count>, tally: seq<Count>)
    requires multiset(items) == multiset(tally)
    requires DistinctPairs(tally)
    ensures DistinctPairs(items)
  {
    SameElements(items, tally);
    forall i, j | 0 <= i < j < |items| ensures CountPair(items[i]) != CountPair(items[j]) {
      var i' :| 0 <= i' < |tally| && tally[i'] == items[i];
      var j' :| 0 <= j' < |tally| && tally[j'] == items[j];
      if i' == j' {
        TwoPositions(items, i, j);
        SinglePosition(tally, i');
        assert false;
      }
    }
  }

  lemma PermutationKeepsPairs(items: seq<Count>, tally: seq<Count>)
    requires multiset(items) == multiset(tally)
    ensures forall p :: p in PairsOfCounts(items) <==> p in PairsOfCounts(tally)
  {
    SameElements(items, tally);
    forall p ensures p in PairsOfCounts(items) ==> p in PairsOfCounts(tally) {
      if p in PairsOfCounts(items) {
        var i :| 0 <= i < |items| && PairsOfCounts(items)[i] == p;
        var i' :| 0 <= i' < |tally| && tally[i'] == items[i];
        assert PairsOfCounts(tally)[i'] == p;
      }
    }
    forall p ensures p in PairsOfCounts(tally) ==> p in PairsOfCounts(items) {
      if p in PairsOfCounts(tally) {
        var i' :| 0 <= i' < |tally| && PairsOfCounts(tally)[i'] == p;
        var i :| 0 <= i < |items| && items[i] == tally[i'];
        assert PairsOfCounts(items)[i] == p;
      }
    }
  }

  /** What `report` promises about its lines, in whatever order the sort
      leaves them: one line per distinct (class, referring class) pair of
      the instances and no other, each counting that pair's occurrences,
      and the counts add up to the number of instances. */
  lemma ReportLines(instances: seq<Ref>, items: seq<Count>)
    requires multiset(items) == multiset(Tally(Pairs(instances)))
    ensures DistinctPairs(items)
    ensures forall p :: p in PairsOfCounts(items) <==> p in Pairs(instances)
    ensures forall i | 0 <= i < |items| :: items[i].count == Occurrences(Pairs(instances), CountPair(items[i])) >= 1
    ensures SumCounts(items) == |instances|
  {
    var tally := Tally(Pairs(instances));
    TallyFacts(Pairs(instances));
    SumCountsPermutation(items, tally);
    PermutationKeepsDistinct(items, tally);
    PermutationKeepsPairs(items, tally);
    SameElements(items, tally);
  }

  lemma TwoPositions(s: seq<Count>, i: int, j: int)
    requires 0 <= i < j < |s| && s[i] == s[j]
    ensures multiset(s)[s[i]] >= 2
  {
    assert s == s[..i] + [s[i]] + s[i + 1..j] + [s[j]] + s[j + 1..];
  }

  lemma SinglePosition(s: seq<Count>, i: int)
    requires 0 <= i < |s|
    requires forall a, b | 0 <= a < b < |s| :: CountPair(s[a]) != CountPair(s[b])
    ensures multiset(s)[s[i]] == 1
  {
    assert s == s[..i] + [s[i]] + s[i + 1..];
    forall a | 0 <= a < i ensures s[a] != s[i] {
      assert CountPair(s[a]) != CountPair(s[i]);
    }
    forall b | i < b < |s| ensures s[b] != s[i] {
      assert CountPair(s[i]) != CountPair(s[b]);
    }
    assert s[i] !in multiset(s[..i]);
    assert s[i] !in multiset(s[i + 1..]);
  }

  // ---------------------------------------------------------------------
  // Pruning (lines 183-186)

  /** The pairs whose reported count reaches `limit` (line 183). */
  function Bigs(counts: seq<Count>, limit: int): set<Pair> {
    set c | c in counts && c.count >= limit :: CountPair(c)
  }

  /** The instances whose pair is not among `bigs`, in their order
      (lines 184-186). */
  function Prune(instances: seq<Ref>, bigs: set<Pair>): seq<Ref> {
    if instances == [] then []
    else
      var last := instances[|instances| - 1];
      Prune(instances[..|instances| - 1], bigs) + (if ClassPair(last) in bigs then [] else [last])
  }

  /** `idx` lists, in increasing order, the positions of `whole` that
      `part` keeps. */
  ghost predicate Embeds(idx: seq<int>, part: seq<Ref>, whole: seq<Ref>) {
    && |idx| == |part|
    && (forall k | 0 <= k < |idx| :: 0 <= idx[k] < |whole| && part[k] == whole[idx[k]])
    && (forall k, l | 0 <= k < l < |idx| :: idx[k] < idx[l])
  }

  /** Pruning keeps, in order, exactly the instances whose pair is not
      among `bigs`. */
  lemma {:induction false} PruneKeeps(instances: seq<Ref>, bigs: set<Pair>) returns (idx: seq<int>)
    ensures Embeds(idx, Prune(instances, bigs), instances)
    ensures forall k | 0 <= k < |idx| :: ClassPair(instances[idx[k]]) !in bigs
    ensures forall i | 0 <= i < |instances| && ClassPair(instances[i]) !in bigs :: i in idx
  {
    if instances == [] {
      idx := [];
    } else {
      var n := |instances| - 1;
      var idx' := PruneKeeps(instances[..n], bigs);
      idx := PruneKeepsStep(instances, bigs, idx');
    }
  }

  lemma PruneKeepsStep(instances: seq<Ref>, bigs: set<Pair>, idx': seq<int>) returns (idx: seq<int>)
    requires instances != []
    requires var front := instances[..|instances| - 1];
             && Embeds(idx', Prune(front, bigs), front)
             && (forall k | 0 <= k < |idx'| :: ClassPair(front[idx'[k]]) !in bigs)
             && (forall i | 0 <= i < |front| && ClassPair(front[i]) !in bigs :: i in idx')
    ensures Embeds(idx, Prune(instances, bigs), instances)
    ensures forall k | 0 <= k < |idx| :: ClassPair(instances[idx[k]]) !in bigs
    ensures forall i | 0 <= i < |instances| && ClassPair(instances[i]) !in bigs :: i in idx
  {
    var n := |instances| - 1;
    if ClassPair(instances[n]) in bigs {
      idx := idx';
      PruneSkipsLast(instances, bigs, idx');
    } else {
      idx := idx' + [n];
      PruneKeepsLast(instances, bigs, idx');
    }
  }

  lemma PruneSkipsLast(instances: seq<Ref>, bigs: set<Pair>, idx: seq<int>)
    requires instances != [] && ClassPair(instances[|instances| - 1]) in bigs
    requires var front := instances[..|instances| - 1];
             && Embeds(idx, Prune(front, bigs), front)
             && (forall k | 0 <= k < |idx| :: ClassPair(front[idx[k]]) !in bigs)
             && (forall i | 0 <= i < |front| && ClassPair(front[i]) !in bigs :: i in idx)
    ensures Embeds(idx, Prune(instances, bigs), instances)
    ensures forall k | 0 <= k < |idx| :: ClassPair(instances[idx[k]]) !in bigs
    ensures forall i | 0 <= i < |instances| && ClassPair(instances[i]) !in bigs :: i in idx
  {
    var n := |instances| - 1;
    var front := instances[..n];
    var kept := Prune(instances, bigs);
    assert kept == Prune(front, bigs);
    forall k | 0 <= k < |idx|
      ensures 0 <= idx[k] < |instances| && kept[k] == instances[idx[k]] && ClassPair(instances[idx[k]]) !in bigs
    {
      assert front[idx[k]] == instances[idx[k]];
    }
    forall i | 0 <= i < |instances| && ClassPair(instances[i]) !in bigs ensures i in idx {
      assert i != n;
      assert front[i] == instances[i];
    }
  }

  lemma PruneKeepsLast(instances: seq<Ref>, bigs: set<Pair>, idx': seq<int>)
    requires instances != [] && ClassPair(instances[|instances| - 1]) !in bigs
    requires var front := instances[..|instances| - 1];
             && Embeds(idx', Prune(front, bigs), front)
             && (forall k | 0 <= k < |idx'| :: ClassPair(front[idx'[k]]) !in bigs)
             && (forall i | 0 <= i < |front| && ClassPair(front[i]) !in bigs :: i in idx')
    ensures var idx := idx' + [|instances| - 1];
            && Embeds(idx, Prune(instances, bigs), instances)
            && (forall k | 0 <= k < |idx| :: ClassPair(instances[idx[k]]) !in bigs)
            && (forall i | 0 <= i < |instances| && ClassPair(instances[i]) !in bigs :: i in idx)
  {
    var n := |instances| - 1;
    var front := instances[..n];
    var idx := idx' + [n];
    var kept := Prune(instances, bigs);
    assert kept == Prune(front, bigs) + [instances[n]];
    forall k | 0 <= k < |idx|
      ensures 0 <= idx[k] <= n && kept[k] == instances[idx[k]] && ClassPair(instances[idx[k]]) !in bigs
    {
      if k < |idx'| {
        assert idx[k] == idx'[k] && front[idx'[k]] == instances[idx'[k]];
      }
    }
    forall k, l | 0 <= k < l < |idx| ensures idx[k] < idx[l] {
      if l < |idx'| {
        assert idx[k] == idx'[k] && idx[l] == idx'[l];
      } else {
        assert idx[k] == idx'[k] && idx'[k] < |front|;
      }
    }
    forall i | 0 <= i < |instances| && ClassPair(instances[i]) !in bigs ensures i in idx {
      if i < n {
        assert front[i] == instances[i];
        assert i in idx';
      } else {
        assert idx[|idx'|] == i;
      }
    }
  }

  /** After `report` and the prune step, a kept instance's pair occurs
      fewer than `limit` times among the instances, and every reported
      line for it counts fewer than `limit`. */
  lemma KeptAreBelowLimit(instances: seq<Ref>, counts: seq<Count>, limit: int)
    requires multiset(counts) == multiset(Tally(Pairs(instances)))
    ensures forall r | r in Prune(instances, Bigs(counts, limit)) ::
              && Occurrences(Pairs(instances), ClassPair(r)) < limit
              && forall c | c in counts && CountPair(c) == ClassPair(r) :: c.count < limit
  {
    var bigs := Bigs(counts, limit);
    var kept := Prune(instances, bigs);
    ReportLines(instances, counts);
    var idx := PruneKeeps(instances, bigs);
    forall r | r in kept
      ensures Occurrences(Pairs(instances), ClassPair(r)) < limit
    {
      var k :| 0 <= k < |kept| && kept[k] == r;
      var p := ClassPair(r);
      assert p == Pairs(instances)[idx[k]];
      assert p in PairsOfCounts(counts);
      var i :| 0 <= i < |counts| && PairsOfCounts(counts)[i] == p;
      assert counts[i] in counts;
    }
  }

  /** Conversely, a pair occurring fewer than `limit` times is not among
      the bigs, so (by `NotBigIsKept`) its instances are all kept. */
  lemma BelowLimitNotBig(instances: seq<Ref>, counts: seq<Count>, limit: int, p: Pair)
    requires multiset(counts) == multiset(Tally(Pairs(instances)))
    requires Occurrences(Pairs(instances), p) < limit
    ensures p !in Bigs(counts, limit)
  {
    ReportLines(instances, counts);
    forall c | c in counts && CountPair(c) == p ensures c.count < limit {
      var j :| 0 <= j < |counts| && counts[j] == c;
    }
  }

  /** An instance whose pair is not among `bigs` survives pruning. */
  lemma NotBigIsKept(instances: seq<Ref>, bigs: set<Pair>, i: int)
    requires 0 <= i < |instances| && ClassPair(instances[i]) !in bigs
    ensures instances[i] in Prune(instances, bigs)
  {
    var idx := PruneKeeps(instances, bigs);
    var k :| 0 <= k < |idx| && idx[k] == i;
    assert Prune(instances, bigs)[k] == instances[i];
  }

  // ---------------------------------------------------------------------
  // Following references one level up (lines 35-87)

  /** A row of the array query: an object array holding a reference to
      `refId` (lines 37-47). */
  datatype ArrayHit = ArrayHit(className: string, instanceId: int, arrayLen: int, refId: int)

  /** A row of the field query: an instance with a field referring to
      `refId` (lines 61-71). */
  datatype FieldHit = FieldHit(className: string, instanceId: int, refId: int)

  function InstanceIds(instances: seq<Ref>): (ids: seq<int>)
    ensures |ids| == |instances| && forall i | 0 <= i < |ids| :: ids[i] == instances[i].instanceId
  {
    seq(|instances|, i requires 0 <= i < |instances| => instances[i].instanceId)
  }

  /** `back_refs` (lines 49-51 and 73-75): instance id to class name; of
      two instances with the same id the later one wins. */
  function BackRefs(instances: seq<Ref>): map<int, string> {
    if instances == [] then map[]
    else
      var last := instances[|instances| - 1];
      BackRefs(instances[..|instances| - 1])[last.instanceId := last.className]
  }

  /** The map's keys are the instances' ids. */
  lemma {:induction false} BackRefsKeys(instances: seq<Ref>, id: int)
    ensures id in BackRefs(instances) <==> id in InstanceIds(instances)
  {
    if instances != [] {
      var n := |instances| - 1;
      assert InstanceIds(instances) == InstanceIds(instances[..n]) + [instances[n].instanceId];
      BackRefsKeys(instances[..n], id);
    }
  }

  /** Each id maps to the class of the last instance carrying it. */
  lemma {:induction false} BackRefsLast(instances: seq<Ref>, id: int) returns (j: int)
    requires id in BackRefs(instances)
    ensures && 0 <= j < |instances|
              && instances[j].instanceId == id
              && BackRefs(instances)[id] == instances[j].className
              && forall l | j < l < |instances| :: instances[l].instanceId != id
  {
    var n := |instances| - 1;
    var front := instances[..n];
    if instances[n].instanceId == id {
        j := n;
    } else {
      j := BackRefsLast(front, id);
    }
  }

  /** The query filters on the ids of `instances` (`in ({params})`), so
      every hit refers to one of them. */
  ghost predicate ArrayHitsFor(hits: seq<ArrayHit>, instances: seq<Ref>) {
    forall k | 0 <= k < |hits| :: hits[k].refId in InstanceIds(instances)
  }

  ghost predicate FieldHitsFor(hits: seq<FieldHit>, instances: seq<Ref>) {
    forall k | 0 <= k < |hits| :: hits[k].refId in InstanceIds(instances)
  }

  function ArrayRef(hit: ArrayHit, backRefs: map<int, string>): Ref
    requires hit.refId in backRefs
  {
    Ref(hit.className, hit.instanceId, Some(hit.arrayLen), Some(backRefs[hit.refId]))
  }

  function FieldRef(hit: FieldHit, backRefs: map<int, string>): Ref
    requires hit.refId in backRefs
  {
    Ref(hit.className, hit.instanceId, None, Some(backRefs[hit.refId]))
  }

  /** The refs `get_refs_array` returns for `hits`. */
  function ArrayRefs(hits: seq<ArrayHit>, instances: seq<Ref>): seq<Ref>
    requires ArrayHitsFor(hits, instances)
  {
    var backRefs := BackRefs(instances);
    seq(|hits|, k requires 0 <= k < |hits| => (BackRefsKeys(instances, hits[k].refId); ArrayRef(hits[k], backRefs)))
  }

  /** The refs `get_refs_field` returns for `hits`. */
  function FieldRefs(hits: seq<FieldHit>, instances: seq<Ref>): seq<Ref>
    requires FieldHitsFor(hits, instances)
  {
    var backRefs := BackRefs(instances);
    seq(|hits|, k requires 0 <= k < |hits| => (BackRefsKeys(instances, hits[k].refId); FieldRef(hits[k], backRefs)))
  }

  /** The loop of `get_refs_array` (lines 53-55): each hit gets the class
      of the instance it refers to and loses its `ref_id`. */
  method GetRefsArray(hits: seq<ArrayHit>, instances: seq<Ref>) returns (refs: seq<Ref>)
    requires ArrayHitsFor(hits, instances)
    ensures refs == ArrayRefs(hits, instances)
  {
    var backRefs := BackRefs(instances);
    refs := [];
    for k := 0 to |hits|
      invariant |refs| == k
      invariant forall j | 0 <= j < k :: refs[j] == ArrayRefs(hits, instances)[j]
    {
      BackRefsKeys(instances, hits[k].refId);
      refs := refs + [ArrayRef(hits[k], backRefs)];
    }
  }

  /** The loop of `get_refs_field` (lines 77-80); field hits carry no
      array length. */
  method GetRefsField(hits: seq<FieldHit>, instances: seq<Ref>) returns (refs: seq<Ref>)
    requires FieldHitsFor(hits, instances)
    ensures refs == FieldRefs(hits, instances)
  {
    var backRefs := BackRefs(instances);
    refs := [];
    for k := 0 to |hits|
      invariant |refs| == k
      invariant forall j | 0 <= j < k :: refs[j] == FieldRefs(hits, instances)[j]
    {
      BackRefsKeys(instances, hits[k].refId);
      refs := refs + [FieldRef(hits[k], backRefs)];
    }
  }

  /** `get_refs` (lines 84-87): the array refs followed by the field refs. */
  method GetRefs(arrayHits: seq<ArrayHit>, fieldHits: seq<FieldHit>, instances: seq<Ref>) returns (refs: seq<Ref>)
    requires ArrayHitsFor(arrayHits, instances) && FieldHitsFor(fieldHits, instances)
    ensures refs == ArrayRefs(arrayHits, instances) + FieldRefs(fieldHits, instances)
  {
    var refsArray := GetRefsArray(arrayHits, instances);
    var refsField := GetRefsField(fieldHits, instances);
    refs := refsArray + refsField;
  }

  /** What `get_refs` returns: one ref per hit, array hits first (and only
      they carry a length), each naming the hit's own class and instance,
      and labelled with the class of the last instance whose id the hit
      refers to. */
  lemma GetRefsMeaning(arrayHits: seq<ArrayHit>, fieldHits: seq<FieldHit>, instances: seq<Ref>)
    requires ArrayHitsFor(arrayHits, instances) && FieldHitsFor(fieldHits, instances)
    ensures var refs := ArrayRefs(arrayHits, instances) + FieldRefs(fieldHits, instances);
            && |refs| == |arrayHits| + |fieldHits|
            && (forall k | 0 <= k < |arrayHits| ::
                  && refs[k].className == arrayHits[k].className
                  && refs[k].instanceId == arrayHits[k].instanceId
                  && refs[k].arrayLen == Some(arrayHits[k].arrayLen)
                  && LabelledBy(refs[k], arrayHits[k].refId, instances))
            && (forall k | 0 <= k < |fieldHits| ::
                  && refs[|arrayHits| + k].className == fieldHits[k].className
                  && refs[|arrayHits| + k].instanceId == fieldHits[k].instanceId
                  && refs[|arrayHits| + k].arrayLen == None
                  && LabelledBy(refs[|arrayHits| + k], fieldHits[k].refId, instances))
  {
    var refs := ArrayRefs(arrayHits, instances) + FieldRefs(fieldHits, instances);
    forall k | 0 <= k < |arrayHits| ensures LabelledBy(refs[k], arrayHits[k].refId, instances) {
      BackRefsKeys(instances, arrayHits[k].refId);
      var j := BackRefsLast(instances, arrayHits[k].refId);
    }
    forall k | 0 <= k < |fieldHits| ensures LabelledBy(refs[|arrayHits| + k], fieldHits[k].refId, instances) {
      BackRefsKeys(instances, fieldHits[k].refId);
      var j := BackRefsLast(instances, fieldHits[k].refId);
    }
  }

  /** `r` names, as its referred class, the class of the last instance
      whose id is `refId`. */
  ghost predicate LabelledBy(r: Ref, refId: int, instances: seq<Ref>) {
    exists j | 0 <= j < |instances| ::
      && instances[j].instanceId == refId
      && r.refClassName == Some(instances[j].className)
      && forall l | j < l < |instances| :: instances[l].instanceId != refId
  }

  // ---------------------------------------------------------------------
  // The depth loop (lines 172-188)

  /** The threshold `run` passes to `report` and prunes with (line 173). */
  const Limit := 1000

  /** The two queries of `get_refs_array` and `get_refs_field`, as
      functions of the instance list they are given (the database is
      fixed); each filters on that list's ids. */
  ghost predicate QueriesFor(arrayQuery: seq<Ref> -> seq<ArrayHit>, fieldQuery: seq<Ref> -> seq<FieldHit>) {
    && (forall xs: seq<Ref> :: ArrayHitsFor(arrayQuery(xs), xs))
    && (forall xs: seq<Ref> :: FieldHitsFor(fieldQuery(xs), xs))
  }

  /** The next level: the instances whose pair stayed below `Limit` in
      this level's report, replaced by the refs pointing at them. */
  function NextLevel(instances: seq<Ref>, counts: seq<Count>,
                     arrayQuery: seq<Ref> -> seq<ArrayHit>, fieldQuery: seq<Ref> -> seq<FieldHit>): seq<Ref>
    requires QueriesFor(arrayQuery, fieldQuery)
  {
    var kept := Prune(instances, Bigs(counts, Limit));
    ArrayRefs(arrayQuery(kept), kept) + FieldRefs(fieldQuery(kept), kept)
  }

  /** `counts` is a report of `instances`: their tally, sorted by
      decreasing count. */
  ghost predicate ReportOf(counts: seq<Count>, instances: seq<Ref>) {
    multiset(counts) == multiset(Tally(Pairs(instances))) && NonIncreasing(counts)
  }

  /** `levels[d]` is the instance list reported at depth `d` and
      `reports[d]` its report; the first level is the starters and each
      further level follows from the one before. */
  ghost predicate Traced(starters: seq<Ref>, reports: seq<seq<Count>>, levels: seq<seq<Ref>>,
                         arrayQuery: seq<Ref> -> seq<ArrayHit>, fieldQuery: seq<Ref> -> seq<FieldHit>)
    requires QueriesFor(arrayQuery, fieldQuery)
  {
    && |reports| == |levels|
    && (|levels| > 0 ==> levels[0] == starters)
    && (forall d | 0 <= d < |levels| :: ReportOf(reports[d], levels[d]))
    && (forall d | 0 <= d < |levels| - 1 :: levels[d + 1] == NextLevel(levels[d], reports[d], arrayQuery, fieldQuery))
  }

  /** The instance list due at the next depth. */
  ghost function Due(starters: seq<Ref>, reports: seq<seq<Count>>, levels: seq<seq<Ref>>,
                     arrayQuery: seq<Ref> -> seq<ArrayHit>, fieldQuery: seq<Ref> -> seq<FieldHit>): seq<Ref>
    requires QueriesFor(arrayQuery, fieldQuery)
    requires |reports| == |levels|
  {
    if levels == [] then starters
    else NextLevel(levels[|levels| - 1], reports[|reports| - 1], arrayQuery, fieldQuery)
  }

  lemma TracedExtend(starters: seq<Ref>, reports: seq<seq<Count>>, levels: seq<seq<Ref>>,
                     arrayQuery: seq<Ref> -> seq<ArrayHit>, fieldQuery: seq<Ref> -> seq<FieldHit>,
                     counts: seq<Count>, instances: seq<Ref>)
    requires QueriesFor(arrayQuery, fieldQuery)
    requires Traced(starters, reports, levels, arrayQuery, fieldQuery)
    requires instances == Due(starters, reports, levels, arrayQuery, fieldQuery)
    requires ReportOf(counts, instances)
    ensures Traced(starters, reports + [counts], levels + [instances], arrayQuery, fieldQuery)
  {
    var reports', levels' := reports + [counts], levels + [instances];
    forall d | 0 <= d < |levels'| ensures ReportOf(reports'[d], levels'[d]) {
      if d < |levels| {
        assert reports'[d] == reports[d] && levels'[d] == levels[d];
      }
    }
    forall d | 0 <= d < |levels'| - 1
      ensures levels'[d + 1] == NextLevel(levels'[d], reports'[d], arrayQuery, fieldQuery)
    {
      assert reports'[d] == reports[d] && levels'[d] == levels[d];
    }
  }

  /** `run` (lines 172-188), from the starters on: one report per depth
      0, 1, ..., stopping after the report at the first depth that reaches
      `depthMax`, so `max(depthMax, 0) + 1` reports in all; `levels[d]` is
      the instance list reported at depth `d`. */
  method Run(starters: seq<Ref>, depthMax: int,
             arrayQuery: seq<Ref> -> seq<ArrayHit>, fieldQuery: seq<Ref> -> seq<FieldHit>)
    returns (reports: seq<seq<Count>>, ghost levels: seq<seq<Ref>>)
    requires QueriesFor(arrayQuery, fieldQuery)
    ensures |reports| == (if depthMax > 0 then depthMax else 0) + 1
    ensures Traced(starters, reports, levels, arrayQuery, fieldQuery)
  {
    var instances := starters;
    var depth := 0;
    reports := [];
    levels := [];
    while true
      invariant depth == |reports|
      invariant 0 <= depth && (depth > 0 ==> depth <= depthMax)
      invariant Traced(starters, reports, levels, arrayQuery, fieldQuery)
      invariant instances == Due(starters, reports, levels, arrayQuery, fieldQuery)
      decreases depthMax - depth
    {
      var counts, marked := Report(instances, Limit);
      TracedExtend(starters, reports, levels, arrayQuery, fieldQuery, counts, instances);
      reports := reports + [counts];
      levels := levels + [instances];
      if depth >= depthMax {
        break;
      }
      var kept := Prune(instances, Bigs(counts, Limit));
      instances := GetRefs(arrayQuery(kept), fieldQuery(kept), kept);
      depth := depth + 1;
    }
  }
}
