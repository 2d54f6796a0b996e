/** Stratified selection of the development sample and its holdout
    (cli/devtools/ask_benchmark/bird_dataset.py). */
module Selection {
  import opened Wrappers
  import opened Ordering
  import Quotas

  datatype Case = Case(questionId: int, dbId: string, difficulty: string, content: string)

  function Database(c: Case): string { c.dbId }

  function Difficulty(c: Case): string { c.difficulty }

  // ---------- Grouping ----------

  /** An insertion-ordered dictionary of case lists. */
  datatype Grouped = Grouped(keys: seq<string>, members: map<string, seq<Case>>)

  predicate Covered(keys: seq<string>, g: Grouped) {
    forall k :: k in keys ==> k in g.members
  }

  function AddCase(g: Grouped, k: string, c: Case): Grouped {
    if k in g.members then g.(members := g.members[k := g.members[k] + [c]])
    else Grouped(g.keys + [k], g.members[k := [c]])
  }

  function GroupBy(cases: seq<Case>, key: Case -> string): Grouped
    decreases |cases|
  {
    if cases == [] then Grouped([], map[])
    else
      var last := cases[|cases| - 1];
      AddCase(GroupBy(cases[..|cases| - 1], key), key(last), last)
  }

  method GroupCases(cases: seq<Case>, key: Case -> string) returns (g: Grouped)
    ensures g == GroupBy(cases, key)
  {
    g := Grouped([], map[]);
    var i := 0;
    while i < |cases|
      invariant i <= |cases|
      invariant g == GroupBy(cases[..i], key)
    {
      assert cases[..i + 1][..i] == cases[..i];
      g := AddCase(g, key(cases[i]), cases[i]);
      i := i + 1;
    }
    assert cases[..|cases|] == cases;
  }

  /** The cases with a given key, in order. */
  function Having(cases: seq<Case>, key: Case -> string, k: string): seq<Case>
    decreases |cases|
  {
    if cases == [] then []
    else
      var last := cases[|cases| - 1];
      Having(cases[..|cases| - 1], key, k) + if key(last) == k then [last] else []
  }

  lemma {:induction false} HavingConcat(xs: seq<Case>, ys: seq<Case>, key: Case -> string, k: string)
    ensures Having(xs + ys, key, k) == Having(xs, key, k) + Having(ys, key, k)
    decreases |ys|
  {
    if ys == [] {
      assert xs + ys == xs;
    } else {
      var init := ys[..|ys| - 1];
      assert (xs + ys)[..|xs + ys| - 1] == xs + init;
      HavingConcat(xs, init, key, k);
    }
  }

  lemma HavingJoin(whole: seq<Case>, xs: seq<Case>, ys: seq<Case>, key: Case -> string, k: string,
                   both: seq<Case>, a: seq<Case>, b: seq<Case>)
    requires Having(xs, key, k) == a && Having(ys, key, k) == b
    requires whole == xs + ys && both == a + b
    ensures Having(whole, key, k) == both
  {
    HavingConcat(xs, ys, key, k);
  }

  lemma {:induction false} HavingCount(cases: seq<Case>, key: Case -> string, k: string, c: Case)
    ensures multiset(Having(cases, key, k))[c] == if key(c) == k then multiset(cases)[c] else 0
    decreases |cases|
  {
    if cases != [] {
      var init := cases[..|cases| - 1];
      assert cases == init + [cases[|cases| - 1]];
      HavingCount(init, key, k, c);
    }
  }

  lemma {:induction false} HavingAll(cases: seq<Case>, key: Case -> string, k: string)
    requires forall c :: c in cases ==> key(c) == k
    ensures Having(cases, key, k) == cases
    decreases |cases|
  {
    if cases != [] {
      HavingAll(cases[..|cases| - 1], key, k);
      assert cases == cases[..|cases| - 1] + [cases[|cases| - 1]];
    }
  }

  lemma {:induction false} HavingNone(cases: seq<Case>, key: Case -> string, k: string)
    requires forall c :: c in cases ==> key(c) != k
    ensures Having(cases, key, k) == []
    decreases |cases|
  {
    if cases != [] {
      HavingNone(cases[..|cases| - 1], key, k);
    }
  }

  /** Each group is the cases with its key, in order, and no group is missing, repeated or empty. */
  ghost predicate Partitions(g: Grouped, cases: seq<Case>, key: Case -> string) {
    Distinct(g.keys) && (forall k :: k in g.keys <==> k in g.members) &&
    (forall k :: k in g.members ==> g.members[k] == Having(cases, key, k) && g.members[k] != []) &&
    (forall k :: k !in g.members ==> Having(cases, key, k) == [])
  }

  lemma AddCasePartitions(g: Grouped, before: seq<Case>, key: Case -> string, c: Case)
    requires Partitions(g, before, key)
    ensures Partitions(AddCase(g, key(c), c), before + [c], key)
  {
    var g', cases := AddCase(g, key(c), c), before + [c];
    assert cases[..|cases| - 1] == before;
    assert Distinct(g'.keys);
    forall k ensures Having(cases, key, k) == Having(before, key, k) + if key(c) == k then [c] else [] {
    }
    forall k ensures k in g'.members ==> g'.members[k] == Having(cases, key, k) && g'.members[k] != [] {
      if k in g'.members && k != key(c) {
        assert Having(before, key, k) + [] == Having(before, key, k);
      }
    }
  }

  lemma {:induction false} GroupByPartitions(cases: seq<Case>, key: Case -> string)
    ensures Partitions(GroupBy(cases, key), cases, key)
    decreases |cases|
  {
    if cases != [] {
      var before, last := cases[..|cases| - 1], cases[|cases| - 1];
      GroupByPartitions(before, key);
      AddCasePartitions(GroupBy(before, key), before, key, last);
      assert cases == before + [last];
    }
  }

  function Sizes(g: Grouped): (q: Quotas.Counts)
    ensures q.Keys == g.members.Keys
  {
    map k | k in g.members :: |g.members[k]|
  }

  lemma {:induction false} GroupSizesSum(cases: seq<Case>, key: Case -> string)
    ensures Covered(GroupBy(cases, key).keys, GroupBy(cases, key))
    ensures Quotas.SumOf(GroupBy(cases, key).keys, Sizes(GroupBy(cases, key))) == |cases|
    decreases |cases|
  {
    GroupByPartitions(cases, key);
    if cases != [] {
      var init, last := cases[..|cases| - 1], cases[|cases| - 1];
      GroupSizesSum(init, key);
      GroupByPartitions(init, key);
      AddCaseSum(GroupBy(init, key), key(last), last);
    }
  }

  lemma AddCaseSum(g: Grouped, k: string, c: Case)
    requires Covered(g.keys, g) && Distinct(g.keys) && (k in g.members ==> k in g.keys)
    ensures Covered(AddCase(g, k, c).keys, AddCase(g, k, c))
    ensures Quotas.SumOf(AddCase(g, k, c).keys, Sizes(AddCase(g, k, c))) == Quotas.SumOf(g.keys, Sizes(g)) + 1
  {
    var g' := AddCase(g, k, c);
    if k in g.members {
      Quotas.SumIncrementsOnce(g.keys, Sizes(g), k);
      assert Sizes(g') == Sizes(g)[k := Sizes(g)[k] + 1];
    } else {
      SumAppend(g.keys, k, Sizes(g'));
      Quotas.SumEqual(g.keys, Sizes(g), Sizes(g'));
    }
  }

  lemma {:induction false} SumAppend(keys: seq<string>, k: string, q: Quotas.Counts)
    requires Quotas.Covers(keys, q) && k in q
    ensures Quotas.SumOf(keys + [k], q) == Quotas.SumOf(keys, q) + q[k]
    decreases |keys|
  {
    if keys != [] {
      assert (keys + [k])[1..] == keys[1..] + [k];
      SumAppend(keys[1..], k, q);
    }
  }

  // ---------- Round-robin draw ----------

  /** The cases drawn in round `round`: the next ranked case of every group that still has one. */
  function Round(g: Grouped, keys: seq<string>, round: nat): seq<Case>
    requires Covered(keys, g)
    decreases |keys|
  {
    if keys == [] then []
    else
      var last := keys[|keys| - 1];
      Round(g, keys[..|keys| - 1], round) + if round < |g.members[last]| then [g.members[last][round]] else []
  }

  function Rounds(g: Grouped, keys: seq<string>, n: nat): seq<Case>
    requires Covered(keys, g)
    decreases n
  {
    if n == 0 then [] else Rounds(g, keys, n - 1) + Round(g, keys, n - 1)
  }

  function LongestGroup(g: Grouped, keys: seq<string>): (n: nat)
    requires Covered(keys, g)
    ensures forall k :: k in keys ==> |g.members[k]| <= n
    decreases |keys|
  {
    if keys == [] then 0
    else
      var rest := LongestGroup(g, keys[1..]);
      assert keys == [keys[0]] + keys[1..];
      if |g.members[keys[0]]| > rest then |g.members[keys[0]]| else rest
  }

  function Min(a: nat, b: nat): nat {
    if a <= b then a else b
  }

  /** The first `size` cases of the full rotation. */
  function Drawn(g: Grouped, keys: seq<string>, size: nat): seq<Case>
    requires Covered(keys, g)
  {
    var all := Rounds(g, keys, LongestGroup(g, keys));
    all[..Min(size, |all|)]
  }

  predicate IsPrefix(xs: seq<Case>, ys: seq<Case>) {
    xs <= ys
  }

  lemma {:induction false} RoundPrefix(g: Grouped, keys: seq<string>, p: nat, round: nat)
    requires Covered(keys, g) && p <= |keys|
    ensures Covered(keys[..p], g) && IsPrefix(Round(g, keys[..p], round), Round(g, keys, round))
    decreases |keys|
  {
    if p < |keys| {
      var init := keys[..|keys| - 1];
      assert init[..p] == keys[..p];
      RoundPrefix(g, init, p, round);
    } else {
      assert keys[..p] == keys;
    }
  }

  lemma {:induction false} RoundsPrefix(g: Grouped, keys: seq<string>, m: nat, n: nat)
    requires Covered(keys, g) && m <= n
    ensures IsPrefix(Rounds(g, keys, m), Rounds(g, keys, n))
    decreases n
  {
    if m < n {
      RoundsPrefix(g, keys, m, n - 1);
    }
  }

  lemma {:induction false} RoundEmptyExactly(g: Grouped, keys: seq<string>, round: nat)
    requires Covered(keys, g)
    ensures Round(g, keys, round) == [] <==> forall k :: k in keys ==> |g.members[k]| <= round
    decreases |keys|
  {
    if keys != [] {
      RoundEmptyExactly(g, keys[..|keys| - 1], round);
      assert keys == keys[..|keys| - 1] + [keys[|keys| - 1]];
    }
  }

  lemma {:induction false} RoundsStop(g: Grouped, keys: seq<string>, m: nat, n: nat)
    requires Covered(keys, g) && m <= n && forall k :: k in keys ==> |g.members[k]| <= m
    ensures Rounds(g, keys, n) == Rounds(g, keys, m)
    decreases n
  {
    if m < n {
      RoundsStop(g, keys, m, n - 1);
      RoundEmptyExactly(g, keys, n - 1);
      assert Rounds(g, keys, m) + [] == Rounds(g, keys, m);
    }
  }

  /** A selection of the right length taken from the front of some number of rounds is the draw. */
  lemma FullPrefixIsDrawn(g: Grouped, keys: seq<string>, n: nat, selected: seq<Case>)
    requires Covered(keys, g) && IsPrefix(selected, Rounds(g, keys, n))
    ensures selected == Drawn(g, keys, |selected|)
  {
    var longest := LongestGroup(g, keys);
    if n >= longest {
      RoundsStop(g, keys, longest, n);
    } else {
      RoundsPrefix(g, keys, n, longest);
    }
  }

  /** So is a shorter selection, when no case was left to add. */
  lemma ExhaustedIsDrawn(g: Grouped, keys: seq<string>, n: nat, size: nat)
    requires Covered(keys, g) && Round(g, keys, n) == [] && |Rounds(g, keys, n)| <= size
    ensures Rounds(g, keys, n) == Drawn(g, keys, size)
  {
    var longest := LongestGroup(g, keys);
    RoundEmptyExactly(g, keys, n);
    if n >= longest {
      RoundsStop(g, keys, longest, n);
    } else {
      RoundsStop(g, keys, n, longest);
    }
  }

  method RoundRobinGroups(g: Grouped, keys: seq<string>, size: nat) returns (selected: seq<Case>)
    requires Covered(keys, g)
    ensures selected == Drawn(g, keys, size)
  {
    selected := [];
    var roundIndex := 0;
    while |selected| < size
      invariant |selected| <= size
      invariant IsPrefix(selected, Rounds(g, keys, roundIndex))
      invariant |selected| < size ==> selected == Rounds(g, keys, roundIndex)
      decreases size - |selected|
    {
      var drawn, p := DrawRound(g, keys, roundIndex, size - |selected|);
      selected := selected + drawn;
      EndOfRound(g, keys, p, roundIndex, drawn, selected);
      if drawn == [] {
        ExhaustedIsDrawn(g, keys, roundIndex, size);
        return;
      }
      roundIndex := roundIndex + 1;
    }
    FullPrefixIsDrawn(g, keys, roundIndex, selected);
  }

  /** One round: the first `p` groups are asked for their next case, all of them unless `room` runs out. */
  method DrawRound(g: Grouped, keys: seq<string>, roundIndex: nat, room: nat) returns (drawn: seq<Case>, ghost p: nat)
    requires Covered(keys, g) && room > 0
    ensures p <= |keys| && Covered(keys[..p], g) && drawn == Round(g, keys[..p], roundIndex)
    ensures |drawn| <= room && (p == |keys| || |drawn| == room)
  {
    drawn := [];
    var j := 0;
    while j < |keys|
      invariant j <= |keys| && Covered(keys[..j], g) && |drawn| < room
      invariant drawn == Round(g, keys[..j], roundIndex)
    {
      var group := g.members[keys[j]];
      RoundStep(g, keys, j, roundIndex);
      j := j + 1;
      if roundIndex < |group| {
        drawn := drawn + [group[roundIndex]];
        if |drawn| == room {
          break;
        }
      }
    }
    p := j;
  }

  lemma RoundStep(g: Grouped, keys: seq<string>, j: nat, round: nat)
    requires Covered(keys, g) && j < |keys|
    ensures Covered(keys[..j], g) && Covered(keys[..j + 1], g)
    ensures Round(g, keys[..j + 1], round) ==
            Round(g, keys[..j], round) + if round < |g.members[keys[j]]| then [g.members[keys[j]][round]] else []
  {
    assert keys[..j + 1][..j] == keys[..j];
  }

  lemma EndOfRound(g: Grouped, keys: seq<string>, p: nat, round: nat, drawn: seq<Case>, selected: seq<Case>)
    requires Covered(keys, g) && p <= |keys| && Covered(keys[..p], g)
    requires drawn == Round(g, keys[..p], round) && selected == Rounds(g, keys, round) + drawn
    ensures IsPrefix(selected, Rounds(g, keys, round + 1))
    ensures p == |keys| ==> selected == Rounds(g, keys, round + 1) && drawn == Round(g, keys, round)
    ensures drawn == [] ==> selected == Rounds(g, keys, round)
  {
    RoundPrefix(g, keys, p, round);
    assert p == |keys| ==> keys[..p] == keys;
    assert drawn == [] ==> selected == Rounds(g, keys, round) + [] == Rounds(g, keys, round);
  }

  // ---------- What a draw contains ----------

  /** Every member of a group carries the group's key. */
  ghost predicate Keyed(g: Grouped, key: Case -> string) {
    forall k, i :: k in g.members && 0 <= i < |g.members[k]| ==> key(g.members[k][i]) == k
  }

  /** What one round takes from one group. */
  function NextBest(g: Grouped, keys: seq<string>, k: string, round: nat): seq<Case>
    requires Covered(keys, g)
  {
    if k in keys && round < |g.members[k]| then [g.members[k][round]] else []
  }

  lemma {:induction false} HavingRound(g: Grouped, keys: seq<string>, round: nat, key: Case -> string, k: string)
    requires Covered(keys, g) && Keyed(g, key) && Distinct(keys)
    ensures Having(Round(g, keys, round), key, k) == NextBest(g, keys, k, round)
    decreases |keys|
  {
    if keys != [] {
      var init, last := keys[..|keys| - 1], keys[|keys| - 1];
      assert keys == init + [last];
      HavingRound(g, init, round, key, k);
      HavingTail(g, last, round, key, k);
      HavingJoin(Round(g, keys, round), Round(g, init, round), NextOf(g, last, round), key, k,
                 NextBest(g, keys, k, round), NextBest(g, init, k, round),
                 if last == k then NextOf(g, last, round) else []);
    }
  }

  function NextOf(g: Grouped, k: string, round: nat): seq<Case>
    requires k in g.members
  {
    if round < |g.members[k]| then [g.members[k][round]] else []
  }

  lemma HavingTail(g: Grouped, last: string, round: nat, key: Case -> string, k: string)
    requires Keyed(g, key) && last in g.members
    ensures Having(NextOf(g, last, round), key, k) == if last == k then NextOf(g, last, round) else []
  {
    if last == k {
      HavingAll(NextOf(g, last, round), key, k);
    } else {
      HavingNone(NextOf(g, last, round), key, k);
    }
  }

  /** The best `n` cases of one group, or all it has. */
  function Best(g: Grouped, keys: seq<string>, k: string, n: nat): seq<Case>
    requires Covered(keys, g)
  {
    if k in keys then g.members[k][..Min(n, |g.members[k]|)] else []
  }

  lemma BestStep(g: Grouped, keys: seq<string>, k: string, n: nat)
    requires Covered(keys, g)
    ensures Best(g, keys, k, n + 1) == Best(g, keys, k, n) + NextBest(g, keys, k, n)
  {
  }

  lemma {:induction false} HavingRounds(g: Grouped, keys: seq<string>, n: nat, key: Case -> string, k: string)
    requires Covered(keys, g) && Keyed(g, key) && Distinct(keys)
    ensures Having(Rounds(g, keys, n), key, k) == Best(g, keys, k, n)
    decreases n
  {
    if n > 0 {
      var before, round := Rounds(g, keys, n - 1), Round(g, keys, n - 1);
      HavingRounds(g, keys, n - 1, key, k);
      HavingRound(g, keys, n - 1, key, k);
      BestStep(g, keys, k, n - 1);
      HavingJoin(Rounds(g, keys, n), before, round, key, k,
                 Best(g, keys, k, n), Best(g, keys, k, n - 1), NextBest(g, keys, k, n - 1));
    } else {
      assert Best(g, keys, k, 0) == [];
    }
  }

  /** What some rounds and the start of one more hold of one group. */
  lemma HavingCut(g: Grouped, keys: seq<string>, r: nat, p: nat, key: Case -> string, k: string)
    requires Covered(keys, g) && Keyed(g, key) && Distinct(keys) && p <= |keys|
    ensures Covered(keys[..p], g)
    ensures Having(Rounds(g, keys, r) + Round(g, keys[..p], r), key, k) ==
            Best(g, keys, k, if k in keys[..p] then r + 1 else r)
  {
    HavingRounds(g, keys, r, key, k);
    HavingRound(g, keys[..p], r, key, k);
    HavingConcat(Rounds(g, keys, r), Round(g, keys[..p], r), key, k);
    BestStep(g, keys, k, r);
  }

  lemma {:induction false} CutRound(g: Grouped, keys: seq<string>, round: nat, i: nat) returns (p: nat)
    requires Covered(keys, g) && i <= |Round(g, keys, round)|
    ensures p <= |keys| && Covered(keys[..p], g) && Round(g, keys, round)[..i] == Round(g, keys[..p], round)
    decreases |keys|
  {
    if i == |Round(g, keys, round)| {
      p := |keys|;
      assert keys[..p] == keys;
    } else {
      var init := keys[..|keys| - 1];
      p := CutRound(g, init, round, i);
      assert init[..p] == keys[..p];
    }
  }

  lemma {:induction false} CutRounds(g: Grouped, keys: seq<string>, n: nat, i: nat) returns (r: nat, p: nat)
    requires Covered(keys, g) && i <= |Rounds(g, keys, n)|
    ensures p <= |keys| && Covered(keys[..p], g)
    ensures Rounds(g, keys, n)[..i] == Rounds(g, keys, r) + Round(g, keys[..p], r)
    decreases n
  {
    if n == 0 {
      r, p := 0, 0;
    } else if i <= |Rounds(g, keys, n - 1)| {
      r, p := CutRounds(g, keys, n - 1, i);
    } else {
      r := n - 1;
      p := CutRound(g, keys, r, i - |Rounds(g, keys, r)|);
    }
  }

  /** From every group the draw takes the best-ranked cases, in rank order, and it never takes two more from
      one group than from another that still has cases left. */
  lemma DrawnRankedAndBalanced(g: Grouped, keys: seq<string>, size: nat, key: Case -> string)
    requires Covered(keys, g) && Keyed(g, key) && Distinct(keys)
    ensures forall k :: k in keys ==> IsPrefix(Having(Drawn(g, keys, size), key, k), g.members[k])
    ensures forall k, h :: k in keys && h in keys && |Having(Drawn(g, keys, size), key, k)| < |g.members[k]| ==>
              |Having(Drawn(g, keys, size), key, h)| <= |Having(Drawn(g, keys, size), key, k)| + 1
  {
    var longest := LongestGroup(g, keys);
    var r, p := CutRounds(g, keys, longest, Min(size, |Rounds(g, keys, longest)|));
    forall k | k in keys
      ensures Having(Drawn(g, keys, size), key, k) == Best(g, keys, k, if k in keys[..p] then r + 1 else r)
    {
      HavingCut(g, keys, r, p, key, k);
    }
  }

  /** An earlier group with cases left is never behind a later one: the odd cases of the last round go to the first
      groups. */
  lemma DrawnEarlierFirst(g: Grouped, keys: seq<string>, size: nat, key: Case -> string, i: nat, j: nat)
    requires Covered(keys, g) && Keyed(g, key) && Distinct(keys) && i < j < |keys|
    requires |Having(Drawn(g, keys, size), key, keys[i])| < |g.members[keys[i]]|
    ensures |Having(Drawn(g, keys, size), key, keys[j])| <= |Having(Drawn(g, keys, size), key, keys[i])|
  {
    var longest := LongestGroup(g, keys);
    var r, p := CutRounds(g, keys, longest, Min(size, |Rounds(g, keys, longest)|));
    HavingCut(g, keys, r, p, key, keys[i]);
    HavingCut(g, keys, r, p, key, keys[j]);
    if keys[j] in keys[..p] {
      var q :| 0 <= q < p && keys[..p][q] == keys[j];
      assert q == j && keys[..p][i] == keys[i];
    }
  }

  function Capped(g: Grouped, n: nat): Quotas.Counts {
    map k | k in g.members :: Min(n, |g.members[k]|)
  }

  lemma {:induction false} RoundLength(g: Grouped, keys: seq<string>, n: nat)
    requires Covered(keys, g)
    ensures Quotas.SumOf(keys, Capped(g, n + 1)) == Quotas.SumOf(keys, Capped(g, n)) + |Round(g, keys, n)|
    decreases |keys|
  {
    if keys != [] {
      var init, last := keys[..|keys| - 1], keys[|keys| - 1];
      assert keys == init + [last];
      RoundLength(g, init, n);
      SumAppend(init, last, Capped(g, n));
      SumAppend(init, last, Capped(g, n + 1));
    }
  }

  lemma {:induction false} RoundsLength(g: Grouped, keys: seq<string>, n: nat)
    requires Covered(keys, g)
    ensures |Rounds(g, keys, n)| == Quotas.SumOf(keys, Capped(g, n))
    decreases n
  {
    if n == 0 {
      SumZero(keys, Capped(g, 0));
    } else {
      RoundsLength(g, keys, n - 1);
      RoundLength(g, keys, n - 1);
    }
  }

  lemma {:induction false} SumZero(keys: seq<string>, q: Quotas.Counts)
    requires Quotas.Covers(keys, q) && forall k :: k in keys ==> q[k] == 0
    ensures Quotas.SumOf(keys, q) == 0
    decreases |keys|
  {
    if keys != [] {
      SumZero(keys[1..], q);
    }
  }

  lemma DrawnLength(g: Grouped, keys: seq<string>, size: nat)
    requires Covered(keys, g)
    ensures |Drawn(g, keys, size)| == Min(size, Quotas.SumOf(keys, Sizes(g)))
  {
    RoundsLength(g, keys, LongestGroup(g, keys));
    Quotas.SumEqual(keys, Sizes(g), Capped(g, LongestGroup(g, keys)));
  }

  // ---------- Drawing within one difficulty ----------

  predicate RankedBefore(rank: int -> string, a: Case, b: Case) {
    StringLe(rank(a.questionId), rank(b.questionId))
  }

  function ByRank(rank: int -> string): (Case, Case) -> bool {
    (a, b) => RankedBefore(rank, a, b)
  }

  function RankGroups(g: Grouped, rank: int -> string): Grouped {
    Grouped(g.keys, map k | k in g.members :: Sort(ByRank(rank), g.members[k]))
  }

  function DrawFrom(cases: seq<Case>, quota: nat, rank: int -> string): seq<Case> {
    var g := RankGroups(GroupBy(cases, Database), rank);
    GroupByPartitions(cases, Database);
    SameMultisetSameMembers(Sort(StringLe, g.keys), g.keys);
    Drawn(g, Sort(StringLe, g.keys), quota)
  }

  lemma RankedGroupsKeyed(cases: seq<Case>, rank: int -> string)
    ensures Keyed(RankGroups(GroupBy(cases, Database), rank), Database)
  {
    GroupByPartitions(cases, Database);
    var g := GroupBy(cases, Database);
    forall k, i | k in g.members && 0 <= i < |Sort(ByRank(rank), g.members[k])|
      ensures Database(Sort(ByRank(rank), g.members[k])[i]) == k
    {
      var c := Sort(ByRank(rank), g.members[k])[i];
      SameMultisetSameMembers(Sort(ByRank(rank), g.members[k]), g.members[k]);
      assert c in multiset(Having(cases, Database, k));
      HavingCount(cases, Database, k, c);
    }
  }

  lemma DrawFromLength(cases: seq<Case>, quota: nat, rank: int -> string)
    requires quota <= |cases|
    ensures |DrawFrom(cases, quota, rank)| == quota
  {
    var g := GroupBy(cases, Database);
    var ranked, keys := RankGroups(g, rank), Sort(StringLe, g.keys);
    GroupByPartitions(cases, Database);
    SameMultisetSameMembers(keys, g.keys);
    DrawnLength(ranked, keys, quota);
    GroupSizesSum(cases, Database);
    Quotas.SumPermuted(g.keys, keys, Sizes(g));
    forall k | k in keys ensures |Sort(ByRank(rank), g.members[k])| == |g.members[k]| {
      SameMultisetSameMembers(Sort(ByRank(rank), g.members[k]), g.members[k]);
    }
    Quotas.SumEqual(keys, Sizes(g), Sizes(ranked));
  }

  lemma PrefixCount(xs: seq<Case>, ys: seq<Case>, c: Case)
    requires IsPrefix(xs, ys)
    ensures multiset(xs)[c] <= multiset(ys)[c]
  {
    assert ys == xs + ys[|xs|..];
  }

  /** No case is drawn more often than it occurs. */
  lemma DrawFromWithin(cases: seq<Case>, quota: nat, rank: int -> string, c: Case)
    ensures multiset(DrawFrom(cases, quota, rank))[c] <= multiset(cases)[c]
  {
    var g := GroupBy(cases, Database);
    var ranked, keys, drawn := RankGroups(g, rank), Sort(StringLe, g.keys), DrawFrom(cases, quota, rank);
    GroupByPartitions(cases, Database);
    SameMultisetSameMembers(keys, g.keys);
    SameMultisetDistinct(g.keys, keys);
    RankedGroupsKeyed(cases, rank);
    HavingCount(drawn, Database, c.dbId, c);
    HavingCount(cases, Database, c.dbId, c);
    if c.dbId in keys {
      DrawnRankedAndBalanced(ranked, keys, quota, Database);
      PrefixCount(Having(drawn, Database, c.dbId), ranked.members[c.dbId], c);
    } else {
      DrawnOutside(ranked, keys, quota, c.dbId);
    }
  }

  lemma RankIsPreorder(rank: int -> string)
    ensures TotalPreorder(ByRank(rank))
  {
    var le := ByRank(rank);
    forall x: Case, y: Case ensures le(x, y) || le(y, x) {
      StringLeTotal(rank(x.questionId), rank(y.questionId));
    }
    forall x: Case, y: Case, z: Case | le(x, y) && le(y, z) ensures le(x, z) {
      StringLeTransitive(rank(x.questionId), rank(y.questionId), rank(z.questionId));
    }
  }

  /** Of a list sorted by rank, what a prefix holds ranks no later than what it does not hold all of. */
  lemma PrefixRanksFirst(xs: seq<Case>, ys: seq<Case>, rank: int -> string, c: Case, x: Case)
    requires IsPrefix(xs, ys) && SortedBy(ByRank(rank), ys)
    requires c in xs && multiset(xs)[x] < multiset(ys)[x]
    ensures StringLe(rank(c.questionId), rank(x.questionId))
  {
    var rest := ys[|xs|..];
    assert ys == xs + rest;
    assert x in multiset(rest);
    var i :| 0 <= i < |xs| && xs[i] == c;
    var j :| 0 <= j < |rest| && rest[j] == x;
    assert ys[i] == c && ys[|xs| + j] == x;
    assert ByRank(rank)(ys[i], ys[|xs| + j]);
  }

  /** Within one database every drawn case ranks no later than every undrawn one. */
  lemma DrawFromRanked(cases: seq<Case>, quota: nat, rank: int -> string, c: Case, x: Case)
    requires c in DrawFrom(cases, quota, rank) && c.dbId == x.dbId
    requires multiset(DrawFrom(cases, quota, rank))[x] < multiset(cases)[x]
    ensures StringLe(rank(c.questionId), rank(x.questionId))
  {
    var g, k := GroupBy(cases, Database), c.dbId;
    var ranked, keys, drawn := RankGroups(g, rank), Sort(StringLe, g.keys), DrawFrom(cases, quota, rank);
    GroupByPartitions(cases, Database);
    SameMultisetSameMembers(keys, g.keys);
    SameMultisetDistinct(g.keys, keys);
    RankedGroupsKeyed(cases, rank);
    HavingCount(drawn, Database, k, x);
    HavingCount(cases, Database, k, x);
    HavingCount(drawn, Database, k, c);
    assert c in multiset(drawn);
    assert c in multiset(Having(drawn, Database, k));
    DrawnRankedAndBalanced(ranked, keys, quota, Database);
    RankIsPreorder(rank);
    SortSorts(ByRank(rank), g.members[k]);
    PrefixRanksFirst(Having(drawn, Database, k), ranked.members[k], rank, c, x);
  }

  /** Of two databases the one with undrawn cases left is at most one case behind. */
  lemma DrawFromBalanced(cases: seq<Case>, quota: nat, rank: int -> string, k: string, h: string)
    requires |Having(DrawFrom(cases, quota, rank), Database, k)| < |Having(cases, Database, k)|
    ensures |Having(DrawFrom(cases, quota, rank), Database, h)| <=
            |Having(DrawFrom(cases, quota, rank), Database, k)| + 1
  {
    var g := GroupBy(cases, Database);
    var ranked, keys := RankGroups(g, rank), Sort(StringLe, g.keys);
    GroupByPartitions(cases, Database);
    SameMultisetSameMembers(keys, g.keys);
    SameMultisetDistinct(g.keys, keys);
    RankedGroupsKeyed(cases, rank);
    if h !in keys {
      DrawnOutside(ranked, keys, quota, h);
    } else {
      SameMultisetSameMembers(ranked.members[k], g.members[k]);
      DrawnRankedAndBalanced(ranked, keys, quota, Database);
    }
  }

  /** Of two databases the one named first, if it has undrawn cases left, is not behind. */
  lemma DrawFromEarlierFirst(cases: seq<Case>, quota: nat, rank: int -> string, k: string, h: string)
    requires StringLe(k, h) && k != h
    requires |Having(DrawFrom(cases, quota, rank), Database, k)| < |Having(cases, Database, k)|
    ensures |Having(DrawFrom(cases, quota, rank), Database, h)| <= |Having(DrawFrom(cases, quota, rank), Database, k)|
  {
    var g := GroupBy(cases, Database);
    var ranked, keys := RankGroups(g, rank), Sort(StringLe, g.keys);
    GroupByPartitions(cases, Database);
    SameMultisetSameMembers(keys, g.keys);
    SameMultisetDistinct(g.keys, keys);
    RankedGroupsKeyed(cases, rank);
    if h !in keys {
      DrawnOutside(ranked, keys, quota, h);
    } else {
      SameMultisetSameMembers(ranked.members[k], g.members[k]);
      var i, j := InNameOrder(g.keys, keys, k, h);
      DrawnEarlierFirst(ranked, keys, quota, Database, i, j);
    }
  }

  lemma InNameOrder(names: seq<string>, keys: seq<string>, k: string, h: string) returns (i: nat, j: nat)
    requires keys == Sort(StringLe, names) && k in keys && h in keys && StringLe(k, h) && k != h
    ensures i < j < |keys| && keys[i] == k && keys[j] == h
  {
    i :| 0 <= i < |keys| && keys[i] == k;
    j :| 0 <= j < |keys| && keys[j] == h;
    StringLePreorder();
    SortSorts(StringLe, names);
    if j < i {
      assert StringLe(keys[j], keys[i]);
      StringLeAntisymmetric(k, h);
    }
  }

  lemma DrawnOutside(g: Grouped, keys: seq<string>, size: nat, k: string)
    requires Covered(keys, g) && Keyed(g, Database) && Distinct(keys) && k !in keys
    ensures Having(Drawn(g, keys, size), Database, k) == []
  {
    var longest := LongestGroup(g, keys);
    var r, p := CutRounds(g, keys, longest, Min(size, |Rounds(g, keys, longest)|));
    HavingCut(g, keys, r, p, Database, k);
  }

  // ---------- The development sample ----------

  predicate IdLe(a: Case, b: Case) {
    a.questionId <= b.questionId
  }

  function QuotaTable(byDifficulty: Grouped, size: nat, total: nat): (quotas: Quotas.Counts)
    requires total > 0 && Covered(byDifficulty.keys, byDifficulty)
  {
    Quotas.RoundedQuotas(byDifficulty.keys, Quotas.ExactShares(Sizes(byDifficulty), size, total), size)
  }

  function SelectAll(difficulties: seq<string>, g: Grouped, quotas: Quotas.Counts, rank: int -> string): seq<Case>
    requires Covered(difficulties, g) && forall d :: d in difficulties ==> d in quotas
    decreases |difficulties|
  {
    if difficulties == [] then []
    else
      var last := difficulties[|difficulties| - 1];
      SelectAll(difficulties[..|difficulties| - 1], g, quotas, rank) + DrawFrom(g.members[last], quotas[last], rank)
  }

  lemma {:induction false} SelectAllLength(difficulties: seq<string>, g: Grouped, quotas: Quotas.Counts,
                                           rank: int -> string)
    requires Covered(difficulties, g) && Quotas.Covers(difficulties, quotas)
    requires forall d :: d in difficulties ==> quotas[d] <= |g.members[d]|
    ensures |SelectAll(difficulties, g, quotas, rank)| == Quotas.SumOf(difficulties, quotas)
    decreases |difficulties|
  {
    if difficulties != [] {
      var init, last := difficulties[..|difficulties| - 1], difficulties[|difficulties| - 1];
      assert difficulties == init + [last];
      SelectAllLength(init, g, quotas, rank);
      SumAppend(init, last, quotas);
      DrawFromLength(g.members[last], quotas[last], rank);
    }
  }

  /** The part of the selection with one difficulty is the draw from that difficulty. */
  lemma {:induction false} SelectAllHaving(difficulties: seq<string>, g: Grouped, quotas: Quotas.Counts,
                                           rank: int -> string, d: string)
    requires Covered(difficulties, g) && Quotas.Covers(difficulties, quotas)
    requires Keyed(g, Difficulty) && Distinct(difficulties)
    ensures Having(SelectAll(difficulties, g, quotas, rank), Difficulty, d) ==
            if d in difficulties then DrawFrom(g.members[d], quotas[d], rank) else []
    decreases |difficulties|
  {
    if difficulties != [] {
      var init, last := difficulties[..|difficulties| - 1], difficulties[|difficulties| - 1];
      assert difficulties == init + [last];
      SelectAllHaving(init, g, quotas, rank, d);
      var drawn := DrawFrom(g.members[last], quotas[last], rank);
      forall c | c in drawn ensures Difficulty(c) == last {
        DrawFromWithin(g.members[last], quotas[last], rank, c);
        assert c in multiset(drawn);
        assert c in multiset(g.members[last]);
      }
      if d == last {
        HavingAll(drawn, Difficulty, d);
      } else {
        HavingNone(drawn, Difficulty, d);
      }
      HavingConcat(SelectAll(init, g, quotas, rank), drawn, Difficulty, d);
    }
  }

  function CanaryOf(cases: seq<Case>, size: nat, rank: int -> string): seq<Case>
    requires cases != []
  {
    var byDifficulty := GroupBy(cases, Difficulty);
    GroupByPartitions(cases, Difficulty);
    SameMultisetSameMembers(Sort(StringLe, byDifficulty.keys), byDifficulty.keys);
    Sort(IdLe, SelectAll(Sort(StringLe, byDifficulty.keys), byDifficulty,
                         QuotaTable(byDifficulty, size, |cases|), rank))
  }

  datatype SelectionError = NotPositive | ExceedsDataset | SelectedTooFew

  method SelectCanary(cases: seq<Case>, size: int, rank: int -> string) returns (r: Result<seq<Case>, SelectionError>)
    ensures size <= 0 ==> r == Failure(NotPositive)
    ensures size > |cases| && size > 0 ==> r == Failure(ExceedsDataset)
    ensures 0 < size <= |cases| ==>
              r == if |CanaryOf(cases, size, rank)| == size then Success(CanaryOf(cases, size, rank))
                   else Failure(SelectedTooFew)
  {
    if size <= 0 {
      return Failure(NotPositive);
    }
    if size > |cases| {
      return Failure(ExceedsDataset);
    }
    var byDifficulty := GroupCases(cases, Difficulty);
    GroupByPartitions(cases, Difficulty);
    var quotas := Quotas.ProportionalQuotas(byDifficulty.keys, Sizes(byDifficulty), size, |cases|);
    SameMultisetSameMembers(Sort(StringLe, byDifficulty.keys), byDifficulty.keys);
    var selected := SelectDifficulties(Sort(StringLe, byDifficulty.keys), byDifficulty, quotas, rank);
    SameMultisetSameMembers(Sort(IdLe, selected), selected);
    if |selected| != size {
      return Failure(SelectedTooFew);
    }
    return Success(Sort(IdLe, selected));
  }

  method SelectDifficulties(difficulties: seq<string>, g: Grouped, quotas: Quotas.Counts, rank: int -> string)
    returns (selected: seq<Case>)
    requires Covered(difficulties, g) && forall d :: d in difficulties ==> d in quotas
    ensures selected == SelectAll(difficulties, g, quotas, rank)
  {
    selected := [];
    var i := 0;
    while i < |difficulties|
      invariant i <= |difficulties| && Covered(difficulties[..i], g)
      invariant selected == SelectAll(difficulties[..i], g, quotas, rank)
    {
      var drawn := SelectWithin(g.members[difficulties[i]], quotas[difficulties[i]], rank);
      SelectNext(difficulties, i, g, quotas, rank);
      selected := selected + drawn;
      i := i + 1;
    }
    assert difficulties[..|difficulties|] == difficulties;
  }

  lemma SelectNext(difficulties: seq<string>, i: nat, g: Grouped, quotas: Quotas.Counts, rank: int -> string)
    requires Covered(difficulties, g) && i < |difficulties| && forall d :: d in difficulties ==> d in quotas
    ensures Covered(difficulties[..i], g) && Covered(difficulties[..i + 1], g)
    ensures SelectAll(difficulties[..i + 1], g, quotas, rank) ==
            SelectAll(difficulties[..i], g, quotas, rank) +
            DrawFrom(g.members[difficulties[i]], quotas[difficulties[i]], rank)
  {
    assert difficulties[..i + 1][..i] == difficulties[..i];
  }

  /** One difficulty: its cases by database, each group ranked, then drawn round-robin. */
  method SelectWithin(cases: seq<Case>, quota: nat, rank: int -> string) returns (drawn: seq<Case>)
    ensures drawn == DrawFrom(cases, quota, rank)
  {
    var g := GroupCases(cases, Database);
    GroupByPartitions(cases, Database);
    var ranked := RankAll(g, rank);
    SameMultisetSameMembers(Sort(StringLe, g.keys), g.keys);
    drawn := RoundRobinGroups(ranked, Sort(StringLe, g.keys), quota);
  }

  function RankSome(g: Grouped, rank: int -> string, done: set<string>): map<string, seq<Case>> {
    map k | k in g.members :: if k in done then Sort(ByRank(rank), g.members[k]) else g.members[k]
  }

  lemma RankOneMore(g: Grouped, rank: int -> string, done: set<string>, k: string)
    requires k in g.members && k !in done
    ensures RankSome(g, rank, done + {k}) ==
            RankSome(g, rank, done)[k := Sort(ByRank(rank), RankSome(g, rank, done)[k])]
  {
  }

  lemma RankedAll(g: Grouped, rank: int -> string, done: set<string>)
    requires (forall k :: k in g.members ==> k in g.keys) && forall k :: k in g.keys ==> k in done
    ensures RankSome(g, rank, done) == RankGroups(g, rank).members
  {
  }

  /** The first `n` keys. */
  function KeysUpTo(keys: seq<string>, n: nat): set<string>
    requires n <= |keys|
  {
    set i | 0 <= i < n :: keys[i]
  }

  lemma KeysUpToNext(keys: seq<string>, n: nat)
    requires Distinct(keys) && n < |keys|
    ensures keys[n] !in KeysUpTo(keys, n) && KeysUpTo(keys, n + 1) == KeysUpTo(keys, n) + {keys[n]}
  {
  }

  /** Sorts the groups in place, one after the other. */
  method RankAll(g: Grouped, rank: int -> string) returns (ranked: Grouped)
    requires Distinct(g.keys) && Covered(g.keys, g) && forall k :: k in g.members ==> k in g.keys
    ensures ranked == RankGroups(g, rank)
  {
    var members, i := g.members, 0;
    assert members == RankSome(g, rank, KeysUpTo(g.keys, 0));
    while i < |g.keys|
      invariant i <= |g.keys| && members == RankSome(g, rank, KeysUpTo(g.keys, i))
    {
      var k := g.keys[i];
      KeysUpToNext(g.keys, i);
      RankOneMore(g, rank, KeysUpTo(g.keys, i), k);
      members := members[k := Sort(ByRank(rank), members[k])];
      i := i + 1;
    }
    RankedAll(g, rank, KeysUpTo(g.keys, i));
    ranked := Grouped(g.keys, members);
  }

  lemma GroupsKeyed(cases: seq<Case>)
    ensures Keyed(GroupBy(cases, Difficulty), Difficulty)
  {
    GroupByPartitions(cases, Difficulty);
    var g := GroupBy(cases, Difficulty);
    forall k, i | k in g.members && 0 <= i < |g.members[k]| ensures Difficulty(g.members[k][i]) == k {
      assert g.members[k][i] in multiset(Having(cases, Difficulty, k));
      HavingCount(cases, Difficulty, k, g.members[k][i]);
    }
  }

  /** The sample has exactly the requested size, so the mismatch error is unreachable. */
  lemma CanaryHasRequestedSize(cases: seq<Case>, size: nat, rank: int -> string)
    requires 0 < size <= |cases|
    ensures |CanaryOf(cases, size, rank)| == size
  {
    var g := GroupBy(cases, Difficulty);
    GroupByPartitions(cases, Difficulty);
    GroupSizesSum(cases, Difficulty);
    var keys, exact := Sort(StringLe, g.keys), Quotas.ExactShares(Sizes(g), size, |cases|);
    var quotas := Quotas.RoundedQuotas(g.keys, exact, size);
    SameMultisetSameMembers(keys, g.keys);
    Quotas.QuotasExactAndFeasible(g.keys, Sizes(g), exact, size, |cases|);
    Quotas.SumPermuted(g.keys, keys, quotas);
    SelectAllLength(keys, g, quotas, rank);
    var selected := SelectAll(keys, g, quotas, rank);
    SameMultisetSameMembers(Sort(IdLe, selected), selected);
  }

  lemma HavingPermuted(xs: seq<Case>, ys: seq<Case>, key: Case -> string, k: string)
    requires multiset(xs) == multiset(ys)
    ensures multiset(Having(xs, key, k)) == multiset(Having(ys, key, k))
    ensures |Having(xs, key, k)| == |Having(ys, key, k)|
  {
    var hx, hy := Having(xs, key, k), Having(ys, key, k);
    forall c: Case ensures multiset(hx)[c] == multiset(hy)[c] {
      HavingCount(xs, key, k, c);
      HavingCount(ys, key, k, c);
    }
    assert multiset(hx) == multiset(hy);
    SameMultisetSameMembers(hx, hy);
  }

  /** The sample is stratified: of every difficulty it holds exactly that difficulty's quota. */
  lemma CanaryStratified(cases: seq<Case>, size: nat, rank: int -> string, d: string)
    requires 0 < size <= |cases|
    ensures var g := GroupBy(cases, Difficulty);
            Covered(g.keys, g) &&
            |Having(CanaryOf(cases, size, rank), Difficulty, d)| ==
            if d in g.keys then QuotaTable(g, size, |cases|)[d] else 0
  {
    var g := GroupBy(cases, Difficulty);
    GroupByPartitions(cases, Difficulty);
    GroupsKeyed(cases);
    GroupSizesSum(cases, Difficulty);
    var keys, exact := Sort(StringLe, g.keys), Quotas.ExactShares(Sizes(g), size, |cases|);
    var quotas := Quotas.RoundedQuotas(g.keys, exact, size);
    SameMultisetSameMembers(keys, g.keys);
    SameMultisetDistinct(g.keys, keys);
    Quotas.QuotasExactAndFeasible(g.keys, Sizes(g), exact, size, |cases|);
    var selected := SelectAll(keys, g, quotas, rank);
    SelectAllHaving(keys, g, quotas, rank, d);
    HavingPermuted(Sort(IdLe, selected), selected, Difficulty, d);
    if d in keys {
      DrawFromLength(g.members[d], quotas[d], rank);
    }
  }

  /** The sample's cases of one difficulty are, up to order, what was drawn from that difficulty. */
  lemma CanaryDraw(cases: seq<Case>, size: nat, rank: int -> string, d: string) returns (quota: nat)
    requires 0 < size <= |cases|
    ensures var drawn := DrawFrom(Having(cases, Difficulty, d), quota, rank);
            multiset(Having(CanaryOf(cases, size, rank), Difficulty, d)) == multiset(drawn)
  {
    var g := GroupBy(cases, Difficulty);
    GroupByPartitions(cases, Difficulty);
    GroupsKeyed(cases);
    var keys, quotas := Sort(StringLe, g.keys), QuotaTable(g, size, |cases|);
    SameMultisetSameMembers(keys, g.keys);
    SameMultisetDistinct(g.keys, keys);
    var selected := SelectAll(keys, g, quotas, rank);
    SelectAllHaving(keys, g, quotas, rank, d);
    HavingPermuted(Sort(IdLe, selected), selected, Difficulty, d);
    if d in keys {
      quota := quotas[d];
    } else {
      quota := 0;
      DrawFromLength([], 0, rank);
    }
  }

  /** Within one difficulty and database every case in the sample ranks no later than every case left out. */
  lemma CanaryRanked(cases: seq<Case>, size: nat, rank: int -> string, c: Case, x: Case)
    requires 0 < size <= |cases| && c in CanaryOf(cases, size, rank)
    requires multiset(CanaryOf(cases, size, rank))[x] < multiset(cases)[x]
    requires c.difficulty == x.difficulty && c.dbId == x.dbId
    ensures StringLe(rank(c.questionId), rank(x.questionId))
  {
    var canary, d := CanaryOf(cases, size, rank), c.difficulty;
    var quota := CanaryDraw(cases, size, rank, d);
    var drawn := DrawFrom(Having(cases, Difficulty, d), quota, rank);
    assert c in multiset(canary);
    HavingCount(canary, Difficulty, d, c);
    HavingCount(canary, Difficulty, d, x);
    HavingCount(cases, Difficulty, d, x);
    assert c in multiset(drawn);
    DrawFromRanked(Having(cases, Difficulty, d), quota, rank, c, x);
  }

  /** The cases of one difficulty and database. */
  function Stratum(cases: seq<Case>, d: string, k: string): seq<Case> {
    Having(Having(cases, Difficulty, d), Database, k)
  }

  /** Within one difficulty, a database with cases left out is at most one case behind any other. */
  lemma CanaryBalanced(cases: seq<Case>, size: nat, rank: int -> string, d: string, k: string, h: string)
    requires 0 < size <= |cases|
    requires |Stratum(CanaryOf(cases, size, rank), d, k)| < |Stratum(cases, d, k)|
    ensures |Stratum(CanaryOf(cases, size, rank), d, h)| <= |Stratum(CanaryOf(cases, size, rank), d, k)| + 1
  {
    var quota := CanaryDraw(cases, size, rank, d);
    var within, drawn := Having(CanaryOf(cases, size, rank), Difficulty, d),
                         DrawFrom(Having(cases, Difficulty, d), quota, rank);
    HavingPermuted(within, drawn, Database, k);
    HavingPermuted(within, drawn, Database, h);
    DrawFromBalanced(Having(cases, Difficulty, d), quota, rank, k, h);
  }

  /** Within one difficulty the odd cases go to the databases named first: one with cases left out is not behind any
      that is named later. */
  lemma CanaryEarlierFirst(cases: seq<Case>, size: nat, rank: int -> string, d: string, k: string, h: string)
    requires 0 < size <= |cases| && StringLe(k, h) && k != h
    requires |Stratum(CanaryOf(cases, size, rank), d, k)| < |Stratum(cases, d, k)|
    ensures |Stratum(CanaryOf(cases, size, rank), d, h)| <= |Stratum(CanaryOf(cases, size, rank), d, k)|
  {
    var quota := CanaryDraw(cases, size, rank, d);
    var within, drawn := Having(CanaryOf(cases, size, rank), Difficulty, d),
                         DrawFrom(Having(cases, Difficulty, d), quota, rank);
    HavingPermuted(within, drawn, Database, k);
    HavingPermuted(within, drawn, Database, h);
    DrawFromEarlierFirst(Having(cases, Difficulty, d), quota, rank, k, h);
  }

  /** Sample and holdout are listed by question id. */
  lemma ListedById(cases: seq<Case>, size: nat, rank: int -> string)
    requires 0 < size <= |cases|
    ensures var canary := CanaryOf(cases, size, rank);
            (forall i, j :: 0 <= i < j < |canary| ==> canary[i].questionId <= canary[j].questionId) &&
            var holdout := Sort(IdLe, Without(cases, Ids(canary)));
            forall i, j :: 0 <= i < j < |holdout| ==> holdout[i].questionId <= holdout[j].questionId
  {
    var g := GroupBy(cases, Difficulty);
    GroupByPartitions(cases, Difficulty);
    SameMultisetSameMembers(Sort(StringLe, g.keys), g.keys);
    assert TotalPreorder(IdLe);
    SortSorts(IdLe, SelectAll(Sort(StringLe, g.keys), g, QuotaTable(g, size, |cases|), rank));
    SortSorts(IdLe, Without(cases, Ids(CanaryOf(cases, size, rank))));
  }

  /** No case is in the sample more often than in the dataset. */
  lemma CanaryWithinCases(cases: seq<Case>, size: nat, rank: int -> string, c: Case)
    requires 0 < size <= |cases|
    ensures multiset(CanaryOf(cases, size, rank))[c] <= multiset(cases)[c]
  {
    var g := GroupBy(cases, Difficulty);
    GroupByPartitions(cases, Difficulty);
    GroupsKeyed(cases);
    var keys, quotas := Sort(StringLe, g.keys), QuotaTable(g, size, |cases|);
    SameMultisetSameMembers(keys, g.keys);
    SameMultisetDistinct(g.keys, keys);
    var selected, d := SelectAll(keys, g, quotas, rank), c.difficulty;
    SelectAllHaving(keys, g, quotas, rank, d);
    HavingCount(selected, Difficulty, d, c);
    HavingCount(cases, Difficulty, d, c);
    if d in keys {
      DrawFromWithin(g.members[d], quotas[d], rank, c);
    }
  }

  // ---------- The holdout ----------

  function Ids(cases: seq<Case>): set<int> {
    set c | c in cases :: c.questionId
  }

  function Without(cases: seq<Case>, ids: set<int>): seq<Case>
    decreases |cases|
  {
    if cases == [] then []
    else
      (if cases[0].questionId in ids then [] else [cases[0]]) + Without(cases[1..], ids)
  }

  method SelectHoldout(cases: seq<Case>, size: int, rank: int -> string) returns (r: Result<seq<Case>, SelectionError>)
    ensures r.Success? <==> 0 < size <= |cases|
    ensures r.Success? ==> r.value == Sort(IdLe, Without(cases, Ids(CanaryOf(cases, size, rank))))
  {
    var canary := SelectCanary(cases, size, rank);
    if canary.Failure? {
      if 0 < size <= |cases| {
        CanaryHasRequestedSize(cases, size, rank);
      }
      return canary;
    }
    return Success(Sort(IdLe, Without(cases, Ids(canary.value))));
  }

  lemma {:induction false} WithoutCount(cases: seq<Case>, ids: set<int>, c: Case)
    ensures multiset(Without(cases, ids))[c] == if c.questionId in ids then 0 else multiset(cases)[c]
    decreases |cases|
  {
    if cases != [] {
      WithoutCount(cases[1..], ids, c);
      assert cases == [cases[0]] + cases[1..];
    }
  }

  ghost predicate UniqueIds(cases: seq<Case>) {
    forall i, j :: 0 <= i < j < |cases| ==> cases[i].questionId != cases[j].questionId
  }

  /** When identifiers are unique, every case of the dataset is in exactly one of sample and holdout. */
  lemma CanaryAndHoldoutPartition(cases: seq<Case>, size: nat, rank: int -> string, canary: seq<Case>,
                                  holdout: seq<Case>)
    requires 0 < size <= |cases| && UniqueIds(cases)
    requires canary == CanaryOf(cases, size, rank) && holdout == Sort(IdLe, Without(cases, Ids(canary)))
    ensures multiset(canary) + multiset(holdout) == multiset(cases)
    ensures |canary| + |holdout| == |cases|
  {
    forall c: Case ensures multiset(canary)[c] <= multiset(cases)[c] {
      CanaryWithinCases(cases, size, rank, c);
    }
    SampleAndRest(cases, canary, holdout);
  }

  lemma SampleAndRest(cases: seq<Case>, sample: seq<Case>, holdout: seq<Case>)
    requires UniqueIds(cases) && forall c: Case :: multiset(sample)[c] <= multiset(cases)[c]
    requires holdout == Sort(IdLe, Without(cases, Ids(sample)))
    ensures multiset(sample) + multiset(holdout) == multiset(cases)
    ensures |sample| + |holdout| == |cases|
  {
    forall c: Case ensures multiset(sample)[c] + multiset(holdout)[c] == multiset(cases)[c] {
      InExactlyOnePart(cases, sample, c);
    }
    SumOfCounts(sample, holdout, cases);
  }

  lemma SumOfCounts(xs: seq<Case>, ys: seq<Case>, zs: seq<Case>)
    requires forall c: Case :: multiset(xs)[c] + multiset(ys)[c] == multiset(zs)[c]
    ensures multiset(xs) + multiset(ys) == multiset(zs)
    ensures |xs| + |ys| == |zs|
  {
    assert multiset(xs) + multiset(ys) == multiset(zs);
    assert |multiset(xs) + multiset(ys)| == |xs| + |ys|;
  }

  lemma InExactlyOnePart(cases: seq<Case>, sample: seq<Case>, c: Case)
    requires UniqueIds(cases) && forall x: Case :: multiset(sample)[x] <= multiset(cases)[x]
    ensures multiset(sample)[c] + multiset(Without(cases, Ids(sample)))[c] == multiset(cases)[c]
  {
    WithoutCount(cases, Ids(sample), c);
    if c in cases && c.questionId in Ids(sample) {
      var c' :| c' in sample && c'.questionId == c.questionId;
      assert c' in multiset(sample);
      assert c' in multiset(cases);
      assert c == c';
      DistinctCounts(cases);
    } else {
      assert c in multiset(cases) <==> c in cases;
      assert c !in multiset(sample);
    }
  }
}
