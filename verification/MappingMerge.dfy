/** The three-way merge of nested mappings and the locked read-merge-write transaction built on it
    (cli/shared/persistence.py). */
module MappingMerge {
  import opened Wrappers

  /** A TOML value. Everything that is not a table is compared and copied as a whole. */
  datatype Value = Scalar(text: string) | Table(entries: map<string, Value>)

  type Mapping = map<string, Value>

  function At(m: Mapping, key: string): Option<Value> {
    if key in m then Some(m[key]) else None
  }

  /** What the merge leaves at a key that `current` holds with value `v`. */
  function MergeEntry(latest: Option<Value>, baseline: Option<Value>, v: Value): Option<Value>
    decreases v, 1
  {
    if baseline == None then Some(v)
    else if v == baseline.value then latest
    else if baseline.value.Table? && v.Table? && latest.Some? && latest.value.Table? then
      Some(Table(Merge(latest.value.entries, baseline.value.entries, v.entries)))
    else Some(v)
  }

  /** The change from `baseline` to `current`, applied to `latest`. */
  function Merge(latest: Mapping, baseline: Mapping, current: Mapping): Mapping
    decreases Table(current), 0
  {
    map k | k in latest.Keys + current.Keys &&
            (if k in current then MergeEntry(At(latest, k), At(baseline, k), current[k]).Some?
             else k !in baseline && k in latest)
      :: if k in current then MergeEntry(At(latest, k), At(baseline, k), current[k]).value else latest[k]
  }

  function MergeAt(latest: Option<Value>, baseline: Option<Value>, current: Option<Value>): Option<Value> {
    if current.Some? then MergeEntry(latest, baseline, current.value)
    else if baseline.Some? then None
    else latest
  }

  lemma MergeLookup(latest: Mapping, baseline: Mapping, current: Mapping, k: string)
    ensures At(Merge(latest, baseline, current), k) == MergeAt(At(latest, k), At(baseline, k), At(current, k))
  {
  }

  lemma SameEntriesSameMapping(m: Mapping, n: Mapping)
    requires forall k :: At(m, k) == At(n, k)
    ensures m == n
  {
    forall k ensures k in m <==> k in n { assert At(m, k) == At(n, k); }
    forall k | k in m ensures m[k] == n[k] { assert At(m, k) == At(n, k); }
  }

  /** The dictionary is filled in place, key by key, in whatever order the key sets are walked. */
  method MergeMappingChanges(latest: Mapping, baseline: Mapping, current: Mapping) returns (merged: Mapping)
    ensures merged == Merge(latest, baseline, current)
    decreases Table(current)
  {
    merged := latest;
    var removed := baseline.Keys - current.Keys;
    while removed != {}
      invariant removed <= baseline.Keys - current.Keys
      invariant forall k :: At(merged, k) == if k in baseline.Keys - current.Keys - removed then None else At(latest, k)
    {
      var key :| key in removed;
      merged := merged - {key};
      removed := removed - {key};
    }
    var pending := current.Keys;
    while pending != {}
      invariant pending <= current.Keys
      invariant forall k ::
                  At(merged, k) ==
                  if k in pending then At(latest, k) else MergeAt(At(latest, k), At(baseline, k), At(current, k))
    {
      var key :| key in pending;
      pending := pending - {key};
      var value := current[key];
      assert At(merged, key) == At(latest, key);
      if key !in baseline {
        merged := merged[key := value];
      } else if value != baseline[key] {
        if baseline[key].Table? && value.Table? && key in merged && merged[key].Table? {
          var inner := MergeMappingChanges(merged[key].entries, baseline[key].entries, value.entries);
          merged := merged[key := Table(inner)];
        } else {
          merged := merged[key := value];
        }
      }
    }
    forall k ensures At(merged, k) == At(Merge(latest, baseline, current), k) {
      MergeLookup(latest, baseline, current, k);
    }
    SameEntriesSameMapping(merged, Merge(latest, baseline, current));
  }

  // ---------- Laws of one edit ----------

  /** With no concurrent change the edited mapping itself is written. */
  lemma {:induction false} MergeOntoBaseline(b: Mapping, c: Mapping)
    ensures Merge(b, b, c) == c
    decreases Table(b)
  {
    forall k ensures At(Merge(b, b, c), k) == At(c, k) {
      MergeLookup(b, b, c, k);
      if k in b && k in c && b[k].Table? && c[k].Table? {
        MergeOntoBaseline(b[k].entries, c[k].entries);
      }
    }
    SameEntriesSameMapping(Merge(b, b, c), c);
  }

  /** An edit that changes nothing leaves the latest file alone. */
  lemma MergeWithoutChange(l: Mapping, b: Mapping)
    ensures Merge(l, b, b) == l
  {
    forall k ensures At(Merge(l, b, b), k) == At(l, k) {
      MergeLookup(l, b, b, k);
    }
    SameEntriesSameMapping(Merge(l, b, b), l);
  }

  /** An edit already present in the latest file is not disturbed. */
  lemma {:induction false} MergeOntoItself(b: Mapping, c: Mapping)
    ensures Merge(c, b, c) == c
    decreases Table(b)
  {
    forall k ensures At(Merge(c, b, c), k) == At(c, k) {
      MergeLookup(c, b, c, k);
      if k in b && k in c && b[k].Table? && c[k].Table? {
        MergeOntoItself(b[k].entries, c[k].entries);
      }
    }
    SameEntriesSameMapping(Merge(c, b, c), c);
  }

  /** Saving the same edit twice is saving it once. */
  lemma {:induction false} MergeIdempotent(l: Mapping, b: Mapping, c: Mapping)
    ensures Merge(Merge(l, b, c), b, c) == Merge(l, b, c)
    decreases Table(b)
  {
    var m := Merge(l, b, c);
    forall k ensures At(Merge(m, b, c), k) == At(m, k) {
      MergeLookup(l, b, c, k);
      MergeLookup(m, b, c, k);
      if k in b && k in c && b[k].Table? && c[k].Table? {
        if k in l && l[k].Table? {
          MergeIdempotent(l[k].entries, b[k].entries, c[k].entries);
        } else {
          MergeOntoItself(b[k].entries, c[k].entries);
        }
      }
    }
    SameEntriesSameMapping(Merge(m, b, c), m);
  }

  // ---------- The merge seen from a path into the document ----------

  /** The value at a non-empty path of keys. */
  function Lookup(m: Mapping, path: seq<string>): Option<Value>
    requires path != []
    decreases |path|
  {
    if |path| == 1 then At(m, path[0])
    else if path[0] in m && m[path[0]].Table? then Lookup(m[path[0]].entries, path[1..])
    else None
  }

  predicate IsTable(v: Option<Value>) {
    v.Some? && v.value.Table?
  }

  /** The merge descends through `path`: all three documents hold a table there and the edit changed it. */
  predicate Descends(l: Mapping, b: Mapping, c: Mapping, path: seq<string>)
    requires path != []
  {
    IsTable(Lookup(l, path)) && IsTable(Lookup(b, path)) && IsTable(Lookup(c, path)) &&
    Lookup(b, path) != Lookup(c, path)
  }

  /** Path by path: the first prefix the merge does not descend through decides. If the edit left that
      prefix as it was, everything below keeps its latest value; otherwise the edit's value is taken whole. */
  lemma {:induction false} MergeAlongPath(l: Mapping, b: Mapping, c: Mapping, path: seq<string>, n: nat)
    requires 0 < n <= |path|
    requires forall i :: 0 < i < n ==> Descends(l, b, c, path[..i])
    requires !Descends(l, b, c, path[..n])
    ensures Lookup(Merge(l, b, c), path) ==
            if Lookup(b, path[..n]) == Lookup(c, path[..n]) then Lookup(l, path) else Lookup(c, path)
    decreases n
  {
    MergeLookup(l, b, c, path[0]);
    if n > 1 {
      assert Descends(l, b, c, path[..1]);
      var k, rest := path[0], path[1..];
      assert path[..1] == [k];
      var l', b', c' := l[k].entries, b[k].entries, c[k].entries;
      forall i | 0 < i < n
        ensures Lookup(l', rest[..i]) == Lookup(l, path[..i + 1])
        ensures Lookup(b', rest[..i]) == Lookup(b, path[..i + 1])
        ensures Lookup(c', rest[..i]) == Lookup(c, path[..i + 1])
      {
        assert path[..i + 1][1..] == rest[..i];
      }
      MergeAlongPath(l', b', c', rest, n - 1);
    } else {
      assert path[..1] == [path[0]];
    }
  }

  /** A path the edit did not touch keeps its latest value, unless an ancestor was replaced whole. */
  lemma {:induction false} UntouchedPathKept(l: Mapping, b: Mapping, c: Mapping, path: seq<string>)
    requires path != [] && Lookup(b, path) == Lookup(c, path)
    ensures Lookup(Merge(l, b, c), path) == Lookup(l, path) ||
            exists n :: 0 < n < |path| && Lookup(b, path[..n]) != Lookup(c, path[..n]) &&
                        !Descends(l, b, c, path[..n]) && Lookup(Merge(l, b, c), path[..n]) == Lookup(c, path[..n])
  {
    var n := 1;
    while n < |path| && Descends(l, b, c, path[..n])
      invariant 0 < n <= |path|
      invariant forall i :: 0 < i < n ==> Descends(l, b, c, path[..i])
    {
      n := n + 1;
    }
    assert path[..|path|] == path;
    MergeAlongPath(l, b, c, path, n);
    if n < |path| {
      forall i | 0 < i <= n ensures path[..n][..i] == path[..i] {}
      MergeAlongPath(l, b, c, path[..n], n);
    }
  }

  // ---------- Concurrent edits ----------

  /** Two edits of one baseline do not conflict: at every key at most one of them made a change, or both
      made the same one, or the three tables there do not conflict either. */
  ghost predicate Compatible(b: Mapping, c: Mapping, d: Mapping)
    decreases Table(b)
  {
    forall k :: At(c, k) == At(b, k) || At(d, k) == At(b, k) || At(c, k) == At(d, k) ||
                (k in b && k in c && k in d && b[k].Table? && c[k].Table? && d[k].Table? &&
                 Compatible(b[k].entries, c[k].entries, d[k].entries))
  }

  predicate AllTables(b: Option<Value>, c: Option<Value>, d: Option<Value>) {
    IsTable(b) && IsTable(c) && IsTable(d)
  }

  /** At one key the edits commute if at most one changed it, or both did so alike, or the tables there commute. */
  lemma EntryCommutes(l: Option<Value>, b: Option<Value>, c: Option<Value>, d: Option<Value>)
    requires c == b || d == b || c == d || AllTables(b, c, d)
    requires AllTables(b, c, d) ==> Merge(b.value.entries, b.value.entries, c.value.entries) == c.value.entries &&
                                    Merge(b.value.entries, b.value.entries, d.value.entries) == d.value.entries
    requires AllTables(b, c, d) && c != b && d != b && c != d ==>
               SameInEitherOrder(b.value.entries, b.value.entries, c.value.entries, d.value.entries) &&
               (IsTable(l) ==> SameInEitherOrder(l.value.entries, b.value.entries, c.value.entries, d.value.entries))
    ensures MergeAt(MergeAt(l, b, c), b, d) == MergeAt(MergeAt(l, b, d), b, c)
  {
  }

  lemma {:induction false} CompatibleCommute(l: Mapping, b: Mapping, c: Mapping, d: Mapping)
    requires Compatible(b, c, d)
    ensures SameInEitherOrder(l, b, c, d)
    decreases Table(b)
  {
    var lc, ld := Merge(l, b, c), Merge(l, b, d);
    forall k ensures At(Merge(lc, b, d), k) == At(Merge(ld, b, c), k) {
      MergeLookup(l, b, c, k);
      MergeLookup(l, b, d, k);
      MergeLookup(lc, b, d, k);
      MergeLookup(ld, b, c, k);
      if AllTables(At(b, k), At(c, k), At(d, k)) {
        var b', c', d' := b[k].entries, c[k].entries, d[k].entries;
        MergeOntoBaseline(b', c');
        MergeOntoBaseline(b', d');
        if At(c, k) != At(b, k) && At(d, k) != At(b, k) && At(c, k) != At(d, k) {
          CompatibleCommute(b', b', c', d');
          if k in l && l[k].Table? {
            CompatibleCommute(l[k].entries, b', c', d');
          }
        }
      }
      EntryCommutes(At(l, k), At(b, k), At(c, k), At(d, k));
    }
    SameEntriesSameMapping(Merge(lc, b, d), Merge(ld, b, c));
  }

  lemma {:induction false} CommutingIsCompatible(b: Mapping, c: Mapping, d: Mapping)
    requires Merge(c, b, d) == Merge(d, b, c)
    ensures Compatible(b, c, d)
    decreases Table(b)
  {
    forall k | At(c, k) != At(b, k) && At(d, k) != At(b, k) && At(c, k) != At(d, k)
      ensures k in b && k in c && k in d && b[k].Table? && c[k].Table? && d[k].Table?
      ensures Compatible(b[k].entries, c[k].entries, d[k].entries)
    {
      MergeLookup(c, b, d, k);
      MergeLookup(d, b, c, k);
      CommutingIsCompatible(b[k].entries, c[k].entries, d[k].entries);
    }
  }

  ghost predicate SameInEitherOrder(l: Mapping, b: Mapping, c: Mapping, d: Mapping) {
    Merge(Merge(l, b, c), b, d) == Merge(Merge(l, b, d), b, c)
  }

  /** Two edits of one baseline give the same file in either order, whatever the latest file holds (even
      where it replaced a shared table by something else), exactly when they do not conflict. */
  lemma CommuteExactlyWhenCompatible(b: Mapping, c: Mapping, d: Mapping)
    ensures Compatible(b, c, d) <==> forall l :: SameInEitherOrder(l, b, c, d)
  {
    if Compatible(b, c, d) {
      forall l ensures SameInEitherOrder(l, b, c, d) {
        CompatibleCommute(l, b, c, d);
      }
    } else if SameInEitherOrder(b, b, c, d) {
      MergeOntoBaseline(b, c);
      MergeOntoBaseline(b, d);
      CommutingIsCompatible(b, c, d);
    }
  }

  // ---------- The locked transaction ----------

  datatype Stored = Missing | Malformed | Parsed(content: Mapping)

  datatype SaveError = LoadFailed | Rejected | WriteFailed

  /** The mapping a transaction merges onto: the file, or the baseline when there is no file yet. */
  function LatestOf(stored: Stored, baseline: Mapping): Mapping
    requires !stored.Malformed?
  {
    if stored.Missing? then baseline else stored.content
  }

  /** Where there is no file yet, what is merged is exactly what the caller edited. */
  lemma FirstSaveIsTheEdit(stored: Stored, baseline: Mapping, current: Mapping)
    requires stored.Missing?
    ensures Merge(LatestOf(stored, baseline), baseline, current) == current
  {
    MergeOntoBaseline(baseline, current);
  }

  /** One TOML file behind its lock. Everything between lock and unlock is one atomic step. */
  class TomlFile {
    var stored: Stored

    constructor (initial: Stored)
      ensures stored == initial
    {
      stored := initial;
    }

    /** `validate` accepts a mapping or raises; `writable` says whether the atomic replacement succeeds. */
    method UpdateToml(baseline: Mapping, current: Mapping, validate: Option<Mapping -> bool>, writable: bool)
      returns (r: Result<Mapping, SaveError>)
      modifies this
      ensures old(stored).Malformed? ==> r == Failure(LoadFailed)
      ensures !old(stored).Malformed? ==>
                var merged := Merge(LatestOf(old(stored), baseline), baseline, current);
                r == if validate.Some? && !validate.value(merged) then Failure(Rejected)
                     else if !writable then Failure(WriteFailed)
                     else Success(merged)
      ensures stored == if r.Success? then Parsed(r.value) else old(stored)
      ensures old(stored).Missing? && r.Success? ==> r.value == current
    {
      MergeOntoBaseline(baseline, current);
      if stored.Malformed? {
        return Failure(LoadFailed);
      }
      var latest := if stored.Missing? then baseline else stored.content;
      var merged := MergeMappingChanges(latest, baseline, current);
      if validate.Some? && !validate.value(merged) {
        return Failure(Rejected);
      }
      if !writable {
        return Failure(WriteFailed);
      }
      stored := Parsed(merged);
      return Success(merged);
    }
  }

  // ---------- Any number of writers, in any order ----------

  /** The file after each writer in turn saved its edit of the common baseline. */
  function SaveAll(latest: Mapping, b: Mapping, edits: seq<Mapping>): Mapping
    decreases |edits|
  {
    if edits == [] then latest else SaveAll(Merge(latest, b, edits[0]), b, edits[1..])
  }

  ghost predicate NonConflicting(b: Mapping, edits: seq<Mapping>) {
    forall c, d :: c in edits && d in edits ==> Compatible(b, c, d)
  }

  lemma {:induction false} SaveAllAppend(latest: Mapping, b: Mapping, xs: seq<Mapping>, ys: seq<Mapping>)
    ensures SaveAll(latest, b, xs + ys) == SaveAll(SaveAll(latest, b, xs), b, ys)
    decreases |xs|
  {
    if xs == [] {
      assert xs + ys == ys;
    } else {
      assert (xs + ys)[1..] == xs[1..] + ys;
      SaveAllAppend(Merge(latest, b, xs[0]), b, xs[1..], ys);
    }
  }

  /** A writer may be moved in front of any writers it does not conflict with. */
  lemma {:induction false} WriterMovesForward(latest: Mapping, b: Mapping, xs: seq<Mapping>, c: Mapping)
    requires forall x :: x in xs ==> Compatible(b, x, c)
    ensures SaveAll(latest, b, xs + [c]) == SaveAll(latest, b, [c] + xs)
    decreases |xs|
  {
    if xs == [] {
      assert xs + [c] == [c] + xs;
    } else {
      var x, rest := xs[0], xs[1..];
      assert (xs + [c])[1..] == rest + [c];
      WriterMovesForward(Merge(latest, b, x), b, rest, c);
      assert ([c] + rest)[1..] == rest;
      CompatibleCommute(latest, b, x, c);
      assert ([c] + xs)[1..] == xs;
    }
  }

  lemma {:induction false} ExtractWriter(latest: Mapping, b: Mapping, edits: seq<Mapping>, i: nat)
    requires i < |edits| && NonConflicting(b, edits)
    ensures SaveAll(latest, b, edits) == SaveAll(latest, b, [edits[i]] + (edits[..i] + edits[i + 1..]))
    ensures multiset(edits) == multiset([edits[i]]) + multiset(edits[..i] + edits[i + 1..])
  {
    var xs, c, ys := edits[..i], edits[i], edits[i + 1..];
    assert edits == (xs + [c]) + ys;
    SaveAllAppend(latest, b, xs + [c], ys);
    WriterMovesForward(latest, b, xs, c);
    SaveAllAppend(latest, b, [c] + xs, ys);
    assert ([c] + xs) + ys == [c] + (xs + ys);
  }

  /** However the lock orders the writers of pairwise non-conflicting edits, the file ends the same. */
  lemma {:induction false} AnyOrderSameFile(latest: Mapping, b: Mapping, edits: seq<Mapping>, other: seq<Mapping>)
    requires NonConflicting(b, edits) && multiset(edits) == multiset(other)
    ensures SaveAll(latest, b, edits) == SaveAll(latest, b, other)
    decreases |edits|
  {
    if edits == [] {
      assert |multiset(other)| == 0;
      assert other == [];
    } else {
      var c := edits[0];
      assert c in multiset(edits);
      assert c in other;
      var i :| 0 <= i < |other| && other[i] == c;
      forall d | d in other ensures d in edits { assert d in multiset(other); }
      ExtractWriter(latest, b, other, i);
      var rest := other[..i] + other[i + 1..];
      assert edits == [c] + edits[1..];
      assert multiset(edits[1..]) == multiset(edits) - multiset([c]);
      assert multiset(rest) == multiset(other) - multiset([c]);
      AnyOrderSameFile(Merge(latest, b, c), b, edits[1..], rest);
      assert ([c] + rest)[1..] == rest;
    }
  }

  /** No writer's edit is lost: saving any of them again would not change the final file. */
  lemma {:induction false} EveryEditKept(latest: Mapping, b: Mapping, edits: seq<Mapping>, i: nat)
    requires i < |edits| && NonConflicting(b, edits)
    ensures Merge(SaveAll(latest, b, edits), b, edits[i]) == SaveAll(latest, b, edits)
  {
    var c, rest := edits[i], edits[..i] + edits[i + 1..];
    ExtractWriter(latest, b, edits, i);
    assert multiset(rest + [c]) == multiset(edits);
    AnyOrderSameFile(latest, b, edits, rest + [c]);
    SaveAllAppend(latest, b, rest, [c]);
    var m := SaveAll(latest, b, rest);
    assert SaveAll(m, b, [c]) == Merge(m, b, c);
    MergeIdempotent(m, b, c);
  }

  lemma SameBelow(m: Mapping, n: Mapping, path: seq<string>, k: nat)
    requires 0 < k <= |path| && Lookup(m, path[..k]) == Lookup(n, path[..k])
    ensures Lookup(m, path) == Lookup(n, path)
    decreases k
  {
    assert path[..1] == [path[0]];
    if k > 1 {
      assert path[..k][1..] == path[1..][..k - 1];
      if path[0] in m && m[path[0]].Table? && path[0] in n && n[path[0]].Table? {
        SameBelow(m[path[0]].entries, n[path[0]].entries, path[1..], k - 1);
      } else {
        NothingBelow(m, path, k);
        NothingBelow(n, path, k);
      }
    } else if |path| == 1 {
      assert path[..1] == path;
    }
  }

  lemma {:induction false} NothingBelow(m: Mapping, path: seq<string>, k: nat)
    requires 0 < k <= |path| && Lookup(m, path[..k]).None?
    ensures Lookup(m, path).None?
    decreases k
  {
    assert path[..1] == [path[0]];
    if k > 1 && path[0] in m && m[path[0]].Table? {
      assert path[..k][1..] == path[1..][..k - 1];
      NothingBelow(m[path[0]].entries, path[1..], k - 1);
    }
  }

  /** So wherever a writer put a value that is no table, or removed one, the final file has what that writer wrote. */
  lemma EveryEditKeptAtPath(latest: Mapping, b: Mapping, edits: seq<Mapping>, i: nat, path: seq<string>)
    requires i < |edits| && NonConflicting(b, edits) && path != []
    requires Lookup(b, path) != Lookup(edits[i], path) && !IsTable(Lookup(edits[i], path))
    ensures Lookup(SaveAll(latest, b, edits), path) == Lookup(edits[i], path)
  {
    var final, c := SaveAll(latest, b, edits), edits[i];
    EveryEditKept(latest, b, edits, i);
    assert path[..|path|] == path;
    var n := 1;
    while n < |path| && Descends(final, b, c, path[..n])
      invariant 0 < n <= |path|
      invariant forall j :: 0 < j < n ==> Descends(final, b, c, path[..j])
    {
      n := n + 1;
    }
    MergeAlongPath(final, b, c, path, n);
    if Lookup(b, path[..n]) == Lookup(c, path[..n]) {
      SameBelow(b, c, path, n);
    }
  }
}
