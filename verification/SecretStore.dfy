/** Secrets split over several keyring entries
    (cli/shared/secret_store_service.py). */
module SecretStore {
  import opened Wrappers
  import opened Text

  const MAX_ENTRY_CHARS := 1000
  const MAX_CHUNKS := 64
  const MAX_CLEAR_CHUNKS := 8
  const CHUNK_HEADER := "rdst-chunked:"

  type Entries = map<string, string>

  /** What a keyring read gives: nothing stored, no answer, or a text. */
  datatype Reading = Absent | Unanswered | Stored(text: string)

  function ChunkCount(head: Reading): (count: nat)
    ensures count <= MAX_CHUNKS
  {
    if !head.Stored? || !(CHUNK_HEADER <= head.text) then 0
    else match ParseInt(head.text[|CHUNK_HEADER|..])
      case None => 0
      case Some(count) => if 0 < count <= MAX_CHUNKS then count else 0
  }

  function ChunkName(name: string, index: nat): string {
    name + "#" + Decimal(index)
  }

  function Header(parts: nat): string {
    CHUNK_HEADER + Decimal(parts)
  }

  lemma HeaderDecodes(parts: nat)
    requires 0 < parts <= MAX_CHUNKS
    ensures ChunkCount(Stored(Header(parts))) == parts
  {
    assert Header(parts)[|CHUNK_HEADER|..] == Decimal(parts);
    ParseDecimal(parts);
  }

  /** A stored text counts chunks exactly when a number from 1 to 64 follows the header. */
  lemma CountsChunksExactlyWhen(head: Reading, n: nat)
    requires n > 0
    ensures ChunkCount(head) == n <==>
      head.Stored? && n <= 64 && exists rest :: head.text == "rdst-chunked:" + rest && ParseInt(rest) == Some(n)
  {
    if head.Stored? && CHUNK_HEADER <= head.text {
      var rest := head.text[|CHUNK_HEADER|..];
      assert head.text == CHUNK_HEADER + rest;
      forall other | head.text == CHUNK_HEADER + other ensures other == rest {
        assert other == head.text[|CHUNK_HEADER|..];
      }
    }
  }

  lemma ChunkNamesDistinct(name: string, i: nat, j: nat)
    ensures ChunkName(name, i) != name
    ensures ChunkName(name, i) == ChunkName(name, j) ==> i == j
  {
    assert |ChunkName(name, i)| > |name|;
    if ChunkName(name, i) == ChunkName(name, j) {
      assert ChunkName(name, i)[|name| + 1..] == Decimal(i);
      assert ChunkName(name, j)[|name| + 1..] == Decimal(j);
      DecimalInjective(i, j);
    }
  }

  // ---------- Keyring calls ----------

  /** One keyring call answers, or times out or raises, having taken effect or not. */
  datatype Outcome = Answered | Lost(applied: bool)

  /** A sequence of calls goes on, has given up after a failed write, or the process died between two calls. */
  datatype Control = Going | GaveUp | Died

  /** The keyring, the outcomes of the calls still to come, and where the caller stands. The process dies
      when the outcomes run out, so a short list stops the work after any prefix of its calls. */
  datatype Run = Run(entries: Entries, pending: seq<Outcome>, control: Control)

  function Find(entries: Entries, entry: string): Reading {
    if entry in entries then Stored(entries[entry]) else Absent
  }

  function GetCall(r: Run, entry: string): (Run, Reading) {
    if !r.control.Going? then (r, Unanswered)
    else if r.pending == [] then (r.(control := Died), Unanswered)
    else (r.(pending := r.pending[1..]), if r.pending[0].Answered? then Find(r.entries, entry) else Unanswered)
  }

  function SetCall(r: Run, entry: string, value: string): Run {
    if !r.control.Going? then r
    else if r.pending == [] then r.(control := Died)
    else match r.pending[0]
      case Answered => Run(r.entries[entry := value], r.pending[1..], Going)
      case Lost(applied) => Run(if applied then r.entries[entry := value] else r.entries, r.pending[1..], GaveUp)
  }

  /** Deleting what is not there raises, which changes nothing; failures to delete are ignored. */
  function DeleteCall(r: Run, entry: string): Run {
    if !r.control.Going? then r
    else if r.pending == [] then r.(control := Died)
    else
      var applied := r.pending[0].Answered? || r.pending[0].applied;
      Run(if applied then r.entries - {entry} else r.entries, r.pending[1..], Going)
  }

  function DeleteChunks(r: Run, name: string, first: nat, last: nat): Run
    decreases last + 1 - first
  {
    if first > last then r else DeleteChunks(DeleteCall(r, ChunkName(name, first)), name, first + 1, last)
  }

  function SetChunks(r: Run, name: string, parts: seq<string>, index: nat): Run
    requires index <= |parts|
    decreases |parts| - index
  {
    if index == |parts| then r
    else SetChunks(SetCall(r, ChunkName(name, index + 1), parts[index]), name, parts, index + 1)
  }

  /** Consecutive pieces of at most MAX_ENTRY_CHARS characters. */
  function Split(value: string): seq<string>
    decreases |value|
  {
    if value == "" then []
    else if |value| <= MAX_ENTRY_CHARS then [value]
    else [value[..MAX_ENTRY_CHARS]] + Split(value[MAX_ENTRY_CHARS..])
  }

  function Join(parts: seq<string>): string
    decreases |parts|
  {
    if parts == [] then "" else parts[0] + Join(parts[1..])
  }

  /** _write: the value was stored iff the run is still going. */
  function Write(r: Run, name: string, value: string): Run {
    var (r1, head) := GetCall(r, name);
    var previous := ChunkCount(head);
    if |value| <= MAX_ENTRY_CHARS then
      DeleteChunks(SetCall(r1, name, value), name, 1, previous)
    else
      var parts := Split(value);
      if |parts| > MAX_CHUNKS then (if r1.control.Going? then r1.(control := GaveUp) else r1)
      else
        var r2 := SetCall(SetChunks(r1, name, parts, 0), name, Header(|parts|));
        DeleteChunks(r2, name, |parts| + 1, previous)
  }

  /** get_secret on a keyring that answers. */
  function Read(entries: Entries, name: string): Option<string> {
    if name !in entries then None
    else
      var count := ChunkCount(Stored(entries[name]));
      if count == 0 then Some(entries[name])
      else if forall i :: 1 <= i <= count ==> ChunkName(name, i) in entries then
        Some(ReadChunks(entries, name, 1, count))
      else None
  }

  function ReadChunks(entries: Entries, name: string, first: nat, last: nat): string
    requires forall i :: first <= i <= last ==> ChunkName(name, i) in entries
    decreases last + 1 - first
  {
    if first > last then "" else entries[ChunkName(name, first)] + ReadChunks(entries, name, first + 1, last)
  }

  // ---------- Splitting ----------

  lemma {:induction false} SplitJoins(value: string)
    ensures Join(Split(value)) == value
    decreases |value|
  {
    if |value| > MAX_ENTRY_CHARS {
      var rest := value[MAX_ENTRY_CHARS..];
      SplitJoins(rest);
      assert Split(value)[1..] == Split(rest);
      assert value == value[..MAX_ENTRY_CHARS] + rest;
    } else if value != "" {
      assert Split(value)[1..] == [];
      assert Join([value]) == value + Join([]);
    }
  }

  lemma {:induction false} SplitCount(value: string)
    ensures |Split(value)| == (|value| + MAX_ENTRY_CHARS - 1) / MAX_ENTRY_CHARS
    decreases |value|
  {
    if |value| > MAX_ENTRY_CHARS {
      SplitCount(value[MAX_ENTRY_CHARS..]);
    }
  }

  // ---------- What a write leaves ----------

  ghost predicate NotAChunk(name: string, entry: string) {
    forall i: nat :: entry != ChunkName(name, i)
  }

  /** Entries of other secrets, and the head itself, are not chunk entries of `name`. */
  ghost predicate OnlyChunksChanged(before: Entries, after: Entries, name: string) {
    forall e :: NotAChunk(name, e) ==> Find(after, e) == Find(before, e)
  }

  lemma OtherEntryKept(before: Entries, after: Entries, name: string, entry: string)
    requires OnlyChunksChanged(before, after, name) && NotAChunk(name, entry)
    ensures Find(after, entry) == Find(before, entry)
  {
  }

  lemma {:induction false} DeleteChunksFrame(r: Run, name: string, first: nat, last: nat)
    ensures OnlyChunksChanged(r.entries, DeleteChunks(r, name, first, last).entries, name)
    ensures forall i: nat :: !(first <= i <= last) ==>
              Find(DeleteChunks(r, name, first, last).entries, ChunkName(name, i)) ==
              Find(r.entries, ChunkName(name, i))
    ensures DeleteChunks(r, name, first, last).control.Going? ==> r.control.Going?
    decreases last + 1 - first
  {
    if first <= last {
      DeleteChunksFrame(DeleteCall(r, ChunkName(name, first)), name, first + 1, last);
      forall i: nat | i != first ensures ChunkName(name, i) != ChunkName(name, first) {
        ChunkNamesDistinct(name, i, first);
      }
    }
  }

  lemma {:induction false} SetChunksEffect(r: Run, name: string, parts: seq<string>, index: nat)
    requires index <= |parts|
    ensures OnlyChunksChanged(r.entries, SetChunks(r, name, parts, index).entries, name)
    ensures forall i: nat :: i <= index ==>
              Find(SetChunks(r, name, parts, index).entries, ChunkName(name, i)) == Find(r.entries, ChunkName(name, i))
    ensures SetChunks(r, name, parts, index).control.Going? ==>
              r.control.Going? &&
              forall i :: index < i <= |parts| ==>
                Find(SetChunks(r, name, parts, index).entries, ChunkName(name, i)) == Stored(parts[i - 1])
    decreases |parts| - index
  {
    if index < |parts| {
      SetChunksEffect(SetCall(r, ChunkName(name, index + 1), parts[index]), name, parts, index + 1);
      forall i: nat | i <= index ensures ChunkName(name, i) != ChunkName(name, index + 1) {
        ChunkNamesDistinct(name, i, index + 1);
      }
    }
  }

  lemma {:induction false} ReadChunksJoins(entries: Entries, name: string, parts: seq<string>, first: nat)
    requires 1 <= first <= |parts| + 1
    requires forall i :: first <= i <= |parts| ==> Find(entries, ChunkName(name, i)) == Stored(parts[i - 1])
    ensures forall i :: first <= i <= |parts| ==> ChunkName(name, i) in entries
    ensures ReadChunks(entries, name, first, |parts|) == Join(parts[first - 1..])
    decreases |parts| + 1 - first
  {
    forall i | first <= i <= |parts| ensures ChunkName(name, i) in entries {
      assert Find(entries, ChunkName(name, i)) == Stored(parts[i - 1]);
    }
    if first <= |parts| {
      ReadChunksJoins(entries, name, parts, first + 1);
      assert parts[first - 1..][1..] == parts[first..];
      assert Find(entries, ChunkName(name, first)) == Stored(parts[first - 1]);
    }
  }

  /** A complete set of chunks under a matching head reads as their concatenation. */
  lemma ReadsParts(entries: Entries, name: string, parts: seq<string>)
    requires 0 < |parts| <= MAX_CHUNKS && Find(entries, name) == Stored(Header(|parts|))
    requires forall i :: 1 <= i <= |parts| ==> Find(entries, ChunkName(name, i)) == Stored(parts[i - 1])
    ensures Read(entries, name) == Some(Join(parts))
  {
    HeaderDecodes(|parts|);
    ReadChunksJoins(entries, name, parts, 1);
    assert parts[0..] == parts;
  }

  /** The value reads back as itself from its own entries: a short one whose text is not a chunk header, or a
      long one. */
  predicate Storable(value: string) {
    |value| > MAX_ENTRY_CHARS || ChunkCount(Stored(value)) == 0
  }

  lemma HeadNotChunk(name: string)
    ensures NotAChunk(name, name)
  {
    forall i: nat ensures name != ChunkName(name, i) {
      ChunkNamesDistinct(name, i, i);
    }
  }

  lemma ShortWriteHead(r: Run, name: string, value: string, previous: nat)
    ensures var r' := DeleteChunks(SetCall(r, name, value), name, 1, previous);
            Find(r'.entries, name) == Find(SetCall(r, name, value).entries, name) &&
            (r'.control.Going? ==> r.control.Going? && Find(r'.entries, name) == Stored(value))
  {
    DeleteChunksFrame(SetCall(r, name, value), name, 1, previous);
    HeadNotChunk(name);
  }

  /** Everything a long write leaves behind when its header was written. */
  lemma LongWriteEffect(r: Run, name: string, parts: seq<string>, previous: nat)
    requires 0 < |parts| <= MAX_CHUNKS
    ensures var chunks := SetChunks(r, name, parts, 0);
            var r' := DeleteChunks(SetCall(chunks, name, Header(|parts|)), name, |parts| + 1, previous);
            Find(chunks.entries, name) == Find(r.entries, name) &&
            (Find(r'.entries, name) == Find(r.entries, name) || Read(r'.entries, name) == Some(Join(parts))) &&
            (r'.control.Going? ==> Read(r'.entries, name) == Some(Join(parts)))
  {
    var chunks := SetChunks(r, name, parts, 0);
    var headed := SetCall(chunks, name, Header(|parts|));
    var r' := DeleteChunks(headed, name, |parts| + 1, previous);
    SetChunksEffect(r, name, parts, 0);
    DeleteChunksFrame(headed, name, |parts| + 1, previous);
    HeadNotChunk(name);
    if chunks.control.Going? && chunks.pending != [] && (chunks.pending[0].Answered? || chunks.pending[0].applied) {
      assert Find(headed.entries, name) == Stored(Header(|parts|));
      forall i | 1 <= i <= |parts| ensures Find(r'.entries, ChunkName(name, i)) == Stored(parts[i - 1]) {
        assert Find(chunks.entries, ChunkName(name, i)) == Stored(parts[i - 1]);
      }
      ReadsParts(r'.entries, name, parts);
    } else {
      StoppedDeletesNothing(headed, name, |parts| + 1, previous);
    }
  }

  // ---------- Round trip ----------

  /** A write that reports success is read back verbatim. */
  lemma SuccessfulWriteReadsBack(r: Run, name: string, value: string)
    requires Storable(value) && Write(r, name, value).control.Going?
    ensures Read(Write(r, name, value).entries, name) == Some(value)
  {
    var (r1, head) := GetCall(r, name);
    if |value| <= MAX_ENTRY_CHARS {
      ShortWriteHead(r1, name, value, ChunkCount(head));
    } else {
      SplitCount(value);
      SplitJoins(value);
      LongWriteEffect(r1, name, Split(value), ChunkCount(head));
    }
  }

  ghost predicate AlwaysReadsBack(value: string) {
    forall r: Run, name ::
      Write(r, name, value).control.Going? ==> Read(Write(r, name, value).entries, name) == Some(value)
  }

  /** Writes of a value always read back exactly when its short form does not itself decode as a header. */
  lemma ReadsBackExactlyWhenStorable(value: string)
    ensures AlwaysReadsBack(value) <==> Storable(value)
  {
    if Storable(value) {
      forall r: Run, name | Write(r, name, value).control.Going?
        ensures Read(Write(r, name, value).entries, name) == Some(value)
      {
        SuccessfulWriteReadsBack(r, name, value);
      }
    } else {
      var r, name := Run(map[], [Answered, Answered], Going), "";
      var written := Write(r, name, value);
      assert written.entries == map[name := value] && written.control.Going?;
      ChunkNamesDistinct(name, 1, 1);
      assert ChunkName(name, 1) !in written.entries;
      assert Read(written.entries, name) == None;
    }
  }

  /** Values up to MAX_CHUNKS full entries are accepted, longer ones refused without touching the keyring. */
  lemma LengthLimit(r: Run, name: string, value: string)
    requires r.control.Going? && r.pending != []
    ensures |value| > MAX_CHUNKS * MAX_ENTRY_CHARS ==>
              Write(r, name, value) == Run(r.entries, r.pending[1..], GaveUp)
    ensures |value| <= MAX_CHUNKS * MAX_ENTRY_CHARS && (forall o :: o in r.pending ==> o.Answered?) &&
            |r.pending| >= 3 * MAX_CHUNKS ==>
              Write(r, name, value).control.Going?
  {
    SplitCount(value);
    var (r1, head) := GetCall(r, name);
    if |value| <= MAX_CHUNKS * MAX_ENTRY_CHARS && (forall o :: o in r.pending ==> o.Answered?) &&
       |r.pending| >= 3 * MAX_CHUNKS {
      assert AllAnswered(r1, 3 * MAX_CHUNKS - 1);
      if |value| <= MAX_ENTRY_CHARS {
        DeletesAnswered(SetCall(r1, name, value), name, 1, ChunkCount(head), 3 * MAX_CHUNKS - 2);
      } else {
        var parts := Split(value);
        SetsAnswered(r1, name, parts, 0, 3 * MAX_CHUNKS - 1);
        var r2 := SetCall(SetChunks(r1, name, parts, 0), name, Header(|parts|));
        DeletesAnswered(r2, name, |parts| + 1, ChunkCount(head), 3 * MAX_CHUNKS - 2 - |parts|);
      }
    }
  }

  ghost predicate AllAnswered(r: Run, calls: int) {
    r.control.Going? && |r.pending| >= calls && forall o :: o in r.pending ==> o.Answered?
  }

  lemma {:induction false} DeletesAnswered(r: Run, name: string, first: nat, last: nat, calls: int)
    requires AllAnswered(r, calls) && calls >= last + 1 - first
    ensures DeleteChunks(r, name, first, last).control.Going?
    decreases last + 1 - first
  {
    if first <= last {
      DeletesAnswered(DeleteCall(r, ChunkName(name, first)), name, first + 1, last, calls - 1);
    }
  }

  lemma {:induction false} SetsAnswered(r: Run, name: string, parts: seq<string>, index: nat, calls: int)
    requires index <= |parts| && AllAnswered(r, calls) && calls >= |parts| - index
    ensures AllAnswered(SetChunks(r, name, parts, index), calls - (|parts| - index))
    decreases |parts| - index
  {
    if index < |parts| {
      SetsAnswered(SetCall(r, ChunkName(name, index + 1), parts[index]), name, parts, index + 1, calls - 1);
    }
  }

  /** How many chunk entries a value takes. */
  function PartCount(value: string): nat {
    if |value| <= MAX_ENTRY_CHARS then 0 else |Split(value)|
  }

  lemma {:induction false} SetsStored(r: Run, name: string, parts: seq<string>, index: nat, calls: int)
    requires index <= |parts| && AllAnswered(r, calls) && calls >= |parts| - index
    ensures forall i: nat :: index < i <= |parts| ==>
      ChunkName(name, i) in SetChunks(r, name, parts, index).entries
    ensures forall i: nat :: !(index < i <= |parts|) ==>
      (ChunkName(name, i) in SetChunks(r, name, parts, index).entries <==> ChunkName(name, i) in r.entries)
    ensures Find(SetChunks(r, name, parts, index).entries, name) == Find(r.entries, name)
    decreases |parts| - index
  {
    if index < |parts| {
      var next := SetCall(r, ChunkName(name, index + 1), parts[index]);
      ChunkNamesDistinct(name, index + 1, index + 1);
      forall i: nat | i != index + 1 ensures ChunkName(name, i) != ChunkName(name, index + 1) {
        ChunkNamesDistinct(name, i, index + 1);
      }
      SetsStored(next, name, parts, index + 1, calls - 1);
    }
  }

  lemma DeletesExactly(r: Run, name: string, first: nat, last: nat, i: nat)
    requires AllAnswered(r, last + 1 - first)
    ensures ChunkName(name, i) in DeleteChunks(r, name, first, last).entries <==>
      ChunkName(name, i) in r.entries && !(first <= i <= last)
  {
    ChunksDeleted(r, name, first, last, last + 1 - first);
    DeleteChunksFrame(r, name, first, last);
    if !(first <= i <= last) {
      assert Find(DeleteChunks(r, name, first, last).entries, ChunkName(name, i)) ==
        Find(r.entries, ChunkName(name, i));
    }
  }

  /** With a keyring that answers, a write leaves exactly the chunk entries of the new value and those beyond the count
      of the old head: what the old value had more is deleted. */
  lemma WrittenExactly(r: Run, name: string, value: string, i: nat)
    requires AllAnswered(r, 3 * MAX_CHUNKS) && |value| <= MAX_CHUNKS * MAX_ENTRY_CHARS && i > 0
    ensures ChunkName(name, i) in Write(r, name, value).entries <==>
      i <= PartCount(value) || (ChunkName(name, i) in r.entries && i > ChunkCount(Find(r.entries, name)))
  {
    var (r1, head) := GetCall(r, name);
    assert r.pending[0] in r.pending;
    SplitCount(value);
    ChunkNamesDistinct(name, i, i);
    var n := 3 * MAX_CHUNKS - 1;
    assert AllAnswered(r1, n);
    if |value| <= MAX_ENTRY_CHARS {
      DeletesExactly(SetCall(r1, name, value), name, 1, ChunkCount(head), i);
    } else {
      LongWrittenExactly(r1, name, Split(value), ChunkCount(head), i, n);
    }
  }

  lemma LongWrittenExactly(r: Run, name: string, parts: seq<string>, previous: nat, i: nat, calls: int)
    requires |parts| <= MAX_CHUNKS && previous <= MAX_CHUNKS && i > 0 && calls > 2 * MAX_CHUNKS
    requires AllAnswered(r, calls)
    ensures var headed := SetCall(SetChunks(r, name, parts, 0), name, Header(|parts|));
            ChunkName(name, i) in DeleteChunks(headed, name, |parts| + 1, previous).entries <==>
            i <= |parts| || (ChunkName(name, i) in r.entries && i > previous)
  {
    var chunks := SetChunks(r, name, parts, 0);
    var headed := SetCall(chunks, name, Header(|parts|));
    SetsStored(r, name, parts, 0, calls);
    SetsAnswered(r, name, parts, 0, calls);
    ChunkNamesDistinct(name, i, i);
    assert headed.entries == chunks.entries[name := Header(|parts|)];
    DeletesExactly(headed, name, |parts| + 1, previous, i);
  }

  // ---------- Atomicity ----------

  lemma SameHeadUnchunked(before: Entries, after: Entries, name: string)
    requires Find(after, name) == Find(before, name) && ChunkCount(Find(before, name)) == 0
    ensures Read(after, name) == Read(before, name)
  {
  }

  /** When the old or the new value fits one entry, a write stopped after any prefix of its calls, each of
      which may fail having taken effect or not, leaves the whole old or the whole new value. */
  lemma WriteAtomic(r: Run, name: string, value: string)
    requires r.control.Going? && Storable(value)
    requires ChunkCount(Find(r.entries, name)) == 0 || |value| <= MAX_ENTRY_CHARS
    ensures Read(Write(r, name, value).entries, name) in {Read(r.entries, name), Some(value)}
  {
    var (r1, head) := GetCall(r, name);
    var after := Write(r, name, value);
    if |value| <= MAX_ENTRY_CHARS {
      ShortWriteHead(r1, name, value, ChunkCount(head));
      if r1.control.Going? && r1.pending != [] && (r1.pending[0].Answered? || r1.pending[0].applied) {
        assert Find(after.entries, name) == Stored(value);
      } else {
        assert after.entries == r.entries by {
          StoppedDeletesNothing(SetCall(r1, name, value), name, 1, ChunkCount(head));
        }
      }
    } else {
      SplitCount(value);
      SplitJoins(value);
      if |Split(value)| <= MAX_CHUNKS {
        LongWriteEffect(r1, name, Split(value), ChunkCount(head));
        if Find(after.entries, name) == Find(r.entries, name) {
          SameHeadUnchunked(r.entries, after.entries, name);
        }
      }
    }
  }

  lemma {:induction false} StoppedDeletesNothing(r: Run, name: string, first: nat, last: nat)
    requires !r.control.Going?
    ensures DeleteChunks(r, name, first, last) == r
    decreases last + 1 - first
  {
    if first <= last {
      StoppedDeletesNothing(r, name, first + 1, last);
    }
  }

  // ---------- One chunked value over another ----------

  predicate Whole(chunks: seq<Reading>) {
    forall i :: 0 <= i < |chunks| ==> chunks[i].Stored?
  }

  function Texts(chunks: seq<Reading>): (texts: seq<string>)
    requires Whole(chunks)
    ensures |texts| == |chunks|
  {
    seq(|chunks|, i requires 0 <= i < |chunks| => chunks[i].text)
  }

  /** What reading the chunks gives: nothing when one is missing. */
  function Joined(chunks: seq<Reading>): Option<string> {
    if Whole(chunks) then Some(Join(Texts(chunks))) else None
  }

  /** What the keyring holds under the chunk names 1 to `count`. */
  function Chunks(entries: Entries, name: string, count: nat): (chunks: seq<Reading>)
    ensures |chunks| == count
  {
    seq(count, i requires 0 <= i < count => Find(entries, ChunkName(name, i + 1)))
  }

  /** The first `j` new parts, over the chunks that were there. */
  function Over(chunks: seq<Reading>, parts: seq<string>, j: nat): (mixed: seq<Reading>)
    requires j <= |parts|
    ensures |mixed| == |chunks|
  {
    seq(|chunks|, i requires 0 <= i < |chunks| => if i < j then Stored(parts[i]) else chunks[i])
  }

  lemma ReadsChunks(entries: Entries, name: string, count: nat)
    requires ChunkCount(Find(entries, name)) == count > 0
    ensures Read(entries, name) == Joined(Chunks(entries, name, count))
  {
    var chunks := Chunks(entries, name, count);
    if Whole(chunks) {
      WholeReads(entries, name, count, Texts(chunks));
    } else {
      var i :| 0 <= i < count && !chunks[i].Stored?;
      assert ChunkName(name, i + 1) !in entries;
    }
  }

  lemma WholeReads(entries: Entries, name: string, count: nat, texts: seq<string>)
    requires ChunkCount(Find(entries, name)) == count > 0
    requires Whole(Chunks(entries, name, count)) && texts == Texts(Chunks(entries, name, count))
    ensures Read(entries, name) == Some(Join(texts))
  {
    forall i | 1 <= i <= count ensures Find(entries, ChunkName(name, i)) == Stored(texts[i - 1]) {
      assert Chunks(entries, name, count)[i - 1].Stored?;
    }
    ReadChunksJoins(entries, name, texts, 1);
    assert texts[0..] == texts;
  }

  /** The head as before, and the first `j` new chunks over those of before. */
  ghost predicate HoldsMixed(before: Entries, after: Entries, name: string, parts: seq<string>, j: nat)
    requires j <= |parts|
  {
    Find(after, name) == Find(before, name) &&
    forall i: nat :: i > 0 ==>
      Find(after, ChunkName(name, i)) == if i <= j then Stored(parts[i - 1]) else Find(before, ChunkName(name, i))
  }

  lemma MixedReads(before: Entries, after: Entries, name: string, parts: seq<string>, j: nat, count: nat)
    requires j <= |parts| && HoldsMixed(before, after, name, parts, j) && ChunkCount(Find(before, name)) == count > 0
    ensures Read(after, name) == Joined(Over(Chunks(before, name, count), parts, j))
  {
    ReadsChunks(after, name, count);
    assert Chunks(after, name, count) == Over(Chunks(before, name, count), parts, j);
  }

  lemma MixedNext(before: Entries, entries: Entries, name: string, parts: seq<string>, j: nat)
    requires j < |parts| && HoldsMixed(before, entries, name, parts, j)
    ensures HoldsMixed(before, entries[ChunkName(name, j + 1) := parts[j]], name, parts, j + 1)
  {
    ChunkNamesDistinct(name, j + 1, j + 1);
    forall i: nat | i != j + 1 ensures ChunkName(name, i) != ChunkName(name, j + 1) {
      ChunkNamesDistinct(name, i, j + 1);
    }
  }

  /** Writing the chunks, stopped anywhere, leaves some number of new chunks; all of them when it was not stopped. */
  lemma {:induction false} ChunksStopMixed(before: Entries, r: Run, name: string, parts: seq<string>, index: nat)
    returns (j: nat)
    requires index <= |parts| && HoldsMixed(before, r.entries, name, parts, index)
    ensures j <= |parts| && HoldsMixed(before, SetChunks(r, name, parts, index).entries, name, parts, j)
    ensures SetChunks(r, name, parts, index).control.Going? ==> j == |parts|
    decreases |parts| - index
  {
    j := index;
    if index < |parts| {
      var next := SetCall(r, ChunkName(name, index + 1), parts[index]);
      MixedNext(before, r.entries, name, parts, index);
      if next.control.Going? {
        j := ChunksStopMixed(before, next, name, parts, index + 1);
      } else {
        StoppedSetsNothing(next, name, parts, index + 1);
        if next.entries != r.entries {
          j := index + 1;
        }
      }
    }
  }

  /** Answered calls up to a stop after the j-th chunk. */
  function Calls(n: nat): seq<Outcome> {
    seq(n, _ => Answered)
  }

  lemma {:induction false} ChunksReachMixed(before: Entries, entries: Entries, name: string, parts: seq<string>,
                                            index: nat, j: nat)
    requires index <= j <= |parts| && HoldsMixed(before, entries, name, parts, index)
    ensures var r := SetChunks(Run(entries, Calls(j - index), Going), name, parts, index);
            HoldsMixed(before, r.entries, name, parts, j) && (j < |parts| ==> r.control.Died?) &&
            (j == |parts| ==> r.control.Going? && r.pending == [])
    decreases |parts| - index
  {
    var r := Run(entries, Calls(j - index), Going);
    if index < |parts| {
      var next := SetCall(r, ChunkName(name, index + 1), parts[index]);
      if index == j {
        assert r.pending == [];
        StoppedSetsNothing(next, name, parts, index + 1);
      } else {
        MixedNext(before, entries, name, parts, index);
        assert r.pending[1..] == Calls(j - (index + 1));
        ChunksReachMixed(before, next.entries, name, parts, index + 1, j);
      }
    }
  }

  /** The same over texts none of which is missing. */
  function Mixed(stored: seq<string>, parts: seq<string>, j: nat): (mixed: seq<string>)
    requires j <= |parts|
    ensures |mixed| == |stored|
  {
    if j <= |stored| then parts[..j] + stored[j..] else parts[..|stored|]
  }

  /** Parts as a long value has them: all full but the last, which is not empty. */
  predicate Pieces(parts: seq<string>) {
    (forall i :: 0 <= i < |parts| - 1 ==> |parts[i]| == MAX_ENTRY_CHARS) &&
    (parts != [] ==> 0 < |parts[|parts| - 1]| <= MAX_ENTRY_CHARS)
  }

  lemma {:induction false} SplitPieces(value: string)
    ensures Pieces(Split(value))
    decreases |value|
  {
    if |value| > MAX_ENTRY_CHARS {
      SplitPieces(value[MAX_ENTRY_CHARS..]);
    }
  }

  lemma PiecesTail(parts: seq<string>)
    requires Pieces(parts) && parts != []
    ensures Pieces(parts[1..])
  {
  }

  /** Parts of that shape are determined by the text they join to. */
  lemma {:induction false} JoinInjective(p: seq<string>, q: seq<string>)
    requires Pieces(p) && Pieces(q) && Join(p) == Join(q)
    ensures p == q
    decreases |p|
  {
    if p == [] || q == [] {
      JoinedLength(p);
      JoinedLength(q);
    } else {
      PiecesTail(p);
      PiecesTail(q);
      JoinedLength(p[1..]);
      JoinedLength(q[1..]);
      assert |p[0]| == |q[0]|;
      assert p[0] == Join(p)[..|p[0]|] && q[0] == Join(q)[..|q[0]|];
      assert Join(p[1..]) == Join(p)[|p[0]|..] && Join(q[1..]) == Join(q)[|q[0]|..];
      JoinInjective(p[1..], q[1..]);
      assert p == [p[0]] + p[1..] && q == [q[0]] + q[1..];
    }
  }

  lemma {:induction false} JoinedLength(parts: seq<string>)
    requires Pieces(parts)
    ensures parts == [] ==> Join(parts) == ""
    ensures parts != [] ==> 0 < |Join(parts)| && |Join(parts)| - MAX_ENTRY_CHARS * (|parts| - 1) == |parts[|parts| - 1]|
    decreases |parts|
  {
    if |parts| > 1 {
      PiecesTail(parts);
      JoinedLength(parts[1..]);
    }
  }

  lemma {:induction false} JoinAppend(p: seq<string>, q: seq<string>)
    ensures Join(p + q) == Join(p) + Join(q)
    decreases |p|
  {
    if p == [] {
      assert p + q == q;
    } else {
      assert (p + q)[1..] == p[1..] + q;
      JoinAppend(p[1..], q);
    }
  }

  /** The two lists of parts are of one length and differ in at most one place, or one is the start of the other. */
  ghost predicate Harmless(stored: seq<string>, parts: seq<string>) {
    stored <= parts || parts <= stored ||
    (|stored| == |parts| &&
     forall d, e :: 0 <= d < e < |parts| ==> stored[d] == parts[d] || stored[e] == parts[e])
  }

  ghost predicate OldOrNew(stored: seq<string>, parts: seq<string>, j: nat)
    requires j <= |parts|
  {
    Join(Mixed(stored, parts, j)) in {Join(stored), Join(parts)}
  }

  lemma HarmlessMixes(stored: seq<string>, parts: seq<string>, j: nat)
    requires Harmless(stored, parts) && j <= |parts|
    ensures OldOrNew(stored, parts, j)
  {
    var mixed := Mixed(stored, parts, j);
    if stored <= parts || parts <= stored {
      assert mixed == stored;
    } else if forall d :: 0 <= d < j ==> stored[d] == parts[d] {
      assert mixed == stored;
    } else {
      var d :| 0 <= d < j && stored[d] != parts[d];
      assert mixed == parts;
    }
  }

  lemma FirstPiecesFull(parts: seq<string>, n: nat)
    requires Pieces(parts) && n < |parts|
    ensures Pieces(parts[..n]) && Pieces(parts[n..]) && |Join(parts[..n])| < |Join(parts)|
  {
    JoinAppend(parts[..n], parts[n..]);
    assert parts == parts[..n] + parts[n..];
    assert parts[n..][|parts[n..]| - 1] == parts[|parts| - 1];
    JoinedLength(parts[n..]);
  }

  /** If every number of new chunks over the old ones reads as the old or the new value, the parts are harmless. */
  lemma MixesHarmless(stored: seq<string>, parts: seq<string>)
    requires Pieces(stored) && Pieces(parts) && stored != [] && parts != []
    requires forall j :: 0 <= j <= |parts| ==> OldOrNew(stored, parts, j)
    ensures Harmless(stored, parts)
  {
    assert OldOrNew(stored, parts, |parts|);
    if |stored| < |parts| {
      FirstPiecesFull(parts, |stored|);
      assert Mixed(stored, parts, |parts|) == parts[..|stored|];
      JoinInjective(stored, parts[..|stored|]);
    } else if |parts| < |stored| {
      LongerOldMix(stored, parts);
    } else {
      forall d, e | 0 <= d < e < |parts| ensures stored[d] == parts[d] || stored[e] == parts[e] {
        if stored[d] != parts[d] {
          TwoDifferences(stored, parts, d, e);
        }
      }
    }
  }

  lemma LongerOldMix(stored: seq<string>, parts: seq<string>)
    requires Pieces(stored) && Pieces(parts) && parts != [] && |parts| < |stored|
    requires OldOrNew(stored, parts, |parts|)
    ensures parts <= stored
  {
    var n := |parts|;
    FirstPiecesFull(stored, n);
    JoinAppend(parts, stored[n..]);
    JoinAppend(stored[..n], stored[n..]);
    assert stored == stored[..n] + stored[n..];
    JoinedLength(stored[n..]);
    assert parts[..n] == parts && Mixed(stored, parts, n) == parts + stored[n..];
    SameTail(Join(parts), Join(stored[..n]), Join(stored[n..]));
    JoinInjective(parts, stored[..n]);
  }

  lemma TwoDifferences(stored: seq<string>, parts: seq<string>, d: nat, e: nat)
    requires Pieces(stored) && Pieces(parts) && |stored| == |parts| && d < e < |parts|
    requires stored[d] != parts[d] && OldOrNew(stored, parts, d + 1)
    ensures stored[e] == parts[e]
  {
    var mixed := Mixed(stored, parts, d + 1);
    assert mixed[d] == parts[d] && mixed[|mixed| - 1] == stored[|stored| - 1];
    assert Pieces(mixed);
    if Join(mixed) == Join(stored) {
      JoinInjective(mixed, stored);
    } else {
      JoinInjective(mixed, parts);
      assert mixed[e] == stored[e];
    }
  }

  /** Stopped after its j-th chunk the write reads as before, or as the new value. */
  ghost predicate SafeStop(chunks: seq<Reading>, parts: seq<string>, j: nat)
    requires j <= |parts|
  {
    Joined(Over(chunks, parts, j)) in {Joined(chunks), Some(Join(parts))}
  }

  ghost predicate SafeStops(chunks: seq<Reading>, parts: seq<string>) {
    forall j :: 0 <= j <= |parts| ==> SafeStop(chunks, parts, j)
  }

  /** A write over chunks, stopped anywhere: either its header was written, or some number of its chunks. */
  lemma LongOverLong(r: Run, name: string, parts: seq<string>, previous: nat, chunked: seq<Reading>)
    requires 0 < |parts| <= MAX_CHUNKS && chunked != [] && SafeStops(chunked, parts)
    requires ChunkCount(Find(r.entries, name)) == |chunked| && chunked == Chunks(r.entries, name, |chunked|)
    ensures var chunks := SetChunks(r, name, parts, 0);
            var r' := DeleteChunks(SetCall(chunks, name, Header(|parts|)), name, |parts| + 1, previous);
            Read(r'.entries, name) in {Joined(chunked), Some(Join(parts))}
  {
    var chunks := SetChunks(r, name, parts, 0);
    var headed := SetCall(chunks, name, Header(|parts|));
    if chunks.control.Going? && chunks.pending != [] && (chunks.pending[0].Answered? || chunks.pending[0].applied) {
      HeaderWritten(r, name, parts, previous);
    } else {
      var j := ChunksStopMixed(r.entries, r, name, parts, 0);
      StoppedDeletesNothing(headed, name, |parts| + 1, previous);
      MixedReads(r.entries, chunks.entries, name, parts, j, |chunked|);
      assert SafeStop(chunked, parts, j);
    }
  }

  lemma HeaderWritten(r: Run, name: string, parts: seq<string>, previous: nat)
    requires 0 < |parts| <= MAX_CHUNKS
    requires var chunks := SetChunks(r, name, parts, 0);
             chunks.control.Going? && chunks.pending != [] && (chunks.pending[0].Answered? || chunks.pending[0].applied)
    ensures var headed := SetCall(SetChunks(r, name, parts, 0), name, Header(|parts|));
            Read(DeleteChunks(headed, name, |parts| + 1, previous).entries, name) == Some(Join(parts))
  {
    var chunks := SetChunks(r, name, parts, 0);
    var headed := SetCall(chunks, name, Header(|parts|));
    var r' := DeleteChunks(headed, name, |parts| + 1, previous);
    SetChunksEffect(r, name, parts, 0);
    DeleteChunksFrame(headed, name, |parts| + 1, previous);
    HeadNotChunk(name);
    assert headed.entries == chunks.entries[name := Header(|parts|)];
    forall i | 1 <= i <= |parts| ensures Find(r'.entries, ChunkName(name, i)) == Stored(parts[i - 1]) {
      ChunkNamesDistinct(name, i, i);
      assert Find(chunks.entries, ChunkName(name, i)) == Stored(parts[i - 1]);
    }
    ReadsParts(r'.entries, name, parts);
  }

  /** A write that dies right after its j-th chunk, over whatever chunks an old header counts. */
  lemma StopAfterChunk(entries: Entries, name: string, value: string, j: nat, count: nat)
    requires |value| > MAX_ENTRY_CHARS && |Split(value)| <= MAX_CHUNKS && j <= |Split(value)|
    requires ChunkCount(Find(entries, name)) == count > 0
    ensures Read(Write(Run(entries, [Answered] + Calls(j), Going), name, value).entries, name) ==
            Joined(Over(Chunks(entries, name, count), Split(value), j))
  {
    var parts, r := Split(value), Run(entries, [Answered] + Calls(j), Going);
    var (r1, head) := GetCall(r, name);
    assert r1 == Run(entries, Calls(j - 0), Going);
    ChunksReachMixed(entries, entries, name, parts, 0, j);
    var chunks := SetChunks(r1, name, parts, 0);
    var headed := SetCall(chunks, name, Header(|parts|));
    assert headed.entries == chunks.entries && headed.control.Died?;
    StoppedDeletesNothing(headed, name, |parts| + 1, ChunkCount(head));
    MixedReads(entries, chunks.entries, name, parts, j, count);
  }

  ghost predicate OldOrNewAfter(entries: Entries, pending: seq<Outcome>, name: string, value: string) {
    Read(Write(Run(entries, pending, Going), name, value).entries, name) in {Read(entries, name), Some(value)}
  }

  /** Wherever it is stopped and whichever of its calls fail, the write leaves the whole old or the whole new value. */
  ghost predicate AlwaysAtomic(entries: Entries, name: string, value: string) {
    forall pending :: OldOrNewAfter(entries, pending, name, value)
  }

  /** The keyring holds a long value as a write leaves it. */
  ghost predicate HoldsLong(entries: Entries, name: string, held: string) {
    |held| > MAX_ENTRY_CHARS && |Split(held)| <= MAX_CHUNKS && Find(entries, name) == Stored(Header(|Split(held)|)) &&
    forall i :: 1 <= i <= |Split(held)| ==> Find(entries, ChunkName(name, i)) == Stored(Split(held)[i - 1])
  }

  lemma HeldValueReads(entries: Entries, name: string, held: string)
    requires HoldsLong(entries, name, held)
    ensures Read(entries, name) == Some(held) && ChunkCount(Find(entries, name)) == |Split(held)| > 0
    ensures Whole(Chunks(entries, name, |Split(held)|)) && Texts(Chunks(entries, name, |Split(held)|)) == Split(held)
  {
    SplitCount(held);
    SplitJoins(held);
    ReadsParts(entries, name, Split(held));
    HeaderDecodes(|Split(held)|);
    var chunks := Chunks(entries, name, |Split(held)|);
    forall i | 0 <= i < |chunks| ensures chunks[i] == Stored(Split(held)[i]) {
      assert Find(entries, ChunkName(name, i + 1)) == Stored(Split(held)[i + 1 - 1]);
    }
  }

  lemma RefusedIsAtomic(entries: Entries, name: string, value: string)
    requires |value| > MAX_ENTRY_CHARS && |Split(value)| > MAX_CHUNKS
    ensures AlwaysAtomic(entries, name, value)
  {
    forall pending ensures OldOrNewAfter(entries, pending, name, value) {
      assert Write(Run(entries, pending, Going), name, value).entries == entries;
    }
  }

  lemma LongWriteStops(r: Run, name: string, value: string, chunks: seq<Reading>, parts: seq<string>)
    requires |value| > MAX_ENTRY_CHARS && parts == Split(value) && 0 < |parts| <= MAX_CHUNKS && chunks != []
    requires ChunkCount(Find(r.entries, name)) == |chunks| && chunks == Chunks(r.entries, name, |chunks|)
    requires SafeStops(chunks, parts)
    ensures Read(Write(r, name, value).entries, name) in {Joined(chunks), Some(Join(parts))}
  {
    var (r1, head) := GetCall(r, name);
    LongOverLong(r1, name, parts, ChunkCount(head), chunks);
  }

  /** Over chunks only the stops between two of them matter. */
  lemma AtomicAtStops(entries: Entries, name: string, value: string, chunks: seq<Reading>)
    requires |value| > MAX_ENTRY_CHARS && |Split(value)| <= MAX_CHUNKS && chunks != []
    requires ChunkCount(Find(entries, name)) == |chunks| && chunks == Chunks(entries, name, |chunks|)
    ensures AlwaysAtomic(entries, name, value) <==> SafeStops(chunks, Split(value))
  {
    ReadsChunks(entries, name, |chunks|);
    SplitCount(value);
    SplitJoins(value);
    if SafeStops(chunks, Split(value)) {
      forall pending ensures OldOrNewAfter(entries, pending, name, value) {
        LongWriteStops(Run(entries, pending, Going), name, value, chunks, Split(value));
      }
    } else if AlwaysAtomic(entries, name, value) {
      forall j | 0 <= j <= |Split(value)| ensures SafeStop(chunks, Split(value), j) {
        StopAfterChunk(entries, name, value, j, |chunks|);
        assert OldOrNewAfter(entries, [Answered] + Calls(j), name, value);
      }
    }
  }

  lemma OverMixed(chunks: seq<Reading>, parts: seq<string>, j: nat)
    requires j <= |parts| && Whole(chunks)
    ensures Joined(Over(chunks, parts, j)) == Some(Join(Mixed(Texts(chunks), parts, j)))
  {
    assert Texts(Over(chunks, parts, j)) == Mixed(Texts(chunks), parts, j);
  }

  lemma SafeIsHarmless(chunks: seq<Reading>, parts: seq<string>)
    requires Whole(chunks) && Pieces(Texts(chunks)) && Pieces(parts) && chunks != [] && parts != []
    ensures SafeStops(chunks, parts) <==> Harmless(Texts(chunks), parts)
  {
    var stored := Texts(chunks);
    if Harmless(stored, parts) {
      forall j | 0 <= j <= |parts| ensures SafeStop(chunks, parts, j) {
        OverMixed(chunks, parts, j);
        HarmlessMixes(stored, parts, j);
      }
    } else if SafeStops(chunks, parts) {
      forall j | 0 <= j <= |parts| ensures OldOrNew(stored, parts, j) {
        OverMixed(chunks, parts, j);
        assert SafeStop(chunks, parts, j);
      }
      MixesHarmless(stored, parts);
    }
  }

  /** One long value over another: the chunk entries overlap, so the write is atomic exactly when the new value is
      refused for its length, or the parts of the two values are of one number and differ in at most one of them, or
      those of one value are the first parts of the other. */
  lemma ChunkedOverChunkedExactlyWhen(entries: Entries, name: string, held: string, value: string)
    requires HoldsLong(entries, name, held) && |value| > MAX_ENTRY_CHARS
    ensures AlwaysAtomic(entries, name, value) <==>
            |Split(value)| > MAX_CHUNKS || Harmless(Split(held), Split(value))
  {
    if |Split(value)| > MAX_CHUNKS {
      RefusedIsAtomic(entries, name, value);
    } else {
      var chunks := Chunks(entries, name, |Split(held)|);
      HeldValueReads(entries, name, held);
      AtomicAtStops(entries, name, value, chunks);
      SplitCount(value);
      SplitPieces(value);
      SplitPieces(held);
      SafeIsHarmless(chunks, Split(value));
    }
  }

  // ---------- A write over any keyring ----------

  /** Up to the seam after the j-th part the two texts agree, or they agree from there on. */
  ghost predicate AgreeAtSeam(stored: seq<string>, parts: seq<string>, j: nat)
    requires j <= |stored| && j <= |parts|
  {
    Join(stored[..j]) == Join(parts[..j]) || Join(stored[j..]) == Join(parts[j..])
  }

  ghost predicate AgreeAtSeams(stored: seq<string>, parts: seq<string>) {
    forall j :: 0 <= j <= |stored| && j <= |parts| ==> AgreeAtSeam(stored, parts, j)
  }

  /** The last missing chunk. */
  function LastGap(chunks: seq<Reading>): (k: nat)
    requires !Whole(chunks)
    ensures k < |chunks| && !chunks[k].Stored? && Whole(chunks[k + 1..])
    decreases |chunks|
  {
    var n := |chunks| - 1;
    if !chunks[n].Stored? then n
    else
      assert chunks == chunks[..n] + [chunks[n]];
      var k := LastGap(chunks[..n]);
      assert forall i :: k < i < n ==> chunks[i] == chunks[..n][k + 1..][i - k - 1];
      k
  }

  /** The new value does not reach the last missing chunk, or all chunks behind that one are the new parts already and
      any further ones are empty. */
  ghost predicate BehindGapAsNew(chunks: seq<Reading>, parts: seq<string>, k: nat) {
    |parts| <= k ||
    (|parts| <= |chunks| && forall i :: k < i < |chunks| ==>
       chunks[i] == Stored(if i < |parts| then parts[i] else ""))
  }

  /** What makes a long write over these chunks atomic. */
  ghost predicate Untorn(chunks: seq<Reading>, parts: seq<string>) {
    if Whole(chunks) then AgreeAtSeams(Texts(chunks), parts) else BehindGapAsNew(chunks, parts, LastGap(chunks))
  }

  lemma SeamSafe(stored: seq<string>, parts: seq<string>, j: nat)
    requires j <= |stored| && j <= |parts|
    ensures OldOrNew(stored, parts, j) <==> AgreeAtSeam(stored, parts, j)
  {
    assert stored == stored[..j] + stored[j..] && parts == parts[..j] + parts[j..];
    JoinAppend(stored[..j], stored[j..]);
    JoinAppend(parts[..j], parts[j..]);
    JoinAppend(parts[..j], stored[j..]);
    SameTail(Join(parts[..j]), Join(stored[..j]), Join(stored[j..]));
    SameHead(Join(parts[..j]), Join(stored[j..]), Join(parts[j..]));
  }

  lemma SameHead(head: string, a: string, b: string)
    ensures head + a == head + b <==> a == b
  {
    if head + a == head + b {
      assert a == (head + a)[|head|..] && b == (head + b)[|head|..];
    }
  }

  lemma WholeIsSafe(chunks: seq<Reading>, parts: seq<string>)
    requires Whole(chunks)
    ensures SafeStops(chunks, parts) <==> AgreeAtSeams(Texts(chunks), parts)
  {
    var stored := Texts(chunks);
    if AgreeAtSeams(stored, parts) {
      forall j | 0 <= j <= |parts| ensures SafeStop(chunks, parts, j) {
        var seam := if j <= |stored| then j else |stored|;
        OverMixed(chunks, parts, j);
        SeamSafe(stored, parts, seam);
        assert AgreeAtSeam(stored, parts, seam) && Mixed(stored, parts, j) == Mixed(stored, parts, seam);
      }
    } else if SafeStops(chunks, parts) {
      forall j | 0 <= j <= |stored| && j <= |parts| ensures AgreeAtSeam(stored, parts, j) {
        assert SafeStop(chunks, parts, j);
        OverMixed(chunks, parts, j);
        SeamSafe(stored, parts, j);
      }
    }
  }

  /** Parts that differ in one place at most and join to one text do not differ. */
  lemma JoinDiffersAt(p: seq<string>, q: seq<string>, i: nat)
    requires |p| == |q| && i < |p| && p[..i] == q[..i] && p[i + 1..] == q[i + 1..] && Join(p) == Join(q)
    ensures p[i] == q[i]
  {
    assert p == p[..i] + p[i..] && q == q[..i] + q[i..];
    JoinAppend(p[..i], p[i..]);
    JoinAppend(q[..i], q[i..]);
    SameHead(Join(p[..i]), Join(p[i..]), Join(q[i..]));
    assert p[i..][1..] == p[i + 1..] && q[i..][1..] == q[i + 1..];
    SameTail(p[i], q[i], Join(p[i + 1..]));
  }

  lemma {:induction false} EmptyJoin(texts: seq<string>)
    ensures Join(texts) == "" <==> forall i :: 0 <= i < |texts| ==> texts[i] == ""
    decreases |texts|
  {
    if texts != [] {
      EmptyJoin(texts[1..]);
      assert texts == [texts[0]] + texts[1..];
    }
  }

  /** Past the last gap nothing is missing once the parts reach over it. */
  lemma OverGap(chunks: seq<Reading>, parts: seq<string>, j: nat)
    requires !Whole(chunks) && j <= |parts|
    ensures Whole(Over(chunks, parts, j)) <==> j > LastGap(chunks)
  {
    var k, mixed := LastGap(chunks), Over(chunks, parts, j);
    if j > k {
      forall i | 0 <= i < |mixed| ensures mixed[i].Stored? {
        assert i > k ==> chunks[i] == chunks[k + 1..][i - k - 1];
      }
    } else {
      assert !mixed[k].Stored?;
    }
  }

  lemma AsNewStop(chunks: seq<Reading>, parts: seq<string>, k: nat, j: nat, texts: seq<string>)
    requires k < j <= |parts| && BehindGapAsNew(chunks, parts, k)
    requires Whole(Over(chunks, parts, j)) && texts == Texts(Over(chunks, parts, j))
    ensures Join(texts) == Join(parts)
  {
    forall i | 0 <= i < |texts| ensures texts[i] == if i < |parts| then parts[i] else "" {
      assert Over(chunks, parts, j)[i].text == texts[i];
    }
    var rest := texts[|parts|..];
    assert texts[..|parts|] == parts && texts == texts[..|parts|] + rest;
    EmptyJoin(rest);
    JoinAppend(parts, rest);
  }

  lemma AsNewIsSafe(chunks: seq<Reading>, parts: seq<string>)
    requires !Whole(chunks) && BehindGapAsNew(chunks, parts, LastGap(chunks))
    ensures SafeStops(chunks, parts)
  {
    forall j | 0 <= j <= |parts| ensures SafeStop(chunks, parts, j) {
      OverGap(chunks, parts, j);
      if j > LastGap(chunks) {
        AsNewStop(chunks, parts, LastGap(chunks), j, Texts(Over(chunks, parts, j)));
      }
    }
  }

  /** Each chunk behind the gap was the new part already: else one of the stops around it is torn. */
  lemma ChunkAsNew(chunks: seq<Reading>, parts: seq<string>, i: nat)
    requires !Whole(chunks) && SafeStops(chunks, parts) && LastGap(chunks) < i < |chunks| && i < |parts|
    ensures chunks[i] == Stored(parts[i])
  {
    OverGap(chunks, parts, i);
    OverGap(chunks, parts, i + 1);
    assert SafeStop(chunks, parts, i) && SafeStop(chunks, parts, i + 1);
    var p, q := Texts(Over(chunks, parts, i)), Texts(Over(chunks, parts, i + 1));
    JoinDiffersAt(p, q, i);
    assert Over(chunks, parts, i)[i] == chunks[i];
  }

  lemma ChunksPastEmpty(chunks: seq<Reading>, parts: seq<string>, m: nat)
    requires !Whole(chunks) && SafeStops(chunks, parts) && LastGap(chunks) < m == |parts| && Pieces(parts)
    ensures m <= |chunks| && forall i :: m <= i < |chunks| ==> chunks[i] == Stored("")
  {
    OverGap(chunks, parts, m);
    assert SafeStop(chunks, parts, m);
    var texts := Texts(Over(chunks, parts, m));
    if |chunks| < m {
      assert texts == parts[..|chunks|];
      FirstPiecesFull(parts, |chunks|);
    } else {
      assert texts[..m] == parts;
      RestEmpty(texts, m);
      forall i | m <= i < |chunks| ensures chunks[i] == Stored("") {
        assert Over(chunks, parts, m)[i] == chunks[i] && texts[i] == chunks[i].text;
      }
    }
  }

  lemma RestEmpty(texts: seq<string>, m: nat)
    requires m <= |texts| && Join(texts) == Join(texts[..m])
    ensures forall i :: m <= i < |texts| ==> texts[i] == ""
  {
    assert texts == texts[..m] + texts[m..];
    JoinAppend(texts[..m], texts[m..]);
    SameHead(Join(texts[..m]), Join(texts[m..]), "");
    EmptyJoin(texts[m..]);
    assert forall i :: m <= i < |texts| ==> texts[i] == texts[m..][i - m];
  }

  lemma GapIsSafe(chunks: seq<Reading>, parts: seq<string>)
    requires !Whole(chunks) && Pieces(parts)
    ensures SafeStops(chunks, parts) <==> BehindGapAsNew(chunks, parts, LastGap(chunks))
  {
    if BehindGapAsNew(chunks, parts, LastGap(chunks)) {
      AsNewIsSafe(chunks, parts);
    } else if SafeStops(chunks, parts) {
      if LastGap(chunks) < |parts| {
        ChunksPastEmpty(chunks, parts, |parts|);
      }
      forall i | LastGap(chunks) < i < |chunks|
        ensures chunks[i] == Stored(if i < |parts| then parts[i] else "")
      {
        if i < |parts| {
          ChunkAsNew(chunks, parts, i);
        }
      }
    }
  }

  /** On every keyring a write of any storable value is atomic exactly when the entry under the name counts no chunks,
      the value fits one entry or is refused for its length, or the write tears nothing: with no chunk missing, the old
      and the new text agree up to every seam or from there on; with some missing, the parts of the new value do not
      reach the last of those, or all behind it is as in the new value. */
  lemma WriteAtomicExactlyWhen(entries: Entries, name: string, value: string)
    requires Storable(value)
    ensures AlwaysAtomic(entries, name, value) <==>
            var count := ChunkCount(Find(entries, name));
            count == 0 || |value| <= MAX_ENTRY_CHARS || |Split(value)| > MAX_CHUNKS ||
            Untorn(Chunks(entries, name, count), Split(value))
  {
    var count := ChunkCount(Find(entries, name));
    if count == 0 || |value| <= MAX_ENTRY_CHARS {
      forall pending ensures OldOrNewAfter(entries, pending, name, value) {
        WriteAtomic(Run(entries, pending, Going), name, value);
      }
    } else if |Split(value)| > MAX_CHUNKS {
      RefusedIsAtomic(entries, name, value);
    } else {
      var chunks := Chunks(entries, name, count);
      AtomicAtStops(entries, name, value, chunks);
      if Whole(chunks) {
        WholeIsSafe(chunks, Split(value));
      } else {
        SplitPieces(value);
        GapIsSafe(chunks, Split(value));
      }
    }
  }

  // ---------- Torn writes ----------

  /** A header over two missing chunks and a new value of three parts: stopped after its second chunk, the write reads
      as the first two of them. */
  lemma MissingChunksTorn(name: string, value: string)
    requires 2 * MAX_ENTRY_CHARS < |value| <= 3 * MAX_ENTRY_CHARS
    ensures var entries := map[name := Header(2)];
            var after := Write(Run(entries, [Answered] + Calls(2), Going), name, value).entries;
            Read(entries, name) == None && Read(after, name) == Some(value[..2 * MAX_ENTRY_CHARS]) &&
            value[..2 * MAX_ENTRY_CHARS] != value
  {
    var entries := map[name := Header(2)];
    HeaderDecodes(2);
    ReadsChunks(entries, name, 2);
    OnlyHeader(entries, name);
    ThreeParts(value);
    StopAfterChunk(entries, name, value, 2, 2);
    TwoOverNothing(Chunks(entries, name, 2), Split(value));
    TwoJoined(value[..1000], value[1000..2000]);
    assert value[..1000] + value[1000..2000] == value[..2000] && |value[..2000]| < |value|;
  }

  lemma OnlyHeader(entries: Entries, name: string)
    requires entries == map[name := Header(2)]
    ensures !Whole(Chunks(entries, name, 2))
  {
    ChunkNamesDistinct(name, 1, 1);
    assert !Chunks(entries, name, 2)[0].Stored?;
  }

  lemma TwoOverNothing(chunks: seq<Reading>, parts: seq<string>)
    requires |chunks| == 2 && |parts| >= 2
    ensures Joined(Over(chunks, parts, 2)) == Some(Join([parts[0], parts[1]]))
  {
    assert Texts(Over(chunks, parts, 2)) == [parts[0], parts[1]];
  }

  lemma ThreeParts(value: string)
    requires 2 * MAX_ENTRY_CHARS < |value| <= 3 * MAX_ENTRY_CHARS
    ensures Split(value) == [value[..1000], value[1000..2000], value[2000..]]
  {
    assert value[1000..][..1000] == value[1000..2000] && value[1000..][1000..] == value[2000..];
    assert Split(value[1000..]) == [value[1000..2000]] + Split(value[2000..]);
  }

  lemma TwoJoined(a: string, b: string)
    ensures Join([a, b]) == a + b
  {
    assert [a, b][1..] == [b] && [b][1..] == [] && Join([b]) == b + Join([]) == b;
  }

  /** Two values of two parts that differ in both: stopped after the first chunk, the write reads as neither. */
  lemma TwoPartsTorn(entries: Entries, name: string, held: string, value: string)
    requires held == Repeat('a', 1001) && value == Repeat('b', 1001) && HoldsLong(entries, name, held)
    ensures Read(Write(Run(entries, [Answered] + Calls(1), Going), name, value).entries, name) ==
            Some(Repeat('b', 1000) + Repeat('a', 1))
    ensures Read(entries, name) == Some(held) && Repeat('b', 1000) + Repeat('a', 1) !in {held, value}
  {
    HeldValueReads(entries, name, held);
    RepeatParts('a');
    RepeatParts('b');
    StopAfterChunk(entries, name, value, 1, 2);
    var chunks := Chunks(entries, name, 2);
    assert Texts(Over(chunks, Split(value), 1)) == [Repeat('b', 1000), Repeat('a', 1)] by {
      assert chunks[1].text == Texts(chunks)[1];
    }
    TwoJoined(Repeat('b', 1000), Repeat('a', 1));
    var torn := Repeat('b', 1000) + Repeat('a', 1);
    assert torn[0] != held[0] && torn[1000] != value[1000];
  }

  lemma RepeatParts(c: char)
    ensures Split(Repeat(c, 1001)) == [Repeat(c, 1000), Repeat(c, 1)]
  {
    var value := Repeat(c, 1001);
    assert value[..1000] == Repeat(c, 1000) && value[1000..] == Repeat(c, 1);
    assert Split(value[1000..]) == [value[1000..]];
  }

  lemma {:induction false} StoppedSetsNothing(r: Run, name: string, parts: seq<string>, index: nat)
    requires !r.control.Going? && index <= |parts|
    ensures SetChunks(r, name, parts, index) == r
    decreases |parts| - index
  {
    if index < |parts| {
      StoppedSetsNothing(r, name, parts, index + 1);
    }
  }

  lemma SameTail(a: string, b: string, tail: string)
    ensures a + tail == b + tail <==> a == b
  {
    if a + tail == b + tail {
      assert |a| == |b|;
      assert a == (a + tail)[..|a|] && b == (b + tail)[..|b|];
    }
  }

  /** Other secrets are never touched. */
  lemma WriteFrame(r: Run, name: string, value: string, entry: string)
    requires entry != name && NotAChunk(name, entry)
    ensures Find(Write(r, name, value).entries, entry) == Find(r.entries, entry)
  {
    var (r1, head) := GetCall(r, name);
    var previous := ChunkCount(head);
    if |value| <= MAX_ENTRY_CHARS {
      var headed := SetCall(r1, name, value);
      DeleteChunksFrame(headed, name, 1, previous);
      OtherEntryKept(headed.entries, DeleteChunks(headed, name, 1, previous).entries, name, entry);
    } else if |Split(value)| <= MAX_CHUNKS {
      LongWriteFrame(r1, name, Split(value), previous, entry);
    }
  }

  lemma LongWriteFrame(r: Run, name: string, parts: seq<string>, previous: nat, entry: string)
    requires entry != name && NotAChunk(name, entry)
    ensures var headed := SetCall(SetChunks(r, name, parts, 0), name, Header(|parts|));
            Find(DeleteChunks(headed, name, |parts| + 1, previous).entries, entry) == Find(r.entries, entry)
  {
    var chunks := SetChunks(r, name, parts, 0);
    var headed := SetCall(chunks, name, Header(|parts|));
    SetChunksEffect(r, name, parts, 0);
    OtherEntryKept(r.entries, chunks.entries, name, entry);
    DeleteChunksFrame(headed, name, |parts| + 1, previous);
    OtherEntryKept(headed.entries, DeleteChunks(headed, name, |parts| + 1, previous).entries, name, entry);
  }

  // ---------- Clearing ----------

  /** What clear_required works on and reports. */
  datatype Clearing = Clearing(
    run: Run, env: map<string, string>, seen: set<string>,
    cleared: seq<string>, missing: seq<string>, errors: seq<string>)

  /** Whether the next delete of `entry` reports success: it answers and there was something to delete. */
  predicate DeleteReported(r: Run, entry: string) {
    r.control.Going? && r.pending != [] && r.pending[0].Answered? && entry in r.entries
  }

  function ClearOne(c: Clearing, available: bool, name: string): Clearing {
    if name == "" || name in c.seen || c.run.control.Died? then c
    else
      var hadEnv := name in c.env;
      var c1 := c.(seen := c.seen + {name}, env := c.env - {name});
      var (r1, existing) := if available then GetCall(c.run, name) else (c.run, Absent);
      if existing.Absent? then Report(c1.(run := r1), name, hadEnv)
      else
        var reported := DeleteReported(r1, name);
        var last := if existing.Stored? then ChunkCount(existing) else MAX_CLEAR_CHUNKS;
        var r2 := DeleteChunks(DeleteCall(r1, name), name, 1, last);
        if !reported && existing.Stored? then c1.(run := r2, errors := c1.errors + [name])
        else Report(c1.(run := r2), name, hadEnv || existing.Stored? || reported)
  }

  function Report(c: Clearing, name: string, found: bool): Clearing {
    if found then c.(cleared := c.cleared + [name]) else c.(missing := c.missing + [name])
  }

  function ClearAll(c: Clearing, available: bool, names: seq<string>): Clearing
    decreases |names|
  {
    if names == [] then c else ClearOne(ClearAll(c, available, names[..|names| - 1]), available, names[|names| - 1])
  }

  /** A name that is handled is reported exactly once: as an error when its head was read and the delete was lost;
      otherwise as cleared when it was in the environment, or its head was read, or was unread but deleted; and as
      missing in all other cases. */
  lemma ReportedExactly(c: Clearing, name: string, read: Outcome, deleted: Outcome, rest: seq<Outcome>)
    requires name != "" && name !in c.seen
    requires c.run.control.Going? && c.run.pending == [read, deleted] + rest
    ensures var after, stored := ClearOne(c, true, name), name in c.run.entries;
            var failed := stored && read.Answered? && deleted.Lost?;
            var found := name in c.env || (stored && (read.Answered? || deleted.Answered?));
            after.errors == c.errors + (if failed then [name] else []) &&
            after.cleared == c.cleared + (if !failed && found then [name] else []) &&
            after.missing == c.missing + (if !failed && !found then [name] else [])
  {
    var (r1, existing) := GetCall(c.run, name);
    assert r1.pending == [deleted] + rest && r1.pending[0] == deleted;
    assert c.errors + [] == c.errors && c.cleared + [] == c.cleared && c.missing + [] == c.missing;
  }

  /** What is left of a cleared secret: its head survives exactly when it was there and neither call that
      could have removed it took effect. */
  lemma ClearedHead(c: Clearing, name: string, read: Outcome, deleted: Outcome, rest: seq<Outcome>)
    requires name != "" && name !in c.seen
    requires c.run.control.Going? && c.run.pending == [read, deleted] + rest
    ensures var r := ClearOne(c, true, name).run;
            name in r.entries <==> name in c.run.entries && deleted == Lost(false)
  {
    var (r1, existing) := GetCall(c.run, name);
    HeadNotChunk(name);
    if !existing.Absent? {
      var last := if existing.Stored? then ChunkCount(existing) else MAX_CLEAR_CHUNKS;
      var r2 := DeleteCall(r1, name);
      assert r1.pending[0] == deleted;
      DeleteChunksFrame(r2, name, 1, last);
      assert Find(DeleteChunks(r2, name, 1, last).entries, name) == Find(r2.entries, name);
    }
  }

  /** A name is reported cleared while its secret can still be restored exactly when it was also in the
      environment and the keyring neither answered the read nor carried out the delete. */
  lemma ReportedClearedButStillStored(c: Clearing, name: string, read: Outcome, deleted: Outcome, rest: seq<Outcome>)
    requires name != "" && name !in c.seen && name !in c.cleared
    requires c.run.control.Going? && c.run.pending == [read, deleted] + rest
    ensures var after := ClearOne(c, true, name);
            name in after.cleared && name in after.run.entries <==>
            name in c.env && name in c.run.entries && read.Lost? && deleted == Lost(false)
  {
    ClearedHead(c, name, read, deleted, rest);
    var (r1, existing) := GetCall(c.run, name);
    assert r1.pending != [] && r1.pending[0] == deleted;
  }

  /** After a lost read, with deletes that answer, the head is gone, and of the chunk entries exactly those beyond the
      eighth are left, of the 64 that a long secret can have. */
  lemma ClearedAfterLostRead(c: Clearing, name: string, read: Outcome, rest: seq<Outcome>, i: nat)
    requires name != "" && name !in c.seen && i > 0
    requires c.run.control.Going? && c.run.pending == [read] + rest && read.Lost?
    requires AllAnswered(c.run.(pending := rest), MAX_CLEAR_CHUNKS + 1)
    ensures var entries := ClearOne(c, true, name).run.entries;
            name !in entries &&
            (ChunkName(name, i) in entries <==> ChunkName(name, i) in c.run.entries && i > MAX_CLEAR_CHUNKS)
  {
    var r := c.run.(pending := rest);
    assert GetCall(c.run, name) == (r, Unanswered);
    HeadAndChunksDeleted(r, name, MAX_CLEAR_CHUNKS, i);
  }

  lemma HeadAndChunksDeleted(r: Run, name: string, last: nat, i: nat)
    requires AllAnswered(r, last + 1) && i > 0
    ensures var entries := DeleteChunks(DeleteCall(r, name), name, 1, last).entries;
            name !in entries && (ChunkName(name, i) in entries <==> ChunkName(name, i) in r.entries && i > last)
  {
    var headless := DeleteCall(r, name);
    var after := DeleteChunks(headless, name, 1, last).entries;
    assert r.pending[0] in r.pending;
    HeadNotChunk(name);
    ChunkNamesDistinct(name, i, i);
    DeleteChunksFrame(headless, name, 1, last);
    assert Find(after, name) == Find(headless.entries, name) == Absent;
    ChunksDeleted(headless, name, 1, last, last);
    assert i > last ==> Find(after, ChunkName(name, i)) == Find(headless.entries, ChunkName(name, i));
  }

  /** With a keyring that answers, a cleared secret reads as nothing, and of its chunk entries exactly those beyond
      the head's count are left: orphans of an earlier delete that was lost. */
  lemma ClearedExactly(c: Clearing, name: string, i: nat)
    requires name != "" && name !in c.seen && AllAnswered(c.run, MAX_CHUNKS + 2) && i > 0
    ensures var entries := ClearOne(c, true, name).run.entries;
            Read(entries, name) == None &&
            (ChunkName(name, i) in entries <==>
             ChunkName(name, i) in c.run.entries && i > ChunkCount(Find(c.run.entries, name)))
  {
    var (r1, existing) := GetCall(c.run, name);
    assert c.run.pending[0] in c.run.pending && c.run.pending[1] in c.run.pending;
    if existing.Stored? {
      HeadAndChunksDeleted(r1, name, ChunkCount(existing), i);
    }
  }

  ghost predicate NoChunkIn(entries: Entries, name: string) {
    forall i: nat :: i > 0 ==> ChunkName(name, i) !in entries
  }

  ghost predicate NoOrphanIn(entries: Entries, name: string) {
    forall i: nat :: i > ChunkCount(Find(entries, name)) ==> ChunkName(name, i) !in entries
  }

  /** So nothing of the secret is left exactly when it had no chunk beyond its head's count. */
  lemma ClearedCompletelyExactlyWhen(c: Clearing, name: string)
    requires name != "" && name !in c.seen && AllAnswered(c.run, MAX_CHUNKS + 2)
    ensures NoChunkIn(ClearOne(c, true, name).run.entries, name) <==> NoOrphanIn(c.run.entries, name)
  {
    var entries := ClearOne(c, true, name).run.entries;
    forall i: nat | i > 0
      ensures ChunkName(name, i) in entries <==>
        ChunkName(name, i) in c.run.entries && i > ChunkCount(Find(c.run.entries, name))
    {
      ClearedExactly(c, name, i);
    }
  }

  lemma {:induction false} ChunksDeleted(r: Run, name: string, first: nat, last: nat, calls: int)
    requires AllAnswered(r, calls) && calls >= last + 1 - first
    ensures forall i :: first <= i <= last ==> ChunkName(name, i) !in DeleteChunks(r, name, first, last).entries
    decreases last + 1 - first
  {
    if first <= last {
      var next := DeleteCall(r, ChunkName(name, first));
      ChunksDeleted(next, name, first + 1, last, calls - 1);
      DeleteChunksFrame(next, name, first + 1, last);
      assert Find(DeleteChunks(next, name, first + 1, last).entries, ChunkName(name, first)) == Absent;
    }
  }

  /** Whatever was handled is gone from the environment. */
  ghost predicate HandledIsGone(c: Clearing) {
    forall n :: n in c.seen ==> n !in c.env
  }

  lemma ClearOneEnv(c: Clearing, available: bool, name: string)
    requires HandledIsGone(c)
    ensures HandledIsGone(ClearOne(c, available, name))
    ensures c.seen <= ClearOne(c, available, name).seen
    ensures !ClearOne(c, available, name).run.control.Died? && name != "" ==> name in ClearOne(c, available, name).seen
    ensures c.run.control.Died? ==> ClearOne(c, available, name) == c
  {
  }

  lemma {:induction false} ClearAllEnv(c: Clearing, available: bool, names: seq<string>)
    requires HandledIsGone(c)
    ensures HandledIsGone(ClearAll(c, available, names))
    ensures !ClearAll(c, available, names).run.control.Died? ==>
              forall n :: n in names && n != "" ==> n in ClearAll(c, available, names).seen
    decreases |names|
  {
    if names != [] {
      var init, last := names[..|names| - 1], names[|names| - 1];
      ClearAllEnv(c, available, init);
      assert names == init + [last];
      ClearOneEnv(ClearAll(c, available, init), available, last);
    }
  }

  /** After clearing, none of the required names is left in the environment. */
  lemma ClearedFromEnvironment(c: Clearing, available: bool, names: seq<string>, name: string)
    requires c.seen == {} && name in names && name != ""
    requires !ClearAll(c, available, names).run.control.Died?
    ensures name !in ClearAll(c, available, names).env
  {
    ClearAllEnv(c, available, names);
  }

  // ---------- The service ----------

  /** The service over one keyring and the process environment. */
  class Service {
    var entries: Entries
    var pending: seq<Outcome>
    var dead: bool
    var env: map<string, string>
    const available: bool

    function State(): Run
      reads this
    {
      Run(entries, pending, if dead then Died else Going)
    }

    constructor (entries: Entries, pending: seq<Outcome>, env: map<string, string>, available: bool)
      ensures State() == Run(entries, pending, Going) && this.env == env && this.available == available
    {
      this.entries, this.pending, this.dead, this.env, this.available := entries, pending, false, env, available;
    }

    method Get(entry: string) returns (reading: Reading)
      modifies this`pending, this`dead
      ensures (State(), reading) == GetCall(old(State()), entry)
    {
      if dead {
        return Unanswered;
      }
      if pending == [] {
        dead := true;
        return Unanswered;
      }
      reading := if pending[0].Answered? then Find(entries, entry) else Unanswered;
      pending := pending[1..];
    }

    method Set(entry: string, value: string) returns (ok: bool)
      modifies this`pending, this`dead, this`entries
      ensures var r := SetCall(old(State()), entry, value);
              entries == r.entries && pending == r.pending && dead == r.control.Died? && ok == r.control.Going?
    {
      if dead {
        return false;
      }
      if pending == [] {
        dead := true;
        return false;
      }
      var outcome := pending[0];
      pending := pending[1..];
      if outcome.Answered? || outcome.applied {
        entries := entries[entry := value];
      }
      return outcome.Answered?;
    }

    method Delete(entry: string) returns (ok: bool)
      modifies this`pending, this`dead, this`entries
      ensures State() == DeleteCall(old(State()), entry) && ok == DeleteReported(old(State()), entry)
    {
      if dead {
        return false;
      }
      if pending == [] {
        dead := true;
        return false;
      }
      var outcome := pending[0];
      pending := pending[1..];
      ok := outcome.Answered? && entry in entries;
      if outcome.Answered? || outcome.applied {
        entries := entries - {entry};
      }
    }

    method RemoveChunks(name: string, first: nat, last: nat)
      modifies this`pending, this`dead, this`entries
      ensures State() == DeleteChunks(old(State()), name, first, last)
    {
      var index := first;
      while index <= last
        invariant first <= index
        invariant DeleteChunks(old(State()), name, first, last) == DeleteChunks(State(), name, index, last)
      {
        var _ := Delete(ChunkName(name, index));
        index := index + 1;
      }
    }

    /** _write: chunks first, header last. */
    method WriteSecret(name: string, value: string) returns (ok: bool)
      requires !dead
      modifies this`pending, this`dead, this`entries
      ensures var r := Write(old(State()), name, value);
              entries == r.entries && pending == r.pending && dead == r.control.Died? && ok == r.control.Going?
    {
      var head := Get(name);
      var previous := ChunkCount(head);
      if |value| <= MAX_ENTRY_CHARS {
        ghost var before := State();
        ok := Set(name, value);
        if !ok {
          StoppedDeletesNothing(SetCall(before, name, value), name, 1, previous);
          return false;
        }
        RemoveChunks(name, 1, previous);
        return !dead;
      }
      var parts := Split(value);
      if |parts| > MAX_CHUNKS {
        return false;
      }
      ghost var start := State();
      var index := 0;
      while index < |parts|
        invariant index <= |parts| && (!dead || State() == start)
        invariant SetChunks(start, name, parts, 0) == SetChunks(State(), name, parts, index)
      {
        ghost var before := State();
        ok := Set(ChunkName(name, index + 1), parts[index]);
        index := index + 1;
        if !ok {
          var stopped := SetCall(before, ChunkName(name, index), parts[index - 1]);
          StoppedSetsNothing(stopped, name, parts, index);
          StoppedDeletesNothing(SetCall(stopped, name, Header(|parts|)), name, |parts| + 1, previous);
          return false;
        }
      }
      ghost var chunks := State();
      ok := Set(name, Header(|parts|));
      if !ok {
        StoppedDeletesNothing(SetCall(chunks, name, Header(|parts|)), name, |parts| + 1, previous);
        return false;
      }
      RemoveChunks(name, |parts| + 1, previous);
      return !dead;
    }

    /** clear_required: returns the cleared, missing and failed names. */
    method ClearRequired(names: seq<string>) returns (cleared: seq<string>, missing: seq<string>, errors: seq<string>)
      modifies this
      ensures var after := ClearAll(Clearing(old(State()), old(env), {}, [], [], []), available, names);
              State() == after.run && env == after.env &&
              cleared == after.cleared && missing == after.missing && errors == after.errors
    {
      ghost var start := Clearing(State(), env, {}, [], [], []);
      var seen: set<string> := {};
      cleared, missing, errors := [], [], [];
      var i := 0;
      while i < |names|
        invariant i <= |names|
        invariant Clearing(State(), env, seen, cleared, missing, errors) == ClearAll(start, available, names[..i])
      {
        var name := names[i];
        assert names[..i + 1][..i] == names[..i];
        i := i + 1;
        if name == "" || name in seen || dead {
          continue;
        }
        ghost var before := Clearing(State(), env, seen, cleared, missing, errors);
        seen := seen + {name};
        var hadEnv := name in env;
        env := env - {name};
        var hadKeyring := false;
        if available {
          var existing := Get(name);
          if existing != Absent {
            var ok := Delete(name);
            RemoveChunks(name, 1, if existing.Stored? then ChunkCount(existing) else MAX_CLEAR_CHUNKS);
            if !ok && existing.Stored? {
              errors := errors + [name];
              continue;
            }
            hadKeyring := existing.Stored? || ok;
          }
        }
        if hadEnv || hadKeyring {
          cleared := cleared + [name];
        } else {
          missing := missing + [name];
        }
      }
      assert names[..|names|] == names;
    }
  }
}
