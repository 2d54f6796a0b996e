/** The append-only JSONL artifact log with torn-tail repair
    (cli/devtools/ask_benchmark/artifacts.py). */
module JsonLines {
  import opened Wrappers
  import opened Text

  /** What json.loads makes of a text. */
  datatype Parsed<+R> = Invalid | NotAnObject | Object(record: R)

  /** The JSON codec, kept abstract: `encode` is json.dumps with compact separators, `decode` json.loads. */
  datatype Codec<!R> = Codec(encode: R -> string, decode: string -> Parsed<R>)

  /** What the log needs of the codec: a record is written as one printable ASCII JSON object, which reads
      back as that record, and of which no proper prefix is a JSON document. */
  ghost predicate ValidCodec<R(!new)>(codec: Codec<R>) {
    forall r :: Encodes(codec, r)
  }

  ghost predicate Encodes<R>(codec: Codec<R>, r: R) {
    var text := codec.encode(r);
    text != "" && text[0] == '{' &&
    (forall i :: 0 <= i < |text| ==> ' ' <= text[i] <= '~') &&
    codec.decode(text) == Object(r) &&
    forall n :: 0 <= n < |text| ==> codec.decode(text[..n]) == Invalid
  }

  // ---------- Lines of a text ----------

  predicate IsLineBreak(c: char) {
    '\n' <= c <= '\r' || '\U{1c}' <= c <= '\U{1e}' || c == '\U{85}' || c == '\U{2028}' || c == '\U{2029}'
  }

  predicate IsBlank(line: string) {
    forall c :: c in line ==> IsSpace(c)
  }

  /** The position of the first line break at or after `from`, or the end of the text. */
  function LineEnd(s: string, from: nat): (i: nat)
    requires from <= |s|
    ensures from <= i <= |s|
    ensures forall k :: from <= k < i ==> !IsLineBreak(s[k])
    ensures i < |s| ==> IsLineBreak(s[i])
    decreases |s| - from
  {
    if from == |s| || IsLineBreak(s[from]) then from else LineEnd(s, from + 1)
  }

  /** The end of the line break at `i`. */
  function BreakEnd(s: string, i: nat): (next: nat)
    requires i < |s|
    ensures i < next <= |s|
  {
    if s[i] == '\r' && i + 1 < |s| && s[i + 1] == '\n' then i + 2 else i + 1
  }

  /** str.splitlines: a carriage return and the line feed after it are one break, and a final break
      starts no further line. */
  function SplitLines(s: string): seq<string>
    decreases |s|
  {
    if s == "" then []
    else
      var i := LineEnd(s, 0);
      if i == |s| then [s]
      else [s[..i]] + SplitLines(s[BreakEnd(s, i)..])
  }

  predicate IsBreak(s: string) {
    s == "\r\n" || (|s| == 1 && IsLineBreak(s[0]))
  }

  /** The lines with the breaks behind them; one break less than lines where the text ends in a line. */
  function WithBreaks(lines: seq<string>, breaks: seq<string>): string
    requires |breaks| <= |lines|
    decreases |lines|
  {
    if lines == [] then ""
    else lines[0] + if breaks == [] then WithBreaks(lines[1..], []) else breaks[0] + WithBreaks(lines[1..], breaks[1..])
  }

  /** The lines hold no break, only the last may lack the break behind it, and a line feed behind a carriage return
      belongs to the same break. */
  ghost predicate AreLines(s: string, lines: seq<string>, breaks: seq<string>) {
    |breaks| <= |lines| <= |breaks| + 1 && s == WithBreaks(lines, breaks) &&
    (forall i, c :: 0 <= i < |lines| && c in lines[i] ==> !IsLineBreak(c)) &&
    (forall i :: 0 <= i < |breaks| ==> IsBreak(breaks[i])) &&
    (|lines| > |breaks| ==> lines[|lines| - 1] != "") &&
    forall i :: 0 <= i < |breaks| && breaks[i] == "\r" ==>
      !("\n" <= WithBreaks(lines[i + 1..], breaks[i + 1..]))
  }

  lemma AreLinesCons(s: string, line: string, next: string, rest: string, lines: seq<string>, breaks: seq<string>)
    requires s == line + next + rest && AreLines(rest, lines, breaks) && IsBreak(next)
    requires (forall c :: c in line ==> !IsLineBreak(c)) && (next == "\r" ==> !("\n" <= rest))
    ensures AreLines(s, [line] + lines, [next] + breaks)
  {
    var all, ends := [line] + lines, [next] + breaks;
    assert all[1..] == lines && ends[1..] == breaks;
    assert line + (next + rest) == s;
    forall i | 0 <= i < |ends| && ends[i] == "\r" ensures !("\n" <= WithBreaks(all[i + 1..], ends[i + 1..])) {
      if i > 0 {
        assert all[i + 1..] == lines[i..] && ends[i + 1..] == breaks[i..] && ends[i] == breaks[i - 1];
      }
    }
    assert forall i :: 0 < i < |all| ==> all[i] == lines[i - 1];
  }

  /** The lines of a text are what stands between its line breaks. */
  lemma {:induction false} SplitAtBreaks(s: string) returns (breaks: seq<string>)
    ensures AreLines(s, SplitLines(s), breaks)
    decreases |s|
  {
    breaks := [];
    var i := LineEnd(s, 0);
    if s != "" && i == |s| {
      OneLine(s);
    } else if s != "" {
      var next := BreakEnd(s, i);
      var rest := SplitAtBreaks(s[next..]);
      breaks := [s[i..next]] + rest;
      CutAtBreak(s, i, next);
      assert forall k :: 0 <= k < i ==> !IsLineBreak(s[..i][k]);
      AreLinesCons(s, s[..i], s[i..next], s[next..], SplitLines(s[next..]), rest);
    }
  }

  lemma OneLine(s: string)
    requires s != "" && LineEnd(s, 0) == |s|
    ensures AreLines(s, SplitLines(s), [])
  {
    assert WithBreaks([s], []) == s + WithBreaks([], []);
  }

  lemma CutAtBreak(s: string, i: nat, next: nat)
    requires i < |s| && IsLineBreak(s[i]) && next == BreakEnd(s, i)
    ensures s == s[..i] + s[i..next] + s[next..] && IsBreak(s[i..next])
    ensures s[i..next] == "\r" ==> !("\n" <= s[next..])
  {
    assert s[i..next] == if next == i + 2 then "\r\n" else [s[i]];
    assert next < |s| ==> s[next..][0] == s[next];
  }

  // ---------- Loading ----------

  datatype LoadError = InvalidRecord(number: nat) | WrongType(number: nat)

  /** The records on lines `from` onwards. An unreadable last line is a torn write and is skipped. */
  function LoadFrom<R>(codec: Codec<R>, lines: seq<string>, from: nat): Result<seq<R>, LoadError>
    requires from <= |lines|
    decreases |lines| - from
  {
    if from == |lines| then Success([])
    else if IsBlank(lines[from]) then LoadFrom(codec, lines, from + 1)
    else match codec.decode(lines[from])
      case Invalid => if from == |lines| - 1 then Success([]) else Failure(InvalidRecord(from + 1))
      case NotAnObject => Failure(WrongType(from + 1))
      case Object(r) =>
        var rest := LoadFrom(codec, lines, from + 1);
        if rest.Failure? then rest else Success([r] + rest.value)
  }

  predicate Loadable<R>(codec: Codec<R>, lines: seq<string>, i: nat)
    requires i < |lines|
  {
    IsBlank(lines[i]) || codec.decode(lines[i]).Object? || (codec.decode(lines[i]).Invalid? && i == |lines| - 1)
  }

  /** Loading raises exactly when some line is neither blank, nor an object, nor an unreadable last line. */
  lemma {:induction false} LoadSucceedsExactlyWhen<R>(codec: Codec<R>, lines: seq<string>, from: nat)
    requires from <= |lines|
    ensures LoadFrom(codec, lines, from).Success? <==> forall i :: from <= i < |lines| ==> Loadable(codec, lines, i)
    decreases |lines| - from
  {
    if from < |lines| {
      LoadSucceedsExactlyWhen(codec, lines, from + 1);
      assert LoadFrom(codec, lines, from).Success? <==>
             Loadable(codec, lines, from) && LoadFrom(codec, lines, from + 1).Success?;
    }
  }

  /** What loading raises is about the first line it cannot take, by its number: unreadable, or no object. */
  lemma {:induction false} FirstBadLineReported<R>(codec: Codec<R>, lines: seq<string>, from: nat, i: nat)
    requires from <= i < |lines| && !Loadable(codec, lines, i)
    requires forall k :: from <= k < i ==> Loadable(codec, lines, k)
    ensures LoadFrom(codec, lines, from) ==
      Failure(if codec.decode(lines[i]).Invalid? then InvalidRecord(i + 1) else WrongType(i + 1))
    decreases i - from
  {
    if from < i {
      assert Loadable(codec, lines, from);
      FirstBadLineReported(codec, lines, from + 1, i);
    }
  }

  predicate HoldsObject<R>(codec: Codec<R>, lines: seq<string>, i: nat)
    requires i < |lines|
  {
    !IsBlank(lines[i]) && codec.decode(lines[i]).Object?
  }

  /** The objects on the lines from `from` up to `i`. */
  function CountObjects<R>(codec: Codec<R>, lines: seq<string>, from: nat, i: nat): nat
    requires i <= |lines|
    decreases i - from
  {
    if from >= i then 0
    else (if HoldsObject(codec, lines, from) then 1 else 0) + CountObjects(codec, lines, from + 1, i)
  }

  /** What is loaded are the objects of all lines, each in its place. */
  lemma {:induction false} LoadedInOrder<R>(codec: Codec<R>, lines: seq<string>, from: nat, i: nat)
    requires from <= |lines| && LoadFrom(codec, lines, from).Success?
    ensures |LoadFrom(codec, lines, from).value| == CountObjects(codec, lines, from, |lines|)
    ensures from <= i < |lines| && HoldsObject(codec, lines, i) ==>
      var k := CountObjects(codec, lines, from, i);
      k < |LoadFrom(codec, lines, from).value| &&
      LoadFrom(codec, lines, from).value[k] == codec.decode(lines[i]).record
    decreases |lines| - from
  {
    if from < |lines| {
      if codec.decode(lines[from]).Invalid? && !IsBlank(lines[from]) {
        assert from + 1 == |lines|;
      }
      LoadedInOrder(codec, lines, from + 1, i);
    }
  }

  // ---------- Repairing and appending ----------

  /** str.rfind for a line feed: -1 when there is none. */
  function LastNewline(s: string): (i: int)
    ensures -1 <= i < |s|
    ensures i >= 0 ==> s[i] == '\n'
    ensures forall k :: i < k < |s| ==> s[k] != '\n'
  {
    if s == "" then -1 else if s[|s| - 1] == '\n' then |s| - 1 else LastNewline(s[..|s| - 1])
  }

  /** The text after the repair that precedes every append. */
  function Repaired<R>(codec: Codec<R>, s: string): string {
    if s == "" || s[|s| - 1] == '\n' then s
    else
      var start := LastNewline(s) + 1;
      if codec.decode(s[start..]).Invalid? then s[..start] else s + "\n"
  }

  /** How far an append got before the process died: not even the repair, or so many characters of the
      record and its newline (all of them when it did not die). */
  datatype Progress = BeforeRepair | Wrote(count: nat)

  function Min(a: nat, b: nat): nat {
    if a <= b then a else b
  }

  /** The text after an append that got as far as `progress`. */
  function Appended<R>(codec: Codec<R>, s: string, r: R, progress: Progress): string {
    match progress
    case BeforeRepair => s
    case Wrote(count) =>
      var line := codec.encode(r) + "\n";
      Repaired(codec, s) + line[..Min(count, |line|)]
  }

  /** One log file behind its lock; `content` is None while the file does not exist. */
  class LogFile<R> {
    var content: Option<string>

    constructor ()
      ensures content == None
    {
      content := None;
    }

    function Text(): string
      reads this
    {
      if content.Some? then content.value else ""
    }

    method RepairTrailingRecord(codec: Codec<R>)
      modifies this
      ensures Text() == Repaired(codec, old(Text()))
      ensures content.Some? <==> old(content).Some?
    {
      if content.None? {
        return;
      }
      var text := content.value;
      if text == "" || text[|text| - 1] == '\n' {
        return;
      }
      var lastNewline := LastNewline(text);
      var tail := text[lastNewline + 1..];
      if codec.decode(tail).Invalid? {
        content := Some(text[..lastNewline + 1]);
      } else {
        content := Some(text + "\n");
      }
    }

    method Append(codec: Codec<R>, record: R, progress: Progress)
      modifies this
      ensures Text() == Appended(codec, old(Text()), record, progress)
    {
      if progress.BeforeRepair? {
        return;
      }
      RepairTrailingRecord(codec);
      var line := codec.encode(record) + "\n";
      content := Some(Text() + line[..Min(progress.count, |line|)]);
    }

    method Load(codec: Codec<R>) returns (r: Result<seq<R>, LoadError>)
      ensures r == LoadFrom(codec, SplitLines(Text()), 0)
    {
      if content.None? {
        return Success([]);
      }
      var lines := SplitLines(content.value);
      var records: seq<R> := [];
      var index := 0;
      while index < |lines|
        invariant index <= |lines|
        invariant LoadFrom(codec, lines, index).Failure? ==> LoadFrom(codec, lines, 0) == LoadFrom(codec, lines, index)
        invariant LoadFrom(codec, lines, index).Success? ==>
                    LoadFrom(codec, lines, 0).Success? &&
                    LoadFrom(codec, lines, 0).value == records + LoadFrom(codec, lines, index).value
      {
        var line := lines[index];
        if !IsBlank(line) {
          match codec.decode(line) {
            case Invalid =>
              if index != |lines| - 1 {
                return Failure(InvalidRecord(index + 1));
              }
            case NotAnObject =>
              return Failure(WrongType(index + 1));
            case Object(record) =>
              records := records + [record];
          }
        }
        index := index + 1;
      }
      assert records + [] == records;
      return Success(records);
    }
  }

  // ---------- Crash consistency over every history ----------

  datatype Attempt<+R> = Attempt(record: R, progress: Progress)

  /** The log text after a history of appends, each stopped anywhere. */
  function AfterHistory<R>(codec: Codec<R>, history: seq<Attempt<R>>): string
    decreases |history|
  {
    if history == [] then ""
    else
      var last := history[|history| - 1];
      Appended(codec, AfterHistory(codec, history[..|history| - 1]), last.record, last.progress)
  }

  /** The attempt wrote its whole record, with or without the newline after it. */
  predicate FullyWritten<R>(codec: Codec<R>, a: Attempt<R>) {
    a.progress.Wrote? && a.progress.count >= |codec.encode(a.record)|
  }

  function FullyWrittenRecords<R>(codec: Codec<R>, history: seq<Attempt<R>>): seq<R>
    decreases |history|
  {
    if history == [] then []
    else
      var last := history[|history| - 1];
      FullyWrittenRecords(codec, history[..|history| - 1]) +
      if FullyWritten(codec, last) then [last.record] else []
  }

  function TextOf<R>(codec: Codec<R>, records: seq<R>): string
    decreases |records|
  {
    if records == [] then "" else codec.encode(records[0]) + "\n" + TextOf(codec, records[1..])
  }

  lemma {:induction false} TextOfAppend<R>(codec: Codec<R>, records: seq<R>, r: R)
    ensures TextOf(codec, records + [r]) == TextOf(codec, records) + (codec.encode(r) + "\n")
    decreases |records|
  {
    if records == [] {
      assert ([r])[1..] == [];
    } else {
      assert (records + [r])[1..] == records[1..] + [r];
      TextOfAppend(codec, records[1..], r);
    }
  }

  lemma {:induction false} TextOfEndsLine<R>(codec: Codec<R>, records: seq<R>)
    ensures var s := TextOf(codec, records); s == "" || s[|s| - 1] == '\n'
    decreases |records|
  {
    if records != [] {
      TextOfEndsLine(codec, records[1..]);
    }
  }

  /** A strict prefix of some record's text. */
  ghost predicate Torn<R(!new)>(codec: Codec<R>, tail: string) {
    tail == "" || exists r, n: nat :: n < |codec.encode(r)| && tail == codec.encode(r)[..n]
  }

  /** The only texts a history can leave: whole lines and a torn tail, or whole lines of which the last
      lacks its newline. */
  ghost predicate Holds<R(!new)>(codec: Codec<R>, s: string, records: seq<R>) {
    (exists tail :: Torn(codec, tail) && s == TextOf(codec, records) + tail) ||
    (records != [] && s + "\n" == TextOf(codec, records))
  }

  lemma RepairedTail<R>(codec: Codec<R>, whole: string, tail: string)
    requires whole == "" || whole[|whole| - 1] == '\n'
    requires tail != "" && forall i :: 0 <= i < |tail| ==> tail[i] != '\n'
    ensures Repaired(codec, whole + tail) == if codec.decode(tail).Invalid? then whole else whole + tail + "\n"
  {
    LastNewlineBefore(whole, tail);
    var s := whole + tail;
    assert s[|s| - 1] == tail[|tail| - 1];
    assert s[|whole|..] == tail && s[..|whole|] == whole;
  }

  lemma TornTailUnreadable<R(!new)>(codec: Codec<R>, tail: string)
    requires ValidCodec(codec) && Torn(codec, tail) && tail != ""
    ensures codec.decode(tail) == Invalid && !IsBlank(tail)
    ensures forall i :: 0 <= i < |tail| ==> !IsLineBreak(tail[i])
  {
    var r, n: nat :| n < |codec.encode(r)| && tail == codec.encode(r)[..n];
    assert Encodes(codec, r);
    assert tail[0] in tail;
  }

  lemma RepairedHolds<R(!new)>(codec: Codec<R>, s: string, records: seq<R>)
    requires ValidCodec(codec) && Holds(codec, s, records)
    ensures Repaired(codec, s) == TextOf(codec, records)
  {
    var whole := TextOf(codec, records);
    TextOfEndsLine(codec, records);
    if tail :| Torn(codec, tail) && s == whole + tail {
      if tail == "" {
        assert s == whole;
      } else {
        TornTailUnreadable(codec, tail);
        RepairedTail(codec, whole, tail);
      }
    } else {
      var last, before := records[|records| - 1], records[..|records| - 1];
      assert records == before + [last];
      TextOfAppend(codec, before, last);
      TextOfEndsLine(codec, before);
      DropFinalNewline(s, TextOf(codec, before) + codec.encode(last));
      assert Encodes(codec, last);
      RepairedTail(codec, TextOf(codec, before), codec.encode(last));
    }
  }

  lemma {:induction false} LastNewlineBefore(whole: string, tail: string)
    requires whole == "" || whole[|whole| - 1] == '\n'
    requires forall i :: 0 <= i < |tail| ==> tail[i] != '\n'
    ensures LastNewline(whole + tail) == |whole| - 1
  {
    var s := whole + tail;
    assert whole != "" ==> s[|whole| - 1] == '\n';
    assert forall k :: |whole| <= k < |s| ==> s[k] == tail[k - |whole|];
  }

  lemma DropFinalNewline(s: string, t: string)
    requires s + "\n" == t + "\n"
    ensures s == t
  {
    assert s == (s + "\n")[..|s|] && t == (t + "\n")[..|t|];
  }

  lemma AppendKeepsShape<R(!new)>(codec: Codec<R>, s: string, records: seq<R>, a: Attempt<R>)
    requires ValidCodec(codec) && Holds(codec, s, records)
    ensures Holds(codec, Appended(codec, s, a.record, a.progress),
                  records + if FullyWritten(codec, a) then [a.record] else [])
  {
    if a.progress.Wrote? {
      RepairedHolds(codec, s, records);
      var text, count := codec.encode(a.record), a.progress.count;
      var line := text + "\n";
      if count < |text| {
        assert line[..count] == text[..count];
        TornTailHolds(codec, records, text[..count]);
      } else {
        TextOfAppend(codec, records, a.record);
        if count == |text| {
          assert line[..count] == text;
          assert (TextOf(codec, records) + text) + "\n" == TextOf(codec, records + [a.record]);
        } else {
          assert line[..|line|] == line;
          TornTailHolds(codec, records + [a.record], "");
        }
      }
    }
    assert records + [] == records;
  }

  lemma TornTailHolds<R(!new)>(codec: Codec<R>, records: seq<R>, tail: string)
    requires Torn(codec, tail)
    ensures Holds(codec, TextOf(codec, records) + tail, records)
    ensures tail == "" ==> Holds(codec, TextOf(codec, records), records)
  {
    assert tail == "" ==> TextOf(codec, records) + tail == TextOf(codec, records);
  }

  lemma {:induction false} HistoryShape<R(!new)>(codec: Codec<R>, history: seq<Attempt<R>>)
    requires ValidCodec(codec)
    ensures Holds(codec, AfterHistory(codec, history), FullyWrittenRecords(codec, history))
    decreases |history|
  {
    if history == [] {
      assert Torn(codec, "");
      assert TextOf(codec, FullyWrittenRecords(codec, history)) + "" == "";
    } else {
      var before := history[..|history| - 1];
      HistoryShape(codec, before);
      AppendKeepsShape(codec, AfterHistory(codec, before), FullyWrittenRecords(codec, before), history[|history| - 1]);
    }
  }

  /** Lines of a text made of whole records and a break-free tail. */
  function LinesOf<R>(codec: Codec<R>, records: seq<R>, tail: string): seq<string>
    decreases |records|
  {
    if records == [] then if tail == "" then [] else [tail]
    else [codec.encode(records[0])] + LinesOf(codec, records[1..], tail)
  }

  lemma {:induction false} SplitRecords<R(!new)>(codec: Codec<R>, records: seq<R>, tail: string)
    requires ValidCodec(codec) && forall i :: 0 <= i < |tail| ==> !IsLineBreak(tail[i])
    ensures SplitLines(TextOf(codec, records) + tail) == LinesOf(codec, records, tail)
    decreases |records|
  {
    var s := TextOf(codec, records) + tail;
    if records == [] {
      assert s == tail;
    } else {
      var text := codec.encode(records[0]);
      assert Encodes(codec, records[0]);
      assert s[..|text|] == text && s[|text|] == '\n';
      var i := LineEnd(s, 0);
      assert forall k :: 0 <= k < |text| ==> s[k] == text[k];
      assert i == |text|;
      assert s[|text| + 1..] == TextOf(codec, records[1..]) + tail;
      SplitRecords(codec, records[1..], tail);
    }
  }

  lemma {:induction false} LoadDropsFirst<R>(codec: Codec<R>, lines: seq<string>, from: nat)
    requires 0 < from <= |lines|
    ensures LoadFrom(codec, lines, from).Success? <==> LoadFrom(codec, lines[1..], from - 1).Success?
    ensures LoadFrom(codec, lines, from).Success? ==>
              LoadFrom(codec, lines, from).value == LoadFrom(codec, lines[1..], from - 1).value
    decreases |lines| - from
  {
    if from < |lines| {
      LoadDropsFirst(codec, lines, from + 1);
    }
  }

  lemma {:induction false} LoadRecords<R(!new)>(codec: Codec<R>, records: seq<R>, tail: string)
    requires ValidCodec(codec) && Torn(codec, tail)
    ensures LoadFrom(codec, LinesOf(codec, records, tail), 0) == Success(records)
    decreases |records|
  {
    var lines := LinesOf(codec, records, tail);
    if records == [] {
      if tail != "" {
        TornTailUnreadable(codec, tail);
      }
    } else {
      var text := codec.encode(records[0]);
      assert Encodes(codec, records[0]);
      assert text[0] in text;
      LoadRecords(codec, records[1..], tail);
      assert lines[1..] == LinesOf(codec, records[1..], tail);
      LoadDropsFirst(codec, lines, 1);
      assert [records[0]] + records[1..] == records;
    }
  }

  /** After any history of appends, each stopped at any point and repaired by the next, loading raises
      nothing and returns exactly the records that were fully written, in order. */
  lemma LoadAfterAnyHistory<R(!new)>(codec: Codec<R>, history: seq<Attempt<R>>)
    requires ValidCodec(codec)
    ensures LoadFrom(codec, SplitLines(AfterHistory(codec, history)), 0) ==
            Success(FullyWrittenRecords(codec, history))
  {
    HistoryShape(codec, history);
    var s, records := AfterHistory(codec, history), FullyWrittenRecords(codec, history);
    if tail :| Torn(codec, tail) && s == TextOf(codec, records) + tail {
      if tail != "" {
        TornTailUnreadable(codec, tail);
      }
      SplitRecords(codec, records, tail);
      LoadRecords(codec, records, tail);
    } else {
      var last, before := records[|records| - 1], records[..|records| - 1];
      assert records == before + [last];
      TextOfAppend(codec, before, last);
      DropFinalNewline(s, TextOf(codec, before) + codec.encode(last));
      assert Encodes(codec, last);
      SplitRecords(codec, before, codec.encode(last));
      LastLineNeedsNoNewline(codec, before, last);
      LoadRecords(codec, records, "");
    }
  }

  lemma {:induction false} LastLineNeedsNoNewline<R>(codec: Codec<R>, before: seq<R>, last: R)
    requires codec.encode(last) != ""
    ensures LinesOf(codec, before, codec.encode(last)) == LinesOf(codec, before + [last], "")
    decreases |before|
  {
    if before == [] {
      assert ([last])[1..] == [];
      assert LinesOf(codec, [last], "") == [codec.encode(last)] + LinesOf(codec, [], "");
    } else {
      assert (before + [last])[1..] == before[1..] + [last];
      LastLineNeedsNoNewline(codec, before[1..], last);
    }
  }

  /** The repair is idempotent: dying in the middle of it and repairing again changes nothing. */
  lemma RepairIdempotent<R>(codec: Codec<R>, s: string)
    ensures Repaired(codec, Repaired(codec, s)) == Repaired(codec, s)
  {
    var start := LastNewline(s) + 1;
    if start > 0 {
      assert s[..start][start - 1] == '\n';
    }
  }
}
