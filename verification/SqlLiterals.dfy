/** The quoted literals of a SQL text and what stands in front of them (cli/shared/sql_json_paths.py). */
module SqlLiterals {
  import opened Wrappers
  import opened Text

  // ---------- Finding them ----------

  datatype Span = Span(start: nat, end: nat)

  predicate IsQuote(c: char) {
    c == '\'' || c == '"'
  }

  /** The quoted literals of a text, left to right: a quote and everything up to the next quote of its kind. */
  function FindStringLiterals(s: string, from: nat): (spans: seq<Span>)
    requires from <= |s|
    ensures InOrder(s, spans, from)
    decreases |s| - from
  {
    if from == |s| then []
    else if s[from] == '\'' || s[from] == '"' then
      var close := IndexOf(s, from + 1, s[from]);
      if close < |s| then [Span(from, close + 1)] + FindStringLiterals(s, close + 1)
      else FindStringLiterals(s, from + 1)
    else FindStringLiterals(s, from + 1)
  }

  /** Non-overlapping quoted spans, left to right, at or after `from`. */
  predicate InOrder(s: string, spans: seq<Span>, from: nat)
    decreases |spans|
  {
    spans == [] ||
    (from <= spans[0].start && spans[0].start + 2 <= spans[0].end <= |s| &&
     (s[spans[0].start] == '\'' || s[spans[0].start] == '"') &&
     InOrder(s, spans[1..], spans[0].end))
  }

  // ---------- All of them, and nothing else ----------

  /** A quote, and up to the next quote of its kind. */
  predicate IsLiteral(s: string, span: Span) {
    span.start + 2 <= span.end <= |s| && s[span.start] in "'\"" && s[span.end - 1] == s[span.start] &&
    forall i :: span.start < i < span.end - 1 ==> s[i] != s[span.start]
  }

  predicate Unpaired(s: string, i: nat)
    requires i < |s|
  {
    s[i] in "'\"" ==> forall j :: i < j < |s| ==> s[j] != s[i]
  }

  /** No quote between the two places has a partner later in the text. */
  predicate NoneOpens(s: string, from: nat, end: nat)
    requires end <= |s|
  {
    forall i :: from <= i < end ==> Unpaired(s, i)
  }

  /** The spans are literals, each after the one before, and no quote outside them has a partner behind it. */
  predicate AreLiterals(s: string, spans: seq<Span>, from: nat)
    requires from <= |s|
    decreases |spans|
  {
    if spans == [] then NoneOpens(s, from, |s|)
    else
      IsLiteral(s, spans[0]) && from <= spans[0].start && NoneOpens(s, from, spans[0].start) &&
      AreLiterals(s, spans[1..], spans[0].end)
  }

  /** Every text has exactly one such list of literals, the one found. */
  lemma {:induction false} LiteralsFoundExactlyWhen(s: string, from: nat, spans: seq<Span>)
    requires from <= |s|
    ensures AreLiterals(s, spans, from) <==> spans == FindStringLiterals(s, from)
    decreases |s| - from
  {
    FoundAreLiterals(s, from);
    if AreLiterals(s, spans, from) {
      OneListOfLiterals(s, from, spans, FindStringLiterals(s, from));
    }
  }

  lemma {:induction false} FoundAreLiterals(s: string, from: nat)
    requires from <= |s|
    ensures AreLiterals(s, FindStringLiterals(s, from), from)
    decreases |s| - from
  {
    if from < |s| {
      if IsQuote(s[from]) && IndexOf(s, from + 1, s[from]) < |s| {
        FoundAreLiterals(s, IndexOf(s, from + 1, s[from]) + 1);
      } else {
        FoundAreLiterals(s, from + 1);
        assert Unpaired(s, from);
      }
    }
  }

  lemma SameFirst(s: string, from: nat, a: Span, b: Span)
    requires IsLiteral(s, a) && IsLiteral(s, b) && from <= a.start && from <= b.start
    requires NoneOpens(s, from, a.start) && NoneOpens(s, from, b.start)
    ensures a == b
  {
    assert !Unpaired(s, a.start) && !Unpaired(s, b.start);
  }

  lemma {:induction false} OneListOfLiterals(s: string, from: nat, a: seq<Span>, b: seq<Span>)
    requires from <= |s| && AreLiterals(s, a, from) && AreLiterals(s, b, from)
    ensures a == b
    decreases |a|
  {
    if a == [] || b == [] {
      assert a != [] ==> !Unpaired(s, a[0].start);
      assert b != [] ==> !Unpaired(s, b[0].start);
    } else {
      SameFirst(s, from, a[0], b[0]);
      OneListOfLiterals(s, a[0].end, a[1..], b[1..]);
      assert a == [a[0]] + a[1..] && b == [b[0]] + b[1..];
    }
  }

  // ---------- Character by character ----------

  /** The quote that is open in front of character `i`, reading from the left: a quote opens if it has a partner. */
  function OpenQuote(s: string, i: nat): Option<char>
    requires i <= |s|
  {
    if i == 0 then None
    else
      var before, c := OpenQuote(s, i - 1), s[i - 1];
      if before.Some? then if c == before.value then None else before
      else if c in "'\"" && c in s[i..] then Some(c)
      else None
  }

  predicate Covered(spans: seq<Span>, i: nat) {
    exists k :: 0 <= k < |spans| && spans[k].start <= i < spans[k].end
  }

  lemma {:induction false} StaysOpen(s: string, span: Span, i: nat)
    requires IsLiteral(s, span) && OpenQuote(s, span.start) == None && span.start < i <= span.end
    ensures OpenQuote(s, i) == if i < span.end then Some(s[span.start]) else None
    decreases i
  {
    if i == span.start + 1 {
      assert s[i..][span.end - 1 - i] == s[span.start];
    } else {
      StaysOpen(s, span, i - 1);
    }
  }

  lemma {:induction false} StaysClosed(s: string, from: nat, i: nat)
    requires from <= i <= |s| && OpenQuote(s, from) == None && NoneOpens(s, from, i)
    ensures OpenQuote(s, i) == None
    decreases i
  {
    if i > from {
      StaysClosed(s, from, i - 1);
      assert Unpaired(s, i - 1);
      assert forall j :: 0 <= j < |s[i..]| ==> s[i..][j] == s[i + j];
    }
  }

  lemma CoveredCons(spans: seq<Span>, i: nat)
    requires spans != []
    ensures Covered(spans, i) <==> spans[0].start <= i < spans[0].end || Covered(spans[1..], i)
  {
    if Covered(spans[1..], i) {
      var k :| 0 <= k < |spans[1..]| && spans[1..][k].start <= i < spans[1..][k].end;
      assert spans[k + 1] == spans[1..][k];
    }
    if Covered(spans, i) && !(spans[0].start <= i < spans[0].end) {
      var k :| 0 <= k < |spans| && spans[k].start <= i < spans[k].end;
      assert spans[1..][k - 1] == spans[k];
    }
  }

  lemma {:induction false} CoveredAhead(s: string, spans: seq<Span>, from: nat, i: nat)
    requires from <= i < |s| && AreLiterals(s, spans, from) && OpenQuote(s, from) == None
    ensures Covered(spans, i) <==> OpenQuote(s, i).Some? || OpenQuote(s, i + 1).Some?
    decreases |spans|
  {
    if spans == [] {
      StaysClosed(s, from, i);
      StaysClosed(s, from, i + 1);
    } else {
      var span := spans[0];
      CoveredCons(spans, i);
      StaysClosed(s, from, span.start);
      if i < span.start {
        StaysClosed(s, from, i);
        StaysClosed(s, from, i + 1);
        NotCoveredBefore(s, spans[1..], span.end, i);
      } else if i < span.end {
        if i > span.start {
          StaysOpen(s, span, i);
        }
        StaysOpen(s, span, i + 1);
      } else {
        StaysOpen(s, span, span.end);
        CoveredAhead(s, spans[1..], span.end, i);
      }
    }
  }

  lemma {:induction false} NotCoveredBefore(s: string, spans: seq<Span>, from: nat, i: nat)
    requires i < from <= |s| && AreLiterals(s, spans, from)
    ensures !Covered(spans, i)
    decreases |spans|
  {
    if spans != [] {
      CoveredCons(spans, i);
      NotCoveredBefore(s, spans[1..], spans[0].end, i);
    }
  }

  /** A character is part of a literal exactly when, reading from the left, a quote is open in front of it or it opens
      one that has a partner. */
  lemma InLiteralExactlyWhen(s: string, i: nat)
    requires i < |s|
    ensures Covered(FindStringLiterals(s, 0), i) <==>
      OpenQuote(s, i).Some? || (s[i] in "'\"" && s[i] in s[i + 1..])
  {
    FoundAreLiterals(s, 0);
    CoveredAhead(s, FindStringLiterals(s, 0), 0, i);
  }

  // ---------- What stands in front ----------

  predicate FollowsJsonOperator(before: string) {
    var t := RightStrip(before);
    EndsWith(t, "->>") || EndsWith(t, "->") || EndsWith(t, "#>>") || EndsWith(t, "#>")
  }

  predicate AllSpaces(s: string) {
    forall i :: 0 <= i < |s| ==> IsSpace(s[i])
  }

  lemma {:induction false} RightStripEnds(s: string)
    ensures RightStrip(s) <= s && AllSpaces(s[|RightStrip(s)|..])
    ensures RightStrip(s) != "" ==> !IsSpace(RightStrip(s)[|RightStrip(s)| - 1])
    decreases |s|
  {
    if s != "" && IsSpace(s[|s| - 1]) {
      var rest := s[..|s| - 1];
      RightStripEnds(rest);
      forall i | |RightStrip(s)| <= i < |s| ensures IsSpace(s[i]) {
        if i < |rest| {
          assert rest[|RightStrip(s)|..][i - |RightStrip(s)|] == s[i];
        }
      }
    }
  }

  /** The text ends in the word and then spaces only. */
  ghost predicate EndsInWord(s: string, word: string, j: nat) {
    |word| <= j <= |s| && s[j - |word|..j] == word && AllSpaces(s[j..])
  }

  lemma SpacesFrom(s: string, j: nat)
    requires j <= |s| && AllSpaces(s[j..])
    ensures forall k :: j <= k < |s| ==> IsSpace(s[k])
  {
    assert forall k :: j <= k < |s| ==> s[k] == s[j..][k - j];
  }

  lemma LastNonSpace(s: string, j: nat)
    requires 0 < j <= |s| && AllSpaces(s[j..]) && !IsSpace(s[j - 1])
    ensures |RightStrip(s)| == j
  {
    RightStripEnds(s);
    SpacesFrom(s, j);
    SpacesFrom(s, |RightStrip(s)|);
  }

  lemma StrippedEnd(s: string, word: string)
    requires word != "" && !IsSpace(word[|word| - 1])
    ensures EndsWith(RightStrip(s), word) <==> exists j: nat :: EndsInWord(s, word, j)
  {
    RightStripEnds(s);
    if EndsWith(RightStrip(s), word) {
      assert EndsInWord(s, word, |RightStrip(s)|);
    }
    if exists j: nat :: EndsInWord(s, word, j) {
      var j: nat :| EndsInWord(s, word, j);
      assert s[j - 1] == word[|word| - 1];
      LastNonSpace(s, j);
    }
  }

  /** Only spaces stand between a JSON operator and the end. */
  lemma FollowsOperatorExactlyWhen(before: string)
    ensures FollowsJsonOperator(before) <==>
      exists j: nat, op: string :: op in {"->", "->>", "#>", "#>>"} && EndsInWord(before, op, j)
  {
    StrippedEnd(before, "->");
    StrippedEnd(before, "->>");
    StrippedEnd(before, "#>");
    StrippedEnd(before, "#>>");
  }

  predicate IsLetter(c: char) {
    'A' <= c <= 'Z' || 'a' <= c <= 'z' || c == '_'
  }

  function WordStart(s: string): (i: nat)
    ensures i <= |s|
    decreases |s|
  {
    if s != "" && (IsLetter(s[|s| - 1]) || IsDigit(s[|s| - 1])) then WordStart(s[..|s| - 1]) else |s|
  }

  function DropDigits(s: string): (rest: string)
    ensures |rest| <= |s|
    decreases |s|
  {
    if s != "" && IsDigit(s[0]) then DropDigits(s[1..]) else s
  }

  /** The identifier in front of the spaces at the end of the text; "" when there is none. */
  function LastName(s: string): (name: string)
    ensures |name| <= |RightStrip(s)|
  {
    var t := RightStrip(s);
    DropDigits(t[WordStart(t)..])
  }

  predicate IsIdentifier(s: string) {
    s != "" && IsLetter(s[0]) && forall i :: 0 <= i < |s| ==> IsLetter(s[i]) || IsDigit(s[i])
  }

  /** An identifier, as long as it goes, from `i` to `j` and only spaces behind it. */
  ghost predicate NameAt(s: string, i: nat, j: nat) {
    i <= j <= |s| && IsIdentifier(s[i..j]) && AllSpaces(s[j..]) && forall k :: 0 <= k < i ==> !IsIdentifier(s[k..j])
  }

  lemma {:induction false} WordStartIs(s: string)
    ensures forall i :: WordStart(s) <= i < |s| ==> IsLetter(s[i]) || IsDigit(s[i])
    ensures WordStart(s) > 0 ==> !IsLetter(s[WordStart(s) - 1]) && !IsDigit(s[WordStart(s) - 1])
    decreases |s|
  {
    if s != "" && (IsLetter(s[|s| - 1]) || IsDigit(s[|s| - 1])) {
      WordStartIs(s[..|s| - 1]);
    }
  }

  lemma {:induction false} DropDigitsIs(s: string)
    ensures var n := |s| - |DropDigits(s)|;
            s[n..] == DropDigits(s) && (forall i :: 0 <= i < n ==> IsDigit(s[i])) &&
            (n < |s| ==> !IsDigit(s[n]))
    decreases |s|
  {
    if s != "" && IsDigit(s[0]) {
      DropDigitsIs(s[1..]);
    }
  }

  /** In a word, the first character that is no digit starts the only longest identifier up to its end. */
  lemma NameInWord(t: string, w: nat, n: nat)
    requires w <= n < |t| && forall i :: w <= i < |t| ==> IsLetter(t[i]) || IsDigit(t[i])
    requires w > 0 ==> !IsLetter(t[w - 1]) && !IsDigit(t[w - 1])
    requires (forall i :: w <= i < n ==> IsDigit(t[i])) && !IsDigit(t[n])
    ensures IsIdentifier(t[n..]) && forall k :: 0 <= k < n ==> !IsIdentifier(t[k..])
  {
    forall k | 0 <= k < n ensures !IsIdentifier(t[k..]) {
      assert t[k..][0] == t[k];
      if k < w {
        assert t[k..][w - 1 - k] == t[w - 1];
      }
    }
  }

  /** Where the last name starts, in terms of the whole text. */
  lemma NameDropped(t: string, w: nat, word: string, n: nat)
    requires w <= |t| && word == t[w..] && n == |t| - |DropDigits(word)|
    ensures w <= n && t[n..] == DropDigits(word)
    ensures (forall i :: w <= i < n ==> IsDigit(t[i])) && (n < |t| ==> !IsDigit(t[n]))
  {
    DropDigitsIs(word);
    assert forall k :: w <= k < |t| ==> t[k] == word[k - w];
    assert t[n..] == word[n - w..];
  }

  lemma WordFound(t: string, n: nat)
    requires LastName(t) != "" && RightStrip(t) == t && n == |t| - |LastName(t)|
    ensures t[n..] == LastName(t) && IsIdentifier(t[n..])
    ensures forall k :: 0 <= k < n ==> !IsIdentifier(t[k..])
  {
    var w := WordStart(t);
    WordStartIs(t);
    NameDropped(t, w, t[w..], n);
    NameInWord(t, w, n);
  }

  lemma {:induction false} StripTwice(s: string)
    ensures RightStrip(RightStrip(s)) == RightStrip(s)
    decreases |s|
  {
    if s != "" && IsSpace(s[|s| - 1]) {
      StripTwice(s[..|s| - 1]);
    }
  }

  lemma NameFound(s: string, i: nat, j: nat)
    requires LastName(s) != "" && j == |RightStrip(s)| && i == j - |LastName(s)|
    ensures NameAt(s, i, j) && s[i..j] == LastName(s)
  {
    var t := RightStrip(s);
    RightStripEnds(s);
    StripTwice(s);
    WordFound(t, i);
    assert forall k :: 0 <= k <= j ==> s[k..j] == t[k..];
  }

  lemma NameIsLast(s: string, i: nat, j: nat)
    requires NameAt(s, i, j)
    ensures j == |RightStrip(s)| && LastName(s) != ""
  {
    assert s[i..j][j - 1 - i] == s[j - 1] && s[i..j][0] == s[i];
    LastNonSpace(s, j);
    var t := RightStrip(s);
    RightStripEnds(s);
    var w := WordStart(t);
    WordStartIs(t);
    DropDigitsIs(t[w..]);
    assert forall k :: i <= k < j ==> t[k] == s[i..j][k - i];
    assert forall k :: w <= k < |t| ==> t[w..][k - w] == t[k];
  }

  lemma NameStartsOnce(s: string, i: nat, k: nat, j: nat)
    requires NameAt(s, i, j) && NameAt(s, k, j)
    ensures i == k
  {
  }

  /** The last name of a text is the longest identifier that only spaces follow. */
  lemma LastNameExactlyWhen(s: string, name: string)
    requires name != ""
    ensures LastName(s) == name <==> exists i: nat, j: nat :: NameAt(s, i, j) && s[i..j] == name
  {
    if LastName(s) == name {
      NameFound(s, |RightStrip(s)| - |name|, |RightStrip(s)|);
    }
    if exists i: nat, j: nat :: NameAt(s, i, j) && s[i..j] == name {
      var i: nat, j: nat :| NameAt(s, i, j) && s[i..j] == name;
      NameIsLast(s, i, j);
      NameFound(s, j - |LastName(s)|, j);
      NameStartsOnce(s, i, j - |LastName(s)|, j);
    }
  }

}
