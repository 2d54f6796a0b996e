/** Filling the question marks of a query (cli/shared/parameter_prompt.py). */
module MarkFilling {
  import opened Wrappers
  import opened Text
  import opened PromptValues

  // ---------- Question marks ----------

  /** The end of the literal at the head of the text; 0 when there is none. */
  function LiteralEnd(s: string): (n: nat)
    ensures n == 0 || 2 <= n <= |s|
  {
    if s != "" && s[0] == '\'' && IndexOf(s, 1, '\'') < |s| then IndexOf(s, 1, '\'') + 1 else 0
  }

  /** The text with every literal blanked out, same length. */
  function Blanked(s: string): (m: string)
    ensures |m| == |s|
    decreases |s|
  {
    if s == "" then ""
    else
      var n := LiteralEnd(s);
      if n > 0 then Repeat(NUL, n) + Blanked(s[n..]) else [s[0]] + Blanked(s[1..])
  }

  /** Reading from the left: a quote is open in front of character `i`; one opens if it has a partner. */
  predicate QuoteOpen(s: string, i: nat)
    requires i <= |s|
  {
    i > 0 && if QuoteOpen(s, i - 1) then s[i - 1] != '\'' else s[i - 1] == '\'' && '\'' in s[i..]
  }

  lemma {:induction false} QuoteOpenAhead(s: string, n: nat, i: nat)
    requires n <= |s| && i <= |s[n..]| && !QuoteOpen(s, n)
    ensures QuoteOpen(s[n..], i) <==> QuoteOpen(s, n + i)
  {
    if i > 0 {
      QuoteOpenAhead(s, n, i - 1);
      assert s[n..][i..] == s[n + i..] && s[n..][i - 1] == s[n + i - 1];
    }
  }

  lemma {:induction false} QuoteOpenInside(s: string, i: nat)
    requires LiteralEnd(s) > 0 && 0 < i <= LiteralEnd(s)
    ensures QuoteOpen(s, i) <==> i < LiteralEnd(s)
  {
    if i > 1 {
      QuoteOpenInside(s, i - 1);
    } else {
      assert s[1..][LiteralEnd(s) - 2] == '\'';
    }
  }

  /** What blanking makes of character `i`. */
  function BlankedAt(s: string, i: nat): char
    requires i < |s|
  {
    if QuoteOpen(s, i) || (s[i] == '\'' && '\'' in s[i + 1..]) then NUL else s[i]
  }

  lemma BlankedAhead(s: string, n: nat, i: nat)
    requires n <= i < |s| && !QuoteOpen(s, n)
    ensures BlankedAt(s[n..], i - n) == BlankedAt(s, i)
  {
    QuoteOpenAhead(s, n, i - n);
    assert s[n..][i - n + 1..] == s[i + 1..] && s[n..][i - n] == s[i];
  }

  lemma BlankedInLiteral(s: string, i: nat)
    requires i < LiteralEnd(s)
    ensures BlankedAt(s, i) == NUL
  {
    if i > 0 {
      QuoteOpenInside(s, i);
    } else {
      assert s[1..][LiteralEnd(s) - 2] == '\'';
    }
  }

  /** Blanking hits exactly the characters of literals: those behind an open quote, and a quote that has a partner. */
  lemma {:induction false} BlankedExactlyWhen(s: string, i: nat)
    requires i < |s|
    ensures Blanked(s)[i] == BlankedAt(s, i)
    decreases |s|
  {
    var n := LiteralEnd(s);
    if i < n {
      BlankedInLiteral(s, i);
    } else if n > 0 {
      QuoteOpenInside(s, n);
      BlankedExactlyWhen(s[n..], i - n);
      BlankedAhead(s, n, i);
    } else {
      NotOpened(s);
      if i > 0 {
        BlankedExactlyWhen(s[1..], i - 1);
        BlankedAhead(s, 1, i);
      }
    }
  }

  lemma NotOpened(s: string)
    requires s != "" && LiteralEnd(s) == 0
    ensures !QuoteOpen(s, 1) && (s[0] == '\'' ==> '\'' !in s[1..])
  {
    if s[0] == '\'' {
      assert forall k :: 0 <= k < |s[1..]| ==> s[1..][k] == s[k + 1];
    }
  }

  /** The text with every literal replaced by `literal`. */
  function WithLiterals(s: string, literal: string): string
    decreases |s|
  {
    if s == "" then ""
    else
      var n := LiteralEnd(s);
      if n > 0 then literal + WithLiterals(s[n..], literal) else [s[0]] + WithLiterals(s[1..], literal)
  }

  function Questions(s: string): nat
    decreases |s|
  {
    if s == "" then 0 else (if s[0] == '?' then 1 else 0) + Questions(s[1..])
  }

  /** values.get(position, "?"). */
  function ValueAt(values: Values, n: nat): Value {
    if n in values then values[n] else Str("?")
  }

  /** The text cut at the question marks of its blanked form. */
  function Cut(s: string, blanked: string): (texts: seq<string>)
    requires |blanked| == |s|
    ensures texts != []
    decreases |s|
  {
    if s == "" then [""]
    else
      var rest := Cut(s[1..], blanked[1..]);
      if blanked[0] == '?' then [""] + rest else [[s[0]] + rest[0]] + rest[1..]
  }

  /** The texts with the literals of the values numbered from `first` between them. */
  function Join(texts: seq<string>, values: Values, first: nat): string
    requires texts != []
    decreases |texts|
  {
    if |texts| == 1 then texts[0]
    else texts[0] + Literal(ValueAt(values, first)) + Join(texts[1..], values, first + 1)
  }

  /** The texts with question marks between them. */
  function Rejoin(texts: seq<string>): string
    requires texts != []
    decreases |texts|
  {
    if |texts| == 1 then texts[0] else texts[0] + "?" + Rejoin(texts[1..])
  }

  function FillFrom(s: string, blanked: string, values: Values, n: nat): string
    requires |blanked| == |s|
    decreases |s|
  {
    if s == "" then ""
    else if blanked[0] == '?' then Literal(ValueAt(values, n)) + FillFrom(s[1..], blanked[1..], values, n + 1)
    else [s[0]] + FillFrom(s[1..], blanked[1..], values, n)
  }

  lemma JoinEmpty(texts: seq<string>, values: Values, n: nat)
    requires texts != []
    ensures Join([""] + texts, values, n) == Literal(ValueAt(values, n)) + Join(texts, values, n + 1)
  {
    assert ([""] + texts)[1..] == texts;
  }

  lemma JoinLonger(c: char, texts: seq<string>, values: Values, n: nat)
    requires texts != []
    ensures Join([[c] + texts[0]] + texts[1..], values, n) == [c] + Join(texts, values, n)
  {
    assert ([[c] + texts[0]] + texts[1..])[1..] == texts[1..];
  }

  lemma {:induction false} FillIsJoin(s: string, blanked: string, values: Values, n: nat)
    requires |blanked| == |s|
    ensures FillFrom(s, blanked, values, n) == Join(Cut(s, blanked), values, n)
    decreases |s|
  {
    if s != "" {
      var rest := Cut(s[1..], blanked[1..]);
      if blanked[0] == '?' {
        FillIsJoin(s[1..], blanked[1..], values, n + 1);
        JoinEmpty(rest, values, n);
      } else {
        FillIsJoin(s[1..], blanked[1..], values, n);
        JoinLonger(s[0], rest, values, n);
      }
    }
  }

  predicate MarksAgree(s: string, blanked: string) {
    |blanked| == |s| && forall i :: 0 <= i < |s| && blanked[i] == '?' ==> s[i] == '?'
  }

  lemma MarksAgreeAppend(whole: string, blanked: string, s: string, t: string, b: string, c: string)
    requires whole == s + t && blanked == b + c && MarksAgree(s, b) && MarksAgree(t, c)
    ensures MarksAgree(whole, blanked)
  {
  }

  lemma {:induction false} BlankedKeepsMarks(s: string)
    ensures MarksAgree(s, Blanked(s))
    decreases |s|
  {
    if s != "" {
      var n := LiteralEnd(s);
      var k, head := if n > 0 then n else 1, if n > 0 then Repeat(NUL, n) else [s[0]];
      BlankedKeepsMarks(s[k..]);
      assert s == s[..k] + s[k..];
      MarksAgreeAppend(s, Blanked(s), s[..k], s[k..], head, Blanked(s[k..]));
    }
  }

  lemma {:induction false} CutRejoins(s: string, blanked: string)
    requires MarksAgree(s, blanked)
    ensures Rejoin(Cut(s, blanked)) == s && |Cut(s, blanked)| == Questions(blanked) + 1
    decreases |s|
  {
    if s != "" {
      forall i | 0 <= i < |s[1..]| && blanked[1..][i] == '?' ensures s[1..][i] == '?' {
        assert blanked[i + 1] == '?';
      }
      CutRejoins(s[1..], blanked[1..]);
      var rest := Cut(s[1..], blanked[1..]);
      assert s == [s[0]] + s[1..];
      if blanked[0] == '?' {
        assert ([""] + rest)[1..] == rest;
      } else {
        assert ([[s[0]] + rest[0]] + rest[1..])[1..] == rest[1..];
      }
    }
  }

  /** The question marks that substitution fills are those that detection counts. */
  lemma {:induction false} DetectedAreFilled(s: string, literal: string)
    requires Questions(literal) == 0
    ensures Questions(Blanked(s)) == Questions(WithLiterals(s, literal))
    decreases |s|
  {
    if s != "" {
      var n := LiteralEnd(s);
      if n > 0 {
        DetectedAreFilled(s[n..], literal);
        QuestionsOfBlank(Repeat(NUL, n), Blanked(s[n..]));
        QuestionsOfBlank(literal, WithLiterals(s[n..], literal));
      } else {
        DetectedAreFilled(s[1..], literal);
        assert Blanked(s)[1..] == Blanked(s[1..]);
        assert WithLiterals(s, literal)[1..] == WithLiterals(s[1..], literal);
      }
    }
  }

  lemma {:induction false} QuestionsOfBlank(a: string, b: string)
    ensures Questions(a + b) == Questions(a) + Questions(b)
    ensures (forall i :: 0 <= i < |a| ==> a[i] != '?') ==> Questions(a) == 0
    decreases |a|
  {
    if a == "" {
      assert a + b == b;
    } else {
      QuestionsOfBlank(a[1..], b);
      assert (a + b)[1..] == a[1..] + b;
    }
  }

  /** The k-th question mark outside literals gets the k-th value and everything else stays: the query is its texts
      with question marks between them, and the result the same texts with the values between them. */
  lemma EachMarkGetsItsValue(sql: string, values: Values)
    ensures var texts := Cut(sql, Blanked(sql));
            Rejoin(texts) == sql && |texts| == Questions(WithLiterals(sql, "\'\'")) + 1 &&
            FillFrom(sql, Blanked(sql), values, 1) == Join(texts, values, 1)
  {
    BlankedKeepsMarks(sql);
    CutRejoins(sql, Blanked(sql));
    DetectedAreFilled(sql, "\'\'");
    FillIsJoin(sql, Blanked(sql), values, 1);
  }

  lemma {:induction false} JoinSplit(texts: seq<string>, values: Values, first: nat, k: nat)
    requires k + 1 < |texts|
    ensures Join(texts, values, first) ==
      Join(texts[..k + 1], values, first) +
      (Literal(ValueAt(values, first + k)) + Join(texts[k + 1..], values, first + k + 1))
    decreases k
  {
    var head, tail := texts[..k + 1], texts[1..];
    if k > 0 {
      JoinSplit(tail, values, first + 1, k - 1);
      assert head[1..] == tail[..k] && tail[k..] == texts[k + 1..];
      Associate(texts[0] + Literal(ValueAt(values, first)), Join(tail[..k], values, first + 1),
        Literal(ValueAt(values, first + k)) + Join(tail[k..], values, first + k + 1));
    } else {
      Associate(texts[0], Literal(ValueAt(values, first)), Join(tail, values, first + 1));
    }
  }

  /** In the filled query the k-th mark reads, as SQL, as the k-th value itself if that is quoted, exactly when the next
      thing is no quote. */
  lemma MarkReadsBackExactlyWhen(sql: string, values: Values, k: nat)
    requires 1 <= k < |Cut(sql, Blanked(sql))| && IsQuoted(ValueAt(values, k))
    ensures var texts, v := Cut(sql, Blanked(sql)), ValueAt(values, k);
            var before, rest := Join(texts[..k], values, 1), Join(texts[k..], values, k + 1);
            FillFrom(sql, Blanked(sql), values, 1) == before + (Literal(v) + rest) &&
            (ReadLiteral(Literal(v) + rest) == Some(Reading(v.s, rest)) <==> !StartsWithQuote(rest))
  {
    FillIsJoin(sql, Blanked(sql), values, 1);
    JoinReadsBack(Cut(sql, Blanked(sql)), values, k);
  }

  lemma JoinReadsBack(texts: seq<string>, values: Values, k: nat)
    requires 1 <= k < |texts| && IsQuoted(ValueAt(values, k))
    ensures var v, rest := ValueAt(values, k), Join(texts[k..], values, k + 1);
            Join(texts, values, 1) == Join(texts[..k], values, 1) + (Literal(v) + rest) &&
            (ReadLiteral(Literal(v) + rest) == Some(Reading(v.s, rest)) <==> !StartsWithQuote(rest))
  {
    JoinSplit(texts, values, 1, k - 1);
    LiteralReadsBackExactlyWhen(ValueAt(values, k), Join(texts[k..], values, k + 1));
  }

  // ---------- Nothing left unresolved ----------

  predicate HasUnresolved(sql: string) {
    HasSlot(sql) || '?' in WithLiterals(sql, "")
  }

  /** The text outside quotes; `inside` tells whether it starts inside them. */
  function Outside(s: string, inside: bool): string
    decreases |s|
  {
    if s == "" then ""
    else if s[0] == '\'' then Outside(s[1..], !inside)
    else if inside then Outside(s[1..], true)
    else [s[0]] + Outside(s[1..], false)
  }

  predicate EndsInside(s: string, inside: bool)
    decreases |s|
  {
    if s == "" then inside else EndsInside(s[1..], if s[0] == '\'' then !inside else inside)
  }

  /** Every quote of the text has its partner. */
  predicate Balanced(s: string) {
    !EndsInside(s, false)
  }

  lemma {:induction false} InsideCloses(s: string, i: nat)
    requires i <= |s| && !EndsInside(s[i..], true)
    ensures var close := IndexOf(s, i, '\'');
            close < |s| && Outside(s[i..], true) == Outside(s[close + 1..], false) && Balanced(s[close + 1..])
    decreases |s| - i
  {
    if i < |s| {
      assert s[i..][1..] == s[i + 1..];
      if s[i] != '\'' {
        InsideCloses(s, i + 1);
      }
    }
  }

  lemma {:induction false} LiteralsAreInside(s: string)
    requires Balanced(s)
    ensures WithLiterals(s, "") == Outside(s, false)
    decreases |s|
  {
    if s != "" {
      if s[0] == '\'' {
        InsideCloses(s, 1);
        LiteralsAreInside(s[LiteralEnd(s)..]);
      } else {
        LiteralsAreInside(s[1..]);
      }
    }
  }

  lemma {:induction false} DoubledStaysInside(s: string, rest: string)
    ensures Outside(Doubled(s) + "'" + rest, true) == Outside(rest, false)
    ensures EndsInside(Doubled(s) + "'" + rest, true) == EndsInside(rest, false)
    decreases |s|
  {
    var tail := "'" + rest;
    assert tail[1..] == rest;
    if s == "" {
      assert Doubled(s) + "'" + rest == tail;
    } else {
      DoubledStaysInside(s[1..], rest);
      var after, whole := Doubled(s[1..]) + "'" + rest, Doubled(s) + "'" + rest;
      if s[0] == '\'' {
        assert whole[1..][1..] == after && whole[0] == whole[1..][0] == '\'';
      } else {
        assert whole[1..] == after && whole[0] == s[0];
      }
    }
  }

  lemma {:induction false} PlainStaysOutside(s: string, rest: string)
    requires forall i :: 0 <= i < |s| ==> s[i] != '\''
    ensures Outside(s + rest, false) == s + Outside(rest, false)
    ensures EndsInside(s + rest, false) == EndsInside(rest, false)
    decreases |s|
  {
    if s == "" {
      assert s + rest == rest;
    } else {
      PlainStaysOutside(s[1..], rest);
      assert (s + rest)[1..] == s[1..] + rest;
    }
  }

  lemma {:induction false} BodyStaysInside(s: string, n: nat, rest: string)
    requires n <= |s| && forall i :: 0 <= i < n ==> s[i] != '\''
    ensures Outside(s[..n] + "'" + rest, true) == Outside(rest, false)
    ensures EndsInside(s[..n] + "'" + rest, true) == EndsInside(rest, false)
  {
    PlainIsNotDoubled(s[..n]);
    DoubledStaysInside(s[..n], rest);
  }

  lemma {:induction false} PlainIsNotDoubled(s: string)
    requires forall i :: 0 <= i < |s| ==> s[i] != '\''
    ensures Doubled(s) == s
    decreases |s|
  {
    if s != "" {
      PlainIsNotDoubled(s[1..]);
    }
  }

  /** A value that is not quoted brings in neither a quote nor a question mark. */
  predicate CleanValues(values: Values) {
    forall n :: n in values && !IsQuoted(values[n]) ==> '\'' !in Literal(values[n]) && '?' !in Literal(values[n])
  }

  lemma LiteralStaysClosed(v: Value, rest: string)
    requires IsQuoted(v) || ('\'' !in Literal(v) && '?' !in Literal(v))
    ensures '?' in Outside(Literal(v) + rest, false) <==> '?' in Outside(rest, false)
    ensures EndsInside(Literal(v) + rest, false) == EndsInside(rest, false)
  {
    if IsQuoted(v) {
      QuotedStaysClosed(v.s, rest, Literal(v) + rest);
    } else {
      PlainStaysOutside(Literal(v), rest);
      InEitherPart('?', Literal(v), Outside(rest, false));
    }
  }

  lemma QuotedStaysClosed(s: string, rest: string, whole: string)
    requires whole == "'" + Doubled(s) + "'" + rest
    ensures Outside(whole, false) == Outside(rest, false) && EndsInside(whole, false) == EndsInside(rest, false)
  {
    assert whole[0] == '\'' && whole[1..] == Doubled(s) + "'" + rest;
    DoubledStaysInside(s, rest);
  }

  lemma InEitherPart(c: char, a: string, b: string)
    ensures c in a + b <==> c in a || c in b
  {
  }

  lemma FillLiteral(s: string, values: Values, n: nat, k: nat)
    requires 2 <= k <= |s| && LiteralEnd(s) == k
    ensures FillFrom(s, Blanked(s), values, n) == "'" + s[1..k - 1] + "'" + FillFrom(s[k..], Blanked(s[k..]), values, n)
  {
    FillOverBlank(s, k, Blanked(s[k..]), Blanked(s), values, n);
    assert s[..k] == "'" + s[1..k - 1] + "'";
  }

  lemma {:induction false} FillOverBlank(s: string, k: nat, rest: string, blanked: string, values: Values, n: nat)
    requires k <= |s| && |rest| == |s| - k && blanked == Repeat(NUL, k) + rest
    ensures FillFrom(s, blanked, values, n) == s[..k] + FillFrom(s[k..], rest, values, n)
    decreases k
  {
    if k == 0 {
      assert blanked == rest && s[k..] == s;
    } else {
      BlankHead(k, rest, blanked);
      FillOverBlank(s[1..], k - 1, rest, blanked[1..], values, n);
      CharAndRest(s, k, FillFrom(s[k..], rest, values, n));
    }
  }

  lemma BlankHead(k: nat, rest: string, blanked: string)
    requires k > 0 && blanked == Repeat(NUL, k) + rest
    ensures blanked[0] == NUL && blanked[1..] == Repeat(NUL, k - 1) + rest
  {
  }

  lemma CharAndRest(s: string, k: nat, tail: string)
    requires 0 < k <= |s|
    ensures s[1..][k - 1..] == s[k..] && s[..k] + tail == [s[0]] + (s[1..][..k - 1] + tail)
  {
    assert s[..k] == [s[0]] + s[1..][..k - 1];
  }

  lemma {:induction false} NoMarkLeft(s: string, values: Values, n: nat)
    requires Balanced(s) && CleanValues(values)
    ensures var filled := FillFrom(s, Blanked(s), values, n);
            '?' !in Outside(filled, false) && Balanced(filled)
    decreases |s|
  {
    if s != "" {
      if s[0] == '\'' {
        InsideCloses(s, 1);
        var k := LiteralEnd(s);
        NoMarkLeft(s[k..], values, n);
        var rest := FillFrom(s[k..], Blanked(s[k..]), values, n);
        FillLiteral(s, values, n, k);
        LiteralDisappears(s[1..k - 1], rest, FillFrom(s, Blanked(s), values, n));
      } else {
        assert Blanked(s)[1..] == Blanked(s[1..]);
        if s[0] == '?' {
          NoMarkLeft(s[1..], values, n + 1);
          LiteralStaysClosed(ValueAt(values, n), FillFrom(s[1..], Blanked(s[1..]), values, n + 1));
        } else {
          NoMarkLeft(s[1..], values, n);
          PlainStaysOutside([s[0]], FillFrom(s[1..], Blanked(s[1..]), values, n));
        }
      }
    }
  }

  lemma LiteralDisappears(body: string, rest: string, whole: string)
    requires whole == "'" + body + "'" + rest && forall i :: 0 <= i < |body| ==> body[i] != '\''
    ensures Outside(whole, false) == Outside(rest, false) && EndsInside(whole, false) == EndsInside(rest, false)
  {
    BodyStaysInside(body, |body|, rest);
    assert body[..|body|] == body && whole[1..] == body + "'" + rest;
  }

  predicate EndsInDollar(s: string) {
    s != "" && s[|s| - 1] == '$'
  }

  /** A slot lies in one of two texts, or is put together where they meet. */
  lemma SlotAcross(a: string, b: string)
    ensures HasSlot(a + b) <==> HasSlot(a) || HasSlot(b) || (EndsInDollar(a) && StartsWithDigit(b))
  {
    var whole := a + b;
    assert forall i :: 0 <= i < |a| ==> whole[i] == a[i];
    assert forall i :: 0 <= i < |b| ==> whole[|a| + i] == b[i];
    if HasSlot(whole) {
      var i :| 0 <= i < |whole| - 1 && whole[i] == '$' && IsDigit(whole[i + 1]);
      assert i + 1 < |a| ==> a[i] == '$' && IsDigit(a[i + 1]);
      assert i >= |a| ==> b[i - |a|] == '$' && IsDigit(b[i - |a| + 1]);
    }
    if HasSlot(a) {
      var i :| 0 <= i < |a| - 1 && a[i] == '$' && IsDigit(a[i + 1]);
      assert whole[i] == '$' && IsDigit(whole[i + 1]);
    }
    if HasSlot(b) {
      var i :| 0 <= i < |b| - 1 && b[i] == '$' && IsDigit(b[i + 1]);
      assert whole[|a| + i] == '$' && IsDigit(whole[|a| + i + 1]);
    }
    if EndsInDollar(a) && StartsWithDigit(b) {
      assert whole[|a| - 1] == '$' && IsDigit(whole[|a| - 1 + 1]);
    }
  }

  function Concat(pieces: seq<string>): string
    decreases |pieces|
  {
    if pieces == [] then "" else pieces[0] + Concat(pieces[1..])
  }

  /** A piece that ends in `$` meets a piece that starts with a digit, with nothing in between. */
  predicate Meet(pieces: seq<string>, i: int, j: int) {
    0 <= i < j < |pieces| && EndsInDollar(pieces[i]) && StartsWithDigit(pieces[j]) &&
    forall k :: i < k < j ==> pieces[k] == ""
  }

  /** The first piece that is not empty is the j-th, and it starts with a digit. */
  predicate DigitFirst(pieces: seq<string>, j: int) {
    0 <= j < |pieces| && StartsWithDigit(pieces[j]) && forall k :: 0 <= k < j ==> pieces[k] == ""
  }

  lemma {:induction false} ConcatStart(pieces: seq<string>)
    ensures StartsWithDigit(Concat(pieces)) <==> exists j :: DigitFirst(pieces, j)
    decreases |pieces|
  {
    if pieces != [] {
      var rest := pieces[1..];
      ConcatStart(rest);
      if pieces[0] == "" {
        if j :| DigitFirst(rest, j) {
          assert DigitFirst(pieces, j + 1);
        }
        if j :| DigitFirst(pieces, j) {
          assert DigitFirst(rest, j - 1);
        }
      } else {
        assert StartsWithDigit(pieces[0]) ==> DigitFirst(pieces, 0);
      }
    }
  }

  ghost predicate SlotInPiece(pieces: seq<string>) {
    exists i :: 0 <= i < |pieces| && HasSlot(pieces[i])
  }

  ghost predicate PiecesMeet(pieces: seq<string>) {
    exists i, j :: Meet(pieces, i, j)
  }

  lemma MeetStep(pieces: seq<string>)
    requires pieces != []
    ensures PiecesMeet(pieces) <==>
      PiecesMeet(pieces[1..]) || (EndsInDollar(pieces[0]) && exists j :: DigitFirst(pieces[1..], j))
  {
    var rest := pieces[1..];
    if i, j :| Meet(pieces, i, j) {
      if i > 0 {
        assert Meet(rest, i - 1, j - 1);
      } else {
        assert DigitFirst(rest, j - 1);
      }
    }
    if i, j :| Meet(rest, i, j) {
      assert Meet(pieces, i + 1, j + 1);
    }
    if j :| EndsInDollar(pieces[0]) && DigitFirst(rest, j) {
      assert Meet(pieces, 0, j + 1);
    }
  }

  lemma SlotInPieceStep(pieces: seq<string>)
    requires pieces != []
    ensures SlotInPiece(pieces) <==> HasSlot(pieces[0]) || SlotInPiece(pieces[1..])
  {
    var rest := pieces[1..];
    if i :| 0 <= i < |rest| && HasSlot(rest[i]) {
      assert HasSlot(pieces[i + 1]);
    }
    if i :| 0 <= i < |pieces| && HasSlot(pieces[i]) {
      assert i > 0 ==> HasSlot(rest[i - 1]);
    }
  }

  /** A text put together from pieces holds a slot exactly when a piece does or two pieces meet in one. */
  lemma {:induction false} SlotInConcat(pieces: seq<string>)
    ensures HasSlot(Concat(pieces)) <==> SlotInPiece(pieces) || PiecesMeet(pieces)
    decreases |pieces|
  {
    if pieces != [] {
      SlotInConcat(pieces[1..]);
      SlotAcross(pieces[0], Concat(pieces[1..]));
      ConcatStart(pieces[1..]);
      MeetStep(pieces);
      SlotInPieceStep(pieces);
    }
  }

  /** The texts of the query and the literals between them. */
  function Pieces(texts: seq<string>, values: Values, n: nat): (pieces: seq<string>)
    requires texts != []
    ensures |pieces| == 2 * |texts| - 1
    decreases |texts|
  {
    if |texts| == 1 then texts else [texts[0], Literal(ValueAt(values, n))] + Pieces(texts[1..], values, n + 1)
  }

  lemma {:induction false} PieceAt(texts: seq<string>, values: Values, n: nat, k: nat)
    requires k < |texts|
    ensures Pieces(texts, values, n)[2 * k] == texts[k]
    ensures k < |texts| - 1 ==> Pieces(texts, values, n)[2 * k + 1] == Literal(ValueAt(values, n + k))
    decreases k
  {
    if k > 0 {
      PieceAt(texts[1..], values, n + 1, k - 1);
      var pieces, rest := Pieces(texts, values, n), Pieces(texts[1..], values, n + 1);
      assert pieces[2 * k] == rest[2 * (k - 1)];
      assert k < |texts| - 1 ==> pieces[2 * k + 1] == rest[2 * (k - 1) + 1];
    }
  }

  lemma {:induction false} JoinIsConcat(texts: seq<string>, values: Values, n: nat)
    requires texts != []
    ensures Join(texts, values, n) == Concat(Pieces(texts, values, n))
    decreases |texts|
  {
    if |texts| == 1 {
      assert texts[1..] == [] && Concat([]) == "";
      assert texts[0] + "" == texts[0];
    } else {
      var literal, rest := Literal(ValueAt(values, n)), Pieces(texts[1..], values, n + 1);
      var pieces := Pieces(texts, values, n);
      JoinIsConcat(texts[1..], values, n + 1);
      assert pieces[1..] == [literal] + rest && pieces[1..][1..] == rest;
      Associate(texts[0], literal, Concat(rest));
    }
  }

  lemma {:induction false} TextsHoldNoSlot(texts: seq<string>, k: nat)
    requires k < |texts| && !HasSlot(Rejoin(texts))
    ensures !HasSlot(texts[k])
    decreases |texts|
  {
    if |texts| > 1 {
      SlotAcross(texts[0] + "?", Rejoin(texts[1..]));
      SlotAcross(texts[0], "?");
      if k > 0 {
        TextsHoldNoSlot(texts[1..], k - 1);
      }
    }
  }

  /** The text of a value, before it is quoted. */
  function TextOf(v: Value): string {
    if v.Str? then v.s else v.text
  }

  lemma {:induction false} DoubledSlot(s: string)
    ensures HasSlot(Doubled(s)) <==> HasSlot(s)
    ensures StartsWithDigit(Doubled(s)) <==> StartsWithDigit(s)
    decreases |s|
  {
    if s != "" {
      DoubledSlot(s[1..]);
      FirstAndRest(s);
      SlotAcross([s[0]], s[1..]);
      SlotAcross(if s[0] == '\'' then "\'\'" else [s[0]], Doubled(s[1..]));
    }
  }

  /** Quoting a value neither makes nor hides a slot. */
  lemma LiteralSlot(v: Value)
    ensures HasSlot(Literal(v)) <==> HasSlot(TextOf(v))
  {
    if IsQuoted(v) {
      DoubledSlot(v.s);
      SlotAcross("'" + Doubled(v.s), "'");
      SlotAcross("'", Doubled(v.s));
    }
  }

  predicate HoldsSlot(v: Value) {
    HasSlot(TextOf(v))
  }

  /** One of the values numbered from `n` that stand between the texts holds a `$digit`. */
  ghost predicate ValueHoldsSlot(texts: seq<string>, values: Values, n: nat) {
    exists m: nat :: n <= m < n + |texts| - 1 && HoldsSlot(ValueAt(values, m))
  }

  /** A value that fills a mark of the query holds a `$digit`, or one is put together where a text or an unquoted value
      that ends in `$` meets a digit. */
  ghost predicate BringsSlot(sql: string, values: Values) {
    var texts := Cut(sql, Blanked(sql));
    ValueHoldsSlot(texts, values, 1) || PiecesMeet(Pieces(texts, values, 1))
  }

  lemma {:induction false} SlotsOfPieces(texts: seq<string>, values: Values, n: nat)
    requires texts != [] && forall k :: 0 <= k < |texts| ==> !HasSlot(texts[k])
    ensures SlotInPiece(Pieces(texts, values, n)) <==> ValueHoldsSlot(texts, values, n)
    decreases |texts|
  {
    var pieces := Pieces(texts, values, n);
    if |texts| > 1 {
      var rest, v := Pieces(texts[1..], values, n + 1), ValueAt(values, n);
      SlotsOfPieces(texts[1..], values, n + 1);
      SlotInPieceStep(pieces);
      assert pieces[1..] == [Literal(v)] + rest && pieces[1..][1..] == rest;
      SlotInPieceStep(pieces[1..]);
      LiteralSlot(v);
      ValueHoldsStep(texts, values, n);
    } else {
      assert forall i :: 0 <= i < |pieces| ==> !HasSlot(pieces[i]);
    }
  }

  lemma ValueHoldsStep(texts: seq<string>, values: Values, n: nat)
    requires |texts| > 1
    ensures ValueHoldsSlot(texts, values, n) <==>
      HoldsSlot(ValueAt(values, n)) || ValueHoldsSlot(texts[1..], values, n + 1)
  {
  }

  lemma FilledIsConcat(sql: string, values: Values, texts: seq<string>)
    requires texts == Cut(sql, Blanked(sql)) && !HasSlot(sql)
    ensures FillFrom(sql, Blanked(sql), values, 1) == Concat(Pieces(texts, values, 1))
    ensures forall k :: 0 <= k < |texts| ==> !HasSlot(texts[k])
  {
    FillIsJoin(sql, Blanked(sql), values, 1);
    JoinIsConcat(texts, values, 1);
    BlankedKeepsMarks(sql);
    CutRejoins(sql, Blanked(sql));
    forall k | 0 <= k < |texts| ensures !HasSlot(texts[k]) {
      TextsHoldNoSlot(texts, k);
    }
  }

  lemma OnlySlotsUnresolved(sql: string, values: Values, filled: string)
    requires Balanced(sql) && CleanValues(values) && filled == FillFrom(sql, Blanked(sql), values, 1)
    ensures HasUnresolved(filled) <==> HasSlot(filled)
  {
    NoMarkLeft(sql, values, 1);
    LiteralsAreInside(filled);
  }

  /** A query with balanced quotes, whose question marks are filled, still counts as unresolved exactly when one of the
      values brings a slot in. */
  lemma MarksResolvedExactlyWhen(sql: string, values: Values)
    requires Balanced(sql) && CleanValues(values) && !HasSlot(sql)
    ensures HasUnresolved(FillFrom(sql, Blanked(sql), values, 1)) <==> BringsSlot(sql, values)
  {
    var texts := Cut(sql, Blanked(sql));
    OnlySlotsUnresolved(sql, values, FillFrom(sql, Blanked(sql), values, 1));
    FilledIsConcat(sql, values, texts);
    SlotInConcat(Pieces(texts, values, 1));
    SlotsOfPieces(texts, values, 1);
  }

  /** A value for every mark is not enough: `$5` in a quoted value is taken for a slot. */
  lemma DollarValueUnresolved(values: Values)
    requires values == map[1 := Str("$5")]
    ensures Balanced("?") && CleanValues(values) && !HasSlot("?")
    ensures HasUnresolved(FillFrom("?", Blanked("?"), values, 1))
  {
    assert Blanked("?") == "?" + Blanked("");
    assert Cut("?", "?") == [""] + Cut("", "") == ["", ""];
    assert Balanced("?") by {
      assert "?"[1..] == "";
    }
    assert "$5"[0] == '$' && IsDigit("$5"[1]) && !IsDigit("$5"[0]);
    assert HoldsSlot(ValueAt(values, 1));
    MarksResolvedExactlyWhen("?", values);
  }

  /** With balanced quotes nothing is left unresolved when no value used holds a `$digit`, no mark directly follows a
      `$` and no literal ends in one. */
  lemma MarksResolved(sql: string, values: Values)
    requires Balanced(sql) && CleanValues(values) && !HasSlot(sql)
    requires NoDollarMeets(Cut(sql, Blanked(sql)), values)
    ensures !HasUnresolved(FillFrom(sql, Blanked(sql), values, 1))
  {
    var texts := Cut(sql, Blanked(sql));
    MarksResolvedExactlyWhen(sql, values);
    forall i, j ensures !Meet(Pieces(texts, values, 1), i, j) {
      if 0 <= i < j < |Pieces(texts, values, 1)| {
        PieceEndsInNoDollar(texts, values, i);
      }
    }
  }

  ghost predicate NoDollarMeets(texts: seq<string>, values: Values) {
    (forall k :: 0 <= k < |texts| - 1 ==> !EndsInDollar(texts[k])) &&
    forall m: nat :: 1 <= m < |texts| ==> !HoldsSlot(ValueAt(values, m)) && !EndsInDollar(Literal(ValueAt(values, m)))
  }

  lemma PieceEndsInNoDollar(texts: seq<string>, values: Values, i: nat)
    requires texts != [] && NoDollarMeets(texts, values) && i < 2 * (|texts| - 1)
    ensures !EndsInDollar(Pieces(texts, values, 1)[i])
  {
    var k := i / 2;
    PieceAt(texts, values, 1, k);
    assert i == 2 * k || i == 2 * k + 1;
  }
}
