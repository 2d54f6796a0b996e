/** Exactly when a slot is misread while the slots of a query are filled one number after the other
    (cli/shared/parameter_prompt.py). */
module SlotMisreading {
  import opened Text
  import opened PromptValues
  import opened SlotFilling

  /** No slot can be read as that of another number that has a value: not a slot without a value by the start of its
      numeral, and none by digits that fill the slot right behind it. */
  ghost predicate NoneMisread(tokens: seq<Token>, keys: set<nat>) {
    LeftAlone(tokens, keys) &&
    forall i :: 0 <= i < |tokens| - 1 && tokens[i].Slot? && tokens[i + 1].Slot? && tokens[i + 1].n in keys ==>
      NoneBetween(tokens[i].n, tokens[i + 1].n, keys)
  }

  const MARK := "x"

  ghost predicate AllMarked(values: Values, numbers: seq<nat>) {
    StrictlyDown(numbers) && forall n :: n in numbers ==> n in values && Literal(values[n]) == MARK
  }

  lemma NoCrossing(u: string, v: string, m: nat)
    requires u != "" && !StartsWithDigit(v) && |Placeholder(m)| > |u|
    ensures !(Placeholder(m) <= u + v)
  {
    assert Placeholder(m)[|u|] == Decimal(m)[|u| - 1];
    assert IsDigit(Placeholder(m)[|u|]);
    assert v != "" ==> (u + v)[|u|] == v[0];
  }

  lemma ApartAtHit(u: string, rest: string, v: string, m: nat)
    requires u == Placeholder(m) + rest
    requires Replace(rest + v, Placeholder(m), MARK) ==
             Replace(rest, Placeholder(m), MARK) + Replace(v, Placeholder(m), MARK)
    ensures Replace(u + v, Placeholder(m), MARK) == Replace(u, Placeholder(m), MARK) + Replace(v, Placeholder(m), MARK)
  {
    Associate(Placeholder(m), rest, v);
    ReplaceHit(m, rest, MARK);
    ReplaceHit(m, rest + v, MARK);
    Associate(MARK, Replace(rest, Placeholder(m), MARK), Replace(v, Placeholder(m), MARK));
  }

  lemma ApartAtMiss(u: string, rest: string, v: string, pattern: string)
    requires u != "" && rest == u[1..] && pattern != "" && !(pattern <= u) && !(pattern <= u + v)
    requires Replace(rest + v, pattern, MARK) == Replace(rest, pattern, MARK) + Replace(v, pattern, MARK)
    ensures Replace(u + v, pattern, MARK) == Replace(u, pattern, MARK) + Replace(v, pattern, MARK)
  {
    FirstAndRest(u);
    Associate([u[0]], rest, v);
    ReplaceSkipsOne(u[0], rest, pattern, MARK, u);
    ReplaceSkipsOne(u[0], rest + v, pattern, MARK, u + v);
    Associate([u[0]], Replace(rest, pattern, MARK), Replace(v, pattern, MARK));
  }

  lemma PrefixOfLonger(pattern: string, u: string, v: string)
    requires |pattern| <= |u|
    ensures pattern <= u + v <==> pattern <= u
  {
    assert (u + v)[..|pattern|] == u[..|pattern|];
  }

  /** Where no digit starts the second text, a replacement in the first does not depend on it. */
  lemma {:induction false} ReplaceApart(u: string, v: string, m: nat)
    requires !StartsWithDigit(v)
    ensures Replace(u + v, Placeholder(m), MARK) == Replace(u, Placeholder(m), MARK) + Replace(v, Placeholder(m), MARK)
    decreases |u|
  {
    var pattern := Placeholder(m);
    if u == "" {
      assert u + v == v;
    } else if pattern <= u {
      var rest := u[|pattern|..];
      ReplaceApart(rest, v, m);
      ApartAtHit(u, rest, v, m);
    } else {
      if |pattern| > |u| {
        NoCrossing(u, v, m);
      } else {
        PrefixOfLonger(pattern, u, v);
      }
      ReplaceApart(u[1..], v, m);
      ApartAtMiss(u, u[1..], v, pattern);
    }
  }

  lemma ReplacedStart(v: string, m: nat)
    requires !StartsWithDigit(v)
    ensures !StartsWithDigit(Replace(v, Placeholder(m), MARK))
  {
  }

  lemma {:induction false} ReplaceEachApart(u: string, v: string, values: Values, numbers: seq<nat>)
    requires !StartsWithDigit(v) && AllMarked(values, numbers)
    ensures ReplaceEach(u + v, values, numbers) == ReplaceEach(u, values, numbers) + ReplaceEach(v, values, numbers)
    decreases |numbers|
  {
    if numbers != [] {
      var m := numbers[0];
      ReplaceApart(u, v, m);
      ReplacedStart(v, m);
      ReplaceEachApart(Replace(u, Placeholder(m), MARK), Replace(v, Placeholder(m), MARK), values, numbers[1..]);
    }
  }

  lemma {:induction false} ReplaceEachPast(c: char, v: string, values: Values, numbers: seq<nat>)
    requires c != '$' && forall n :: n in numbers ==> n in values
    ensures ReplaceEach([c] + v, values, numbers) == [c] + ReplaceEach(v, values, numbers)
    decreases |numbers|
  {
    if numbers != [] {
      var m := numbers[0];
      ReplaceSkips([c], v, Placeholder(m), Literal(values[m]));
      ReplaceEachPast(c, Replace(v, Placeholder(m), Literal(values[m])), values, numbers[1..]);
    }
  }

  lemma {:induction false} LongerNumeral(m: nat, h: nat)
    requires h <= m
    ensures |Decimal(h)| <= |Decimal(m)|
    decreases m
  {
    if h >= 10 {
      LongerNumeral(m / 10, h / 10);
    }
  }

  lemma ReplaceNoHit(digits: string, m: nat, replacement: string)
    requires AllDigits(digits) && !(Decimal(m) <= digits)
    ensures Replace("$" + digits, Placeholder(m), replacement) == "$" + digits
  {
    assert ("$" + digits) + "" == "$" + digits;
    if Placeholder(m) <= "$" + digits {
      DollarPrefix(m, digits);
    }
    ReplaceSkipsSlot("$" + digits, digits, "", Placeholder(m), replacement);
    assert Replace("", Placeholder(m), replacement) == "";
  }

  /** Digits behind a `$` that some number's numeral starts are replaced from the highest such number. */
  lemma {:induction false} HitShortens(digits: string, values: Values, numbers: seq<nat>, h: nat)
    requires AllDigits(digits) && AllMarked(values, numbers) && h in numbers && Decimal(h) <= digits
    ensures |ReplaceEach("$" + digits, values, numbers)| <= 1 + |digits| - |Decimal(h)|
    decreases |numbers|
  {
    var m, lower := numbers[0], numbers[1..];
    assert numbers == [m] + lower;
    if Decimal(m) <= digits {
      var tail := digits[|Decimal(m)|..];
      assert "$" + digits == Placeholder(m) + tail;
      ReplaceHit(m, tail, MARK);
      assert Replace(tail, Placeholder(m), MARK) == tail by {
        ReplaceSkips(tail, "", Placeholder(m), MARK);
        assert tail + "" == tail && Replace("", Placeholder(m), MARK) == "";
      }
      DollarFreeStays(MARK + tail, values, lower);
      var j :| 0 <= j < |numbers| && numbers[j] == h;
      LongerNumeral(m, h);
    } else {
      ReplaceNoHit(digits, m, MARK);
      HitShortens(digits, values, lower, h);
    }
  }

  lemma {:induction false} NoHitStays(digits: string, values: Values, numbers: seq<nat>)
    requires AllDigits(digits) && AllMarked(values, numbers)
    requires forall m :: m in numbers ==> !(Decimal(m) <= digits)
    ensures ReplaceEach("$" + digits, values, numbers) == "$" + digits
    decreases |numbers|
  {
    if numbers != [] {
      ReplaceNoHit(digits, numbers[0], MARK);
      NoHitStays(digits, values, numbers[1..]);
    }
  }

  /** Slot `a` with these digits behind it is read as another number. */
  ghost predicate Hit(a: nat, behind: string, numbers: seq<nat>) {
    exists h :: h in numbers && Decimal(h) <= Decimal(a) + behind &&
      (a !in numbers || |Decimal(h)| > |Decimal(a)|)
  }

  /** What becomes of a slot and the digits behind it is never longer than it should be, and shorter if misread. */
  lemma BlockBound(a: nat, behind: string, values: Values, numbers: seq<nat>)
    requires AllDigits(behind) && AllMarked(values, numbers)
    ensures var due := if a in numbers then 1 + |behind| else 1 + |Decimal(a)| + |behind|;
            var got := |ReplaceEach(Placeholder(a) + behind, values, numbers)|;
            got <= due && (Hit(a, behind, numbers) ==> got < due)
  {
    var digits := Decimal(a) + behind;
    assert Placeholder(a) + behind == "$" + digits && AllDigits(digits);
    if a in numbers {
      HitShortens(digits, values, numbers, a);
      if Hit(a, behind, numbers) {
        var h :| h in numbers && Decimal(h) <= digits && |Decimal(h)| > |Decimal(a)|;
        HitShortens(digits, values, numbers, h);
      }
    } else if h :| h in numbers && Decimal(h) <= digits {
      HitShortens(digits, values, numbers, h);
    } else {
      NoHitStays(digits, values, numbers);
    }
  }

  function DigitsAhead(tokens: seq<Token>): (w: string)
    ensures |w| <= |tokens| && AllDigits(w)
    decreases |tokens|
  {
    if tokens != [] && tokens[0].Char? && IsDigit(tokens[0].c) then [tokens[0].c] + DigitsAhead(tokens[1..]) else ""
  }

  /** The tokens from the first one on that is no digit. */
  function PastDigits(tokens: seq<Token>): (rest: seq<Token>)
    ensures |rest| == |tokens| - |DigitsAhead(tokens)| && rest == tokens[|DigitsAhead(tokens)|..]
    decreases |tokens|
  {
    if DigitsAhead(tokens) == "" then tokens else PastDigits(tokens[1..])
  }

  lemma {:induction false} DigitsSpelledFirst(tokens: seq<Token>)
    ensures Spelled(tokens) == DigitsAhead(tokens) + Spelled(PastDigits(tokens))
    decreases |tokens|
  {
    if DigitsAhead(tokens) != "" {
      DigitsSpelledFirst(tokens[1..]);
      Associate([tokens[0].c], DigitsAhead(tokens[1..]), Spelled(PastDigits(tokens)));
    }
  }

  lemma {:induction false} DigitsKeptFirst(tokens: seq<Token>, values: Values)
    ensures Partial(tokens, values, 0) == DigitsAhead(tokens) + Partial(PastDigits(tokens), values, 0)
    decreases |tokens|
  {
    if DigitsAhead(tokens) != "" {
      DigitsKeptFirst(tokens[1..], values);
      Associate([tokens[0].c], DigitsAhead(tokens[1..]), Partial(PastDigits(tokens), values, 0));
    }
  }

  lemma {:induction false} NoDigitPastDigits(tokens: seq<Token>)
    ensures !StartsWithDigit(Spelled(PastDigits(tokens)))
    decreases |tokens|
  {
    if DigitsAhead(tokens) != "" {
      NoDigitPastDigits(tokens[1..]);
    }
  }

  lemma {:induction false} DigitsAreChars(tokens: seq<Token>)
    ensures forall j :: 0 <= j < |DigitsAhead(tokens)| ==> tokens[j].Char?
    decreases |tokens|
  {
    if DigitsAhead(tokens) != "" {
      DigitsAreChars(tokens[1..]);
      assert forall j :: 0 < j < |DigitsAhead(tokens)| ==> tokens[j] == tokens[1..][j - 1];
    }
  }

  ghost predicate MisreadAt(tokens: seq<Token>, numbers: seq<nat>, i: int) {
    0 <= i < |tokens| && tokens[i].Slot? && Hit(tokens[i].n, DigitsAhead(tokens[i + 1..]), numbers)
  }

  /** The slots that have a value are among the numbers still to be replaced. */
  predicate StillToCome(tokens: seq<Token>, values: Values, numbers: seq<nat>) {
    forall j :: 0 <= j < |tokens| && tokens[j].Slot? && tokens[j].n in values ==> tokens[j].n in numbers
  }

  lemma LaterTokens(tokens: seq<Token>, k: nat, values: Values, numbers: seq<nat>, i: int)
    requires k <= |tokens| && PlainChars(tokens) && StillToCome(tokens, values, numbers)
    ensures PlainChars(tokens[k..]) && StillToCome(tokens[k..], values, numbers)
    ensures k <= i ==> (MisreadAt(tokens, numbers, i) <==> MisreadAt(tokens[k..], numbers, i - k))
  {
    var rest := tokens[k..];
    assert forall j :: 0 <= j < |rest| ==> rest[j] == tokens[k + j];
    if k <= i < |tokens| {
      assert tokens[i + 1..] == rest[i - k + 1..];
    }
  }

  /** The block of a slot and the digits behind it, ahead of the rest. */
  lemma BlockFirst(tokens: seq<Token>, values: Values, numbers: seq<nat>, rest: seq<Token>)
    requires tokens != [] && tokens[0].Slot? && AllMarked(values, numbers) && rest == PastDigits(tokens[1..])
    requires tokens[0].n in values ==> tokens[0].n in numbers
    ensures var w := DigitsAhead(tokens[1..]);
            |ReplaceEach(Spelled(tokens), values, numbers)| ==
            |ReplaceEach(Placeholder(tokens[0].n) + w, values, numbers)| + |ReplaceEach(Spelled(rest), values, numbers)|
    ensures |Partial(tokens, values, 0)| ==
            |DigitsAhead(tokens[1..])| + |Partial(rest, values, 0)| +
            if tokens[0].n in numbers then 1 else 1 + |Decimal(tokens[0].n)|
  {
    var w := DigitsAhead(tokens[1..]);
    DigitsSpelledFirst(tokens[1..]);
    DigitsKeptFirst(tokens[1..], values);
    NoDigitPastDigits(tokens[1..]);
    Associate(Placeholder(tokens[0].n), w, Spelled(rest));
    ReplaceEachApart(Placeholder(tokens[0].n) + w, Spelled(rest), values, numbers);
  }

  /** With one mark for every value the result is never longer than it should be, and shorter if any slot is misread. */
  lemma {:induction false} Shortened(tokens: seq<Token>, values: Values, numbers: seq<nat>, i: int)
    requires PlainChars(tokens) && AllMarked(values, numbers) && StillToCome(tokens, values, numbers)
    ensures |ReplaceEach(Spelled(tokens), values, numbers)| <= |Partial(tokens, values, 0)|
    ensures MisreadAt(tokens, numbers, i) ==>
      |ReplaceEach(Spelled(tokens), values, numbers)| < |Partial(tokens, values, 0)|
    decreases |tokens|
  {
    if tokens == [] {
      DollarFreeStays("", values, numbers);
    } else if tokens[0].Char? {
      LaterTokens(tokens, 1, values, numbers, i);
      Shortened(tokens[1..], values, numbers, i - 1);
      ReplaceEachPast(tokens[0].c, Spelled(tokens[1..]), values, numbers);
    } else {
      var w, rest := DigitsAhead(tokens[1..]), PastDigits(tokens[1..]);
      SlotIsFirst(tokens, values, numbers, i, rest);
      Shortened(rest, values, numbers, i - 1 - |w|);
      BlockBound(tokens[0].n, w, values, numbers);
      BlockFirst(tokens, values, numbers, rest);
    }
  }

  lemma SlotIsFirst(tokens: seq<Token>, values: Values, numbers: seq<nat>, i: int, rest: seq<Token>)
    requires PlainChars(tokens) && StillToCome(tokens, values, numbers) && tokens != [] && tokens[0].Slot?
    requires rest == PastDigits(tokens[1..])
    ensures PlainChars(rest) && StillToCome(rest, values, numbers) && |rest| < |tokens|
    ensures MisreadAt(tokens, numbers, i) ==>
      Hit(tokens[0].n, DigitsAhead(tokens[1..]), numbers) ||
      MisreadAt(rest, numbers, i - 1 - |DigitsAhead(tokens[1..])|)
  {
    var w := DigitsAhead(tokens[1..]);
    TailOfTail(tokens, |w|);
    LaterTokens(tokens, 1 + |w|, values, numbers, i);
    if 0 < i <= |w| {
      BehindIsChar(tokens, i);
    }
  }

  lemma TailOfTail(tokens: seq<Token>, k: nat)
    requires k < |tokens|
    ensures tokens[1..][k..] == tokens[1 + k..]
  {
  }

  lemma BehindIsChar(tokens: seq<Token>, i: nat)
    requires tokens != [] && 0 < i <= |DigitsAhead(tokens[1..])|
    ensures tokens[i].Char?
  {
    DigitsAreChars(tokens[1..]);
    assert tokens[i] == tokens[1..][i - 1];
  }

  // ---------- Values that bring a misreading out ----------

  function Chars(s: string): (tokens: seq<Token>)
    ensures |tokens| == |s| && forall i :: 0 <= i < |s| ==> tokens[i] == Char(s[i])
  {
    seq(|s|, i requires 0 <= i < |s| => Char(s[i]))
  }

  /** The tokens with the slots from `from` on replaced by the characters of their literals. */
  function Expanded(tokens: seq<Token>, values: Values, from: nat): seq<Token>
    decreases |tokens|
  {
    if tokens == [] then []
    else
      (if tokens[0].Slot? && tokens[0].n >= from && tokens[0].n in values then Chars(Literal(values[tokens[0].n]))
       else [tokens[0]]) + Expanded(tokens[1..], values, from)
  }

  lemma {:induction false} CharsSpell(s: string, tokens: seq<Token>)
    ensures Spelled(Chars(s) + tokens) == s + Spelled(tokens)
    decreases |s|
  {
    if s == "" {
      assert Chars(s) + tokens == tokens;
    } else {
      CharsSpell(s[1..], tokens);
      CharsFirst(s, tokens);
      FirstAndRest(s);
      Associate([s[0]], s[1..], Spelled(tokens));
    }
  }

  lemma CharsFirst(s: string, tokens: seq<Token>)
    requires s != ""
    ensures var whole := Chars(s) + tokens;
            whole != [] && whole[0] == Char(s[0]) && whole[1..] == Chars(s[1..]) + tokens
  {
  }

  lemma {:induction false} CharsKept(s: string, tokens: seq<Token>, values: Values)
    ensures Partial(Chars(s) + tokens, values, 0) == s + Partial(tokens, values, 0)
    decreases |s|
  {
    if s == "" {
      assert Chars(s) + tokens == tokens;
    } else {
      CharsKept(s[1..], tokens, values);
      CharsFirst(s, tokens);
      FirstAndRest(s);
      Associate([s[0]], s[1..], Partial(tokens, values, 0));
    }
  }

  lemma {:induction false} DigitCharsAhead(s: string, tokens: seq<Token>)
    requires AllDigits(s)
    ensures DigitsAhead(Chars(s) + tokens) == s + DigitsAhead(tokens)
    decreases |s|
  {
    if s == "" {
      assert Chars(s) + tokens == tokens;
    } else {
      DigitCharsAhead(s[1..], tokens);
      CharsFirst(s, tokens);
      FirstAndRest(s);
      Associate([s[0]], s[1..], DigitsAhead(tokens));
    }
  }

  lemma {:induction false} ExpandedSpells(tokens: seq<Token>, values: Values, from: nat)
    requires PlainChars(tokens) && GoodLiterals(values)
    ensures var t := Expanded(tokens, values, from);
            Spelled(t) == Partial(tokens, values, from) && Partial(t, values, 0) == Partial(tokens, values, 0) &&
            PlainChars(t) && forall j :: 0 <= j < |t| && t[j].Slot? && t[j].n in values ==> t[j].n < from
    decreases |tokens|
  {
    if tokens != [] {
      var first, rest := tokens[0], tokens[1..];
      assert forall j :: 0 <= j < |rest| ==> rest[j] == tokens[j + 1];
      ExpandedSpells(rest, values, from);
      if first.Slot? && first.n >= from && first.n in values {
        CharsSpell(Literal(values[first.n]), Expanded(rest, values, from));
        CharsKept(Literal(values[first.n]), Expanded(rest, values, from), values);
      } else {
        assert ([first] + Expanded(rest, values, from))[1..] == Expanded(rest, values, from);
      }
    }
  }

  lemma {:induction false} ExpandedAppend(xs: seq<Token>, ys: seq<Token>, values: Values, from: nat)
    ensures Expanded(xs + ys, values, from) == Expanded(xs, values, from) + Expanded(ys, values, from)
    decreases |xs|
  {
    if xs == [] {
      assert xs + ys == ys;
    } else {
      assert (xs + ys)[1..] == xs[1..] + ys;
      ExpandedAppend(xs[1..], ys, values, from);
    }
  }

  function Marked(keys: set<nat>): (values: Values)
    ensures values.Keys == keys && forall n :: n in keys ==> values[n] == Other(MARK)
  {
    map n | n in keys :: Other(MARK)
  }

  /** A slot without a value that starts with the numeral of one with a value: marks everywhere bring it out. */
  lemma MissingMisread(tokens: seq<Token>, keys: set<nat>, i: nat, m: nat)
    requires PlainChars(tokens) && i < |tokens| && tokens[i].Slot? && tokens[i].n !in keys
    requires m in keys && Decimal(m) <= Decimal(tokens[i].n)
    ensures !FilledRight(tokens, Marked(keys))
  {
    var values, numbers := Marked(keys), Descending(keys);
    var a, behind := tokens[i].n, DigitsAhead(tokens[i + 1..]);
    DescendingOrder(keys);
    assert m in numbers && Decimal(m) <= Decimal(a) + behind;
    assert Hit(a, behind, numbers);
    Shortened(tokens, values, numbers, i);
  }

  /** Slot `b` right behind slot `a`, and a number `c` below `b` whose numeral continues that of `a`. */
  ghost predicate Collides(tokens: seq<Token>, keys: set<nat>, i: nat, c: nat) {
    i + 1 < |tokens| && tokens[i].Slot? && tokens[i + 1].Slot? && tokens[i + 1].n in keys && c in keys &&
    c < tokens[i + 1].n && Decimal(tokens[i].n) < Decimal(c)
  }

  /** Filling slot `b` with the digits that continue the numeral brings that out. */
  lemma TouchingMisread(tokens: seq<Token>, keys: set<nat>, i: nat, c: nat, values: Values, w: string)
    requires PlainChars(tokens) && Maximal(tokens) && LeftAlone(tokens, keys) && Collides(tokens, keys, i, c)
    requires values == Marked(keys)[tokens[i + 1].n := Other(w)] && Decimal(c) == Decimal(tokens[i].n) + w
    ensures values.Keys == keys && GoodLiterals(values) && !FilledRight(tokens, values)
  {
    var b := tokens[i + 1].n;
    assert values.Keys == keys && IsDigit(Decimal(c)[|Decimal(c)| - 1]);
    assert AllDigits(w) by {
      assert forall k :: 0 <= k < |w| ==> w[k] == Decimal(c)[|Decimal(tokens[i].n)| + k];
    }
    CollidingLiterals(values, keys, b, w);
    SeparatedAbove(tokens, values, b);
    var lower := SpelledDownTo(tokens, values, b);
    ExpandedSpells(tokens, values, b);
    ContinuedNumeral(tokens[i].n, c);
    var j := CollisionExpanded(tokens, values, i, b, w);
    CollisionHits(tokens[i].n, c, w, Expanded(tokens, values, b), lower, j);
    Shortened(Expanded(tokens, values, b), values, lower, j);
  }

  lemma CollisionHits(a: nat, c: nat, w: string, t: seq<Token>, numbers: seq<nat>, j: nat)
    requires j < |t| && t[j] == Slot(a) && c in numbers && Decimal(c) == Decimal(a) + w && w != ""
    requires w <= DigitsAhead(t[j + 1..])
    ensures MisreadAt(t, numbers, j)
  {
    var behind := DigitsAhead(t[j + 1..]);
    assert behind == w + behind[|w|..];
    assert Decimal(a) + behind == Decimal(c) + behind[|w|..];
    assert Hit(a, behind, numbers);
  }

  lemma CollidingLiterals(values: Values, keys: set<nat>, b: nat, w: string)
    requires b in keys && values == Marked(keys)[b := Other(w)] && AllDigits(w) && w != ""
    ensures GoodLiterals(values) && Literal(values[b]) == w
    ensures forall n :: n in values && n != b ==> Literal(values[n]) == MARK
  {
  }

  lemma SeparatedAbove(tokens: seq<Token>, values: Values, b: nat)
    requires Maximal(tokens) && forall n :: n in values && n != b ==> Literal(values[n]) == MARK
    ensures Separated(tokens, values, b + 1)
  {
  }

  lemma CollisionExpanded(tokens: seq<Token>, values: Values, i: nat, b: nat, w: string) returns (j: nat)
    requires i + 1 < |tokens| && tokens[i].Slot? && tokens[i + 1] == Slot(b) && tokens[i].n < b
    requires b in values && Literal(values[b]) == w && AllDigits(w)
    ensures var t := Expanded(tokens, values, b);
            j < |t| && t[j] == tokens[i] && w <= DigitsAhead(t[j + 1..])
  {
    var before, after := tokens[..i], tokens[i + 2..];
    var pair := [tokens[i], tokens[i + 1]];
    assert tokens == before + (pair + after);
    ExpandedAppend(before, pair + after, values, b);
    assert (pair + after)[1..] == [tokens[i + 1]] + after && ([tokens[i + 1]] + after)[1..] == after;
    var tail := Chars(w) + Expanded(after, values, b);
    assert Expanded([tokens[i + 1]] + after, values, b) == tail;
    assert Expanded(pair + after, values, b) == [tokens[i]] + tail;
    j := |Expanded(before, values, b)|;
    var t := Expanded(tokens, values, b);
    assert t == Expanded(before, values, b) + ([tokens[i]] + tail);
    assert t[j + 1..] == tail;
    DigitCharsAhead(w, Expanded(after, values, b));
  }

  /** For whatever values of these numbers. */
  ghost predicate AlwaysFilledRight(tokens: seq<Token>, keys: set<nat>) {
    forall values: Values :: values.Keys == keys && GoodLiterals(values) ==> FilledRight(tokens, values)
  }

  lemma UnreadIsSeparated(tokens: seq<Token>, values: Values)
    requires Maximal(tokens) && NoneMisread(tokens, values.Keys)
    ensures Separated(tokens, values, 0)
  {
  }

  lemma MisreadMissing(tokens: seq<Token>, keys: set<nat>)
    requires PlainChars(tokens) && !LeftAlone(tokens, keys)
    ensures !AlwaysFilledRight(tokens, keys)
  {
    var i, m :| 0 <= i < |tokens| && tokens[i].Slot? && tokens[i].n !in keys && m in keys &&
      Decimal(m) <= Decimal(tokens[i].n);
    MissingMisread(tokens, keys, i, m);
    assert GoodLiterals(Marked(keys));
  }

  lemma MisreadTouching(tokens: seq<Token>, keys: set<nat>)
    requires PlainChars(tokens) && Maximal(tokens) && LeftAlone(tokens, keys) && !NoneMisread(tokens, keys)
    ensures !AlwaysFilledRight(tokens, keys)
  {
    var i :| 0 <= i < |tokens| - 1 && tokens[i].Slot? && tokens[i + 1].Slot? && tokens[i + 1].n in keys &&
      !NoneBetween(tokens[i].n, tokens[i + 1].n, keys);
    var c :| c in keys && c < tokens[i + 1].n && Decimal(tokens[i].n) < Decimal(c);
    assert Collides(tokens, keys, i, c);
    PrefixAndRest(Decimal(tokens[i].n), Decimal(c));
    CollisionMisread(tokens, keys, i, c, Decimal(c)[|Decimal(tokens[i].n)|..]);
  }

  lemma CollisionMisread(tokens: seq<Token>, keys: set<nat>, i: nat, c: nat, w: string)
    requires PlainChars(tokens) && Maximal(tokens) && LeftAlone(tokens, keys) && Collides(tokens, keys, i, c)
    requires Decimal(c) == Decimal(tokens[i].n) + w
    ensures !AlwaysFilledRight(tokens, keys)
  {
    var values := Marked(keys)[tokens[i + 1].n := Other(w)];
    TouchingMisread(tokens, keys, i, c, values, w);
    NotAlways(tokens, keys, values);
  }

  lemma NotAlways(tokens: seq<Token>, keys: set<nat>, values: Values)
    requires values.Keys == keys && GoodLiterals(values) && !FilledRight(tokens, values)
    ensures !AlwaysFilledRight(tokens, keys)
  {
  }

  lemma PrefixAndRest(a: string, b: string)
    requires a <= b
    ensures b == a + b[|a|..]
  {
  }

  lemma UnreadIsFilled(tokens: seq<Token>, keys: set<nat>)
    requires PlainChars(tokens) && Maximal(tokens) && NoneMisread(tokens, keys)
    ensures AlwaysFilledRight(tokens, keys)
  {
    forall values: Values | values.Keys == keys && GoodLiterals(values) ensures FilledRight(tokens, values) {
      UnreadIsSeparated(tokens, values);
      SpelledIsFilled(tokens, values);
    }
  }

  /** For every query whose `$` only start slots, and every set of numbers that have values: whatever the values, each
      slot that has one is filled with it and each other is left alone, exactly when no slot can be misread. */
  lemma FilledRightExactlyWhen(sql: string, keys: set<nat>)
    requires PlainNumbers(sql) && PlainChars(Tokens(sql))
    ensures Spelled(Tokens(sql)) == sql
    ensures AlwaysFilledRight(Tokens(sql), keys) <==> NoneMisread(Tokens(sql), keys)
  {
    var tokens := Tokens(sql);
    TokensSpell(sql);
    TokensMaximal(sql);
    if NoneMisread(tokens, keys) {
      UnreadIsFilled(tokens, keys);
    } else if !LeftAlone(tokens, keys) {
      MisreadMissing(tokens, keys);
    } else {
      MisreadTouching(tokens, keys);
    }
  }

  predicate TouchingMayTouch(tokens: seq<Token>) {
    forall i :: 0 <= i < |tokens| - 1 && tokens[i].Slot? && tokens[i + 1].Slot? ==>
      MayTouch(tokens[i].n, tokens[i + 1].n)
  }

  /** `b` is at most ten times `a`, or `a` is 0: no numeral below `b` continues that of `a`. */
  predicate MayTouch(a: nat, b: nat) {
    a == 0 || b <= 10 * a
  }

  lemma NoneBetweenTouching(a: nat, b: nat, keys: set<nat>)
    requires MayTouch(a, b)
    ensures NoneBetween(a, b, keys)
  {
    forall c | c in keys && c < b ensures !(Decimal(a) < Decimal(c)) {
      if Decimal(a) < Decimal(c) {
        ContinuedNumeral(a, c);
      }
    }
  }

  function Slots(tokens: seq<Token>): set<nat> {
    set i | 0 <= i < |tokens| && tokens[i].Slot? :: tokens[i].n
  }

  ghost predicate AlwaysSimultaneous(sql: string) {
    forall values: Values :: HasValues(Tokens(sql), values) && GoodLiterals(values) ==>
      ReplaceEach(sql, values, Descending(values.Keys)) == Filled(Tokens(sql), values)
  }

  /** For every query whose `$` only start slots: whatever values there are for all its slots, and whatever other
      values there are, sequential replacement is filling all slots at once exactly when no slot is directly followed
      by one of more than ten times its number. */
  lemma TouchingSlotsFilledExactlyWhen(sql: string)
    requires PlainNumbers(sql) && PlainChars(Tokens(sql))
    ensures AlwaysSimultaneous(sql) <==> TouchingMayTouch(Tokens(sql))
  {
    var tokens := Tokens(sql);
    if TouchingMayTouch(tokens) {
      forall values: Values | HasValues(tokens, values) && GoodLiterals(values)
        ensures ReplaceEach(sql, values, Descending(values.Keys)) == Filled(tokens, values)
      {
        TouchingIsUnread(tokens, values);
        FilledRightExactlyWhen(sql, values.Keys);
        assert FilledRight(tokens, values);
        PartialIsFilled(tokens, values);
      }
    } else {
      var i :| 0 <= i < |tokens| - 1 && tokens[i].Slot? && tokens[i + 1].Slot? &&
        !MayTouch(tokens[i].n, tokens[i + 1].n);
      var keys := Slots(tokens) + {10 * tokens[i].n};
      TenfoldCollides(tokens, keys, i);
      FilledRightExactlyWhen(sql, keys);
      var values: Values :| values.Keys == keys && GoodLiterals(values) && !FilledRight(tokens, values);
      assert HasValues(tokens, values);
      PartialIsFilled(tokens, values);
    }
  }

  lemma TouchingIsUnread(tokens: seq<Token>, values: Values)
    requires TouchingMayTouch(tokens) && HasValues(tokens, values)
    ensures NoneMisread(tokens, values.Keys)
  {
    forall i | 0 <= i < |tokens| - 1 && tokens[i].Slot? && tokens[i + 1].Slot? && tokens[i + 1].n in values
      ensures NoneBetween(tokens[i].n, tokens[i + 1].n, values.Keys)
    {
      NoneBetweenTouching(tokens[i].n, tokens[i + 1].n, values.Keys);
    }
  }

  lemma TenfoldCollides(tokens: seq<Token>, keys: set<nat>, i: nat)
    requires i + 1 < |tokens| && tokens[i].Slot? && tokens[i + 1].Slot? && !MayTouch(tokens[i].n, tokens[i + 1].n)
    requires tokens[i + 1].n in keys && 10 * tokens[i].n in keys
    ensures !NoneMisread(tokens, keys)
  {
    var a := tokens[i].n;
    assert Decimal(10 * a) == Decimal(a) + "0";
    assert Decimal(a) < Decimal(10 * a);
  }
}
