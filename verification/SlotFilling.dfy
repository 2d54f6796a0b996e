/** Filling the `$n` slots of a query, one number after the other (cli/shared/parameter_prompt.py). */
module SlotFilling {
  import opened Wrappers
  import opened Text
  import opened PromptValues

  // ---------- Sequential replacement ----------

  /** str.replace. */
  function Replace(s: string, pattern: string, replacement: string): string
    requires pattern != ""
    decreases |s|
  {
    if |s| < |pattern| then s
    else if pattern <= s then replacement + Replace(s[|pattern|..], pattern, replacement)
    else [s[0]] + Replace(s[1..], pattern, replacement)
  }

  function Placeholder(n: nat): string {
    "$" + Decimal(n)
  }

  function ReplaceEach(sql: string, values: Values, numbers: seq<nat>): string
    requires forall n :: n in numbers ==> n in values
    decreases |numbers|
  {
    if numbers == [] then sql
    else ReplaceEach(Replace(sql, Placeholder(numbers[0]), Literal(values[numbers[0]])), values, numbers[1..])
  }

  lemma {:induction false} HasMax(keys: set<nat>) returns (m: nat)
    requires keys != {}
    ensures m in keys && forall k :: k in keys ==> k <= m
    decreases |keys|
  {
    var some: nat :| some in keys;
    var others := keys - {some};
    assert keys == others + {some};
    m := some;
    if others != {} {
      var other := HasMax(others);
      m := if other > some then other else some;
    }
  }

  ghost function Max(keys: set<nat>): (m: nat)
    requires keys != {}
    ensures m in keys && forall k :: k in keys ==> k <= m
  {
    assert exists m: nat :: m in keys && forall k :: k in keys ==> k <= m by {
      var m := HasMax(keys);
    }
    var m: nat :| m in keys && forall k :: k in keys ==> k <= m;
    m
  }

  /** The slot numbers that have a value, highest first. */
  ghost function Descending(keys: set<nat>): (numbers: seq<nat>)
    ensures forall n :: n in numbers <==> n in keys
    decreases |keys|
  {
    if keys == {} then []
    else
      var m := Max(keys);
      assert |keys - {m}| < |keys|;
      [m] + Descending(keys - {m})
  }

  predicate StrictlyDown(numbers: seq<nat>) {
    forall i, j :: 0 <= i < j < |numbers| ==> numbers[i] > numbers[j]
  }

  lemma DownCons(m: nat, rest: seq<nat>)
    requires StrictlyDown(rest) && forall n :: n in rest ==> n < m
    ensures StrictlyDown([m] + rest)
  {
    var numbers := [m] + rest;
    forall i, j | 0 <= i < j < |numbers| ensures numbers[i] > numbers[j] {
      assert numbers[j] == rest[j - 1] && rest[j - 1] in rest;
      if i > 0 {
        assert numbers[i] == rest[i - 1];
      }
    }
  }

  lemma {:induction false} DescendingOrder(keys: set<nat>)
    ensures StrictlyDown(Descending(keys))
    decreases |keys|
  {
    if keys != {} {
      var m := Max(keys);
      assert |keys - {m}| < |keys|;
      DescendingOrder(keys - {m});
      DownCons(m, Descending(keys - {m}));
    }
  }

  /** A number above all keys. */
  ghost function Above(keys: set<nat>): (n: nat)
    ensures forall k :: k in keys ==> k < n
  {
    if keys == {} then 0 else Max(keys) + 1
  }

  // ---------- Slots ----------

  function Run(s: string): (k: nat)
    ensures k <= |s| && AllDigits(s[..k]) && (k < |s| ==> !IsDigit(s[k]))
    decreases |s|
  {
    if s != "" && IsDigit(s[0]) then
      var k := Run(s[1..]);
      assert s[..k + 1] == [s[0]] + s[1..][..k];
      k + 1
    else 0
  }

  datatype Token = Char(c: char) | Slot(n: nat)

  /** The text as characters and `$n` slots. */
  function Tokens(s: string): seq<Token>
    decreases |s|
  {
    if s == "" then []
    else if StartsSlot(s) then
      var k := Run(s[1..]);
      [Slot(DigitsValue(s[1..][..k]))] + Tokens(s[k + 1..])
    else [Char(s[0])] + Tokens(s[1..])
  }

  /** No slot number of the text is written with leading zeros. */
  predicate PlainNumbers(s: string)
    decreases |s|
  {
    s == "" ||
    if StartsSlot(s) then
      var k := Run(s[1..]);
      (s[1] == '0' ==> k == 1) && PlainNumbers(s[k + 1..])
    else PlainNumbers(s[1..])
  }

  function TokenText(t: Token): string {
    if t.Slot? then Placeholder(t.n) else [t.c]
  }

  /** The tokens with the slots from `from` on filled. */
  function Partial(tokens: seq<Token>, values: Values, from: nat): string
    decreases |tokens|
  {
    if tokens == [] then ""
    else if tokens[0].Slot? && tokens[0].n >= from && tokens[0].n in values then
      Literal(values[tokens[0].n]) + Partial(tokens[1..], values, from)
    else TokenText(tokens[0]) + Partial(tokens[1..], values, from)
  }

  /** Every slot replaced at once. */
  function Filled(tokens: seq<Token>, values: Values): string
    requires HasValues(tokens, values)
    decreases |tokens|
  {
    if tokens == [] then ""
    else (if tokens[0].Slot? then Literal(values[tokens[0].n]) else [tokens[0].c]) + Filled(tokens[1..], values)
  }

  /** No numeral of a key below `b` continues that of `a`. */
  ghost predicate NoneBetween(a: nat, b: nat, keys: set<nat>) {
    forall c :: c in keys && c < b ==> !(Decimal(a) < Decimal(c))
  }

  /** With slot `b` filled right behind slot `a`, slot `a` still reads as itself to all lower numbers. */
  ghost predicate Apart(a: nat, b: nat, values: Values) {
    b in values ==> !StartsWithDigit(Literal(values[b])) || NoneBetween(a, b, values.Keys)
  }

  ghost predicate MayFollow(a: nat, next: Token, values: Values, from: nat) {
    if next.Char? then !IsDigit(next.c) else next.n < from || Apart(a, next.n, values)
  }

  /** What follows a slot cannot be read as more of its number, once the slots from `from` on are filled. */
  ghost predicate Separated(tokens: seq<Token>, values: Values, from: nat) {
    forall i :: 0 <= i < |tokens| - 1 && tokens[i].Slot? ==> MayFollow(tokens[i].n, tokens[i + 1], values, from)
  }

  /** `$` starts slots only. */
  predicate PlainChars(tokens: seq<Token>) {
    forall i :: 0 <= i < |tokens| && tokens[i].Char? ==> tokens[i].c != '$'
  }

  /** No literal is empty or brings a `$` in. */
  predicate GoodLiterals(values: Values) {
    forall n :: n in values ==> DollarFree(Literal(values[n])) && Literal(values[n]) != ""
  }

  /** Every slot has a value. */
  predicate HasValues(tokens: seq<Token>, values: Values) {
    forall i :: 0 <= i < |tokens| && tokens[i].Slot? ==> tokens[i].n in values
  }

  /** No slot without a value starts with the numeral of one that has a value. */
  ghost predicate LeftAlone(tokens: seq<Token>, keys: set<nat>) {
    forall i, m :: 0 <= i < |tokens| && tokens[i].Slot? && tokens[i].n !in keys && m in keys ==>
      !(Decimal(m) <= Decimal(tokens[i].n))
  }

  /** What a caller must ensure of the query and the values. */
  ghost predicate Substitutable(sql: string, values: Values) {
    PlainNumbers(sql) && PlainChars(Tokens(sql)) && GoodLiterals(values) && LeftAlone(Tokens(sql), values.Keys) &&
    TouchingSlotsApart(Tokens(sql), values)
  }

  ghost predicate TouchingSlotsApart(tokens: seq<Token>, values: Values) {
    forall i :: 0 <= i < |tokens| - 1 && tokens[i].Slot? && tokens[i + 1].Slot? ==>
      Apart(tokens[i].n, tokens[i + 1].n, values)
  }

  // ---------- Numbers and their text ----------

  lemma {:induction false} PrefixValue(s: string, k: nat)
    requires AllDigits(s) && k <= |s|
    ensures DigitsValue(s[..k]) <= DigitsValue(s)
    decreases |s|
  {
    if k < |s| {
      PrefixValue(s[..|s| - 1], k);
      assert s[..|s| - 1][..k] == s[..k];
    } else {
      assert s[..k] == s;
    }
  }

  lemma {:induction false} DecimalOfPlain(s: string)
    requires s != "" && AllDigits(s) && (s[0] == '0' ==> |s| == 1)
    ensures Decimal(DigitsValue(s)) == s
    ensures s[0] != '0' ==> DigitsValue(s) > 0
    decreases |s|
  {
    var front, last := s[..|s| - 1], s[|s| - 1];
    if front == "" {
      assert DigitsValue(front) == 0 && s == [last];
    } else {
      DecimalOfPlain(front);
      assert s == front + [last];
    }
  }

  lemma LongerIsNoPrefix(digits: string, low: string, rest: string)
    requires |digits| > |low| && AllDigits(digits) && !StartsWithDigit(rest)
    ensures !(digits <= low + rest)
  {
    assert IsDigit(digits[|low|]);
    assert rest != "" ==> (low + rest)[|low|] == rest[0];
  }

  lemma {:induction false} NoLeadingZero(m: nat)
    requires m > 0
    ensures Decimal(m)[0] != '0'
  {
    if m >= 10 {
      NoLeadingZero(m / 10);
    }
  }

  /** A numeral that continues the numeral of n stands for a number of at least 10 n, and n is not 0. */
  lemma ContinuedNumeral(n: nat, m: nat)
    requires |Decimal(m)| > |Decimal(n)| && Decimal(n) <= Decimal(m)
    ensures n > 0 && m >= 10 * n
  {
    var low, high := Decimal(n), Decimal(m);
    var longer := high[..|low| + 1];
    assert longer[..|low|] == low;
    DecimalRoundTrip(n);
    DecimalRoundTrip(m);
    PrefixValue(high, |low| + 1);
    assert low[0] == high[0];
    if m > 0 {
      NoLeadingZero(m);
    }
  }

  lemma DollarPrefix(m: nat, text: string)
    requires Placeholder(m) <= "$" + text
    ensures Decimal(m) <= text
  {
    assert Placeholder(m)[1..] == Decimal(m) && ("$" + text)[1..] == text;
    forall i | 0 <= i < |Decimal(m)| ensures i < |text| && Decimal(m)[i] == text[i] {
      assert Placeholder(m)[i + 1] == ("$" + text)[i + 1];
    }
  }

  lemma PrefixAfterDollar(n: nat, m: nat, rest: string)
    requires Placeholder(m) <= Placeholder(n) + rest
    ensures Decimal(m) <= Decimal(n) + rest
  {
    Associate("$", Decimal(n), rest);
    DollarPrefix(m, Decimal(n) + rest);
  }

  /** A placeholder reads as another one only if their numerals overlap: the other is a part of its own, or continues
      it with a digit that follows. */
  lemma NotReadAs(n: nat, m: nat, rest: string)
    requires n < m ==> !StartsWithDigit(rest) || !(Decimal(n) < Decimal(m))
    requires m < n ==> !(Decimal(m) <= Decimal(n))
    requires n != m
    ensures !(Placeholder(m) <= Placeholder(n) + rest)
  {
    var low, high := Decimal(n), Decimal(m);
    if Placeholder(m) <= Placeholder(n) + rest {
      PrefixAfterDollar(n, m, rest);
      if |high| > |low| {
        assert low <= high && low < high;
        ContinuedNumeral(n, m);
        LongerIsNoPrefix(high, low, rest);
      } else {
        assert high == low[..|high|];
        PrefixValue(low, |high|);
        DecimalRoundTrip(n);
        DecimalRoundTrip(m);
      }
    }
  }

  // ---------- One replacement ----------

  lemma ReplaceSkipsOne(c: char, rest: string, pattern: string, replacement: string, whole: string)
    requires pattern != "" && whole == [c] + rest && !(pattern <= whole)
    ensures Replace(whole, pattern, replacement) == [c] + Replace(rest, pattern, replacement)
  {
    assert whole[1..] == rest;
  }

  lemma {:induction false} ReplaceSkips(text: string, rest: string, pattern: string, replacement: string)
    requires DollarFree(text) && pattern != "" && pattern[0] == '$'
    ensures Replace(text + rest, pattern, replacement) == text + Replace(rest, pattern, replacement)
    decreases |text|
  {
    if text == "" {
      assert text + rest == rest;
    } else {
      ReplaceSkips(text[1..], rest, pattern, replacement);
      assert text + rest == [text[0]] + (text[1..] + rest);
      ReplaceSkipsOne(text[0], text[1..] + rest, pattern, replacement, text + rest);
    }
  }

  lemma ReplaceHit(n: nat, rest: string, replacement: string)
    ensures Replace(Placeholder(n) + rest, Placeholder(n), replacement) ==
            replacement + Replace(rest, Placeholder(n), replacement)
  {
    assert (Placeholder(n) + rest)[|Placeholder(n)|..] == rest;
  }

  lemma ReplaceMiss(n: nat, m: nat, rest: string, replacement: string)
    requires n < m ==> !StartsWithDigit(rest) || !(Decimal(n) < Decimal(m))
    requires m < n ==> !(Decimal(m) <= Decimal(n))
    requires n != m
    ensures Replace(Placeholder(n) + rest, Placeholder(m), replacement) ==
            Placeholder(n) + Replace(rest, Placeholder(m), replacement)
  {
    NotReadAs(n, m, rest);
    ReplaceSkipsSlot(Placeholder(n), Decimal(n), rest, Placeholder(m), replacement);
  }

  lemma ReplaceSkipsSlot(slot: string, digits: string, rest: string, pattern: string, replacement: string)
    requires slot == "$" + digits && DollarFree(digits) && pattern != "" && pattern[0] == '$'
    requires !(pattern <= slot + rest)
    ensures Replace(slot + rest, pattern, replacement) == slot + Replace(rest, pattern, replacement)
  {
    ReplaceSkips(digits, rest, pattern, replacement);
    Associate("$", digits, rest);
    Associate("$", digits, Replace(rest, pattern, replacement));
    ReplaceSkipsOne('$', digits + rest, pattern, replacement, slot + rest);
  }

  lemma PartialStart(tokens: seq<Token>, values: Values, from: nat, n: nat, m: nat)
    requires GoodLiterals(values) && m in values && m < from
    requires tokens != [] ==> MayFollow(n, tokens[0], values, from)
    ensures !StartsWithDigit(Partial(tokens, values, from)) || !(Decimal(n) < Decimal(m))
  {
  }

  lemma TailConditions(tokens: seq<Token>, values: Values, from: nat)
    requires PlainChars(tokens) && Separated(tokens, values, from) && LeftAlone(tokens, values.Keys) && tokens != []
    ensures var rest := tokens[1..];
            PlainChars(rest) && Separated(rest, values, from) && LeftAlone(rest, values.Keys)
  {
    var rest := tokens[1..];
    assert forall i :: 0 <= i < |rest| ==> rest[i] == tokens[i + 1];
  }

  /** Replacing the placeholder of the next lower number fills exactly its slots. */
  lemma {:induction false} ReplaceFillsNext(tokens: seq<Token>, values: Values, from: nat, m: nat)
    requires PlainChars(tokens) && Separated(tokens, values, from) && LeftAlone(tokens, values.Keys)
    requires GoodLiterals(values) && m in values && m < from
    requires forall n :: n in values ==> n <= m || n >= from
    ensures Replace(Partial(tokens, values, from), Placeholder(m), Literal(values[m])) == Partial(tokens, values, m)
    decreases |tokens|
  {
    if tokens != [] {
      var first, rest := tokens[0], tokens[1..];
      var tail, replacement := Partial(rest, values, from), Literal(values[m]);
      TailConditions(tokens, values, from);
      ReplaceFillsNext(rest, values, from, m);
      if first.Char? {
        ReplaceSkips([first.c], tail, Placeholder(m), replacement);
      } else if first.n >= from && first.n in values {
        ReplaceSkips(Literal(values[first.n]), tail, Placeholder(m), replacement);
      } else if first.n == m {
        ReplaceHit(m, tail, replacement);
      } else {
        assert rest != [] ==> rest[0] == tokens[1];
        PartialStart(rest, values, from, first.n, m);
        assert m < first.n ==> first.n !in values;
        ReplaceMiss(first.n, m, tail, replacement);
      }
    }
  }

  /** Replacing the numbers from `stop` up fills their slots; `lower` are the numbers still to come. */
  lemma {:induction false} ReplaceDownTo(tokens: seq<Token>, values: Values, numbers: seq<nat>, from: nat, stop: nat)
    returns (lower: seq<nat>)
    requires PlainChars(tokens) && Separated(tokens, values, stop + 1) && LeftAlone(tokens, values.Keys)
    requires GoodLiterals(values) && stop <= from
    requires (forall n :: n in numbers <==> n in values && n < from) && StrictlyDown(numbers)
    ensures (forall n :: n in lower <==> n in values && n < stop) && StrictlyDown(lower)
    ensures ReplaceEach(Partial(tokens, values, from), values, numbers) ==
            ReplaceEach(Partial(tokens, values, stop), values, lower)
    decreases |numbers|
  {
    if numbers == [] || numbers[0] < stop {
      lower := numbers;
      NoneFrom(values, numbers, from, stop);
      SamePartial(tokens, values, stop, from);
    } else {
      var m := numbers[0];
      NextLower(values, numbers, from);
      SeparatedLater(tokens, values, stop + 1, from);
      ReplaceFillsNext(tokens, values, from, m);
      lower := ReplaceDownTo(tokens, values, numbers[1..], m, stop);
    }
  }

  lemma SeparatedLater(tokens: seq<Token>, values: Values, from: nat, later: nat)
    requires Separated(tokens, values, from) && from <= later
    ensures Separated(tokens, values, later)
  {
  }

  /** The first of the numbers is the highest, and the others are those below it. */
  lemma NextLower(values: Values, numbers: seq<nat>, from: nat)
    requires (forall n :: n in numbers <==> n in values && n < from) && StrictlyDown(numbers) && numbers != []
    ensures numbers[0] in values && numbers[0] < from && StrictlyDown(numbers[1..])
    ensures forall n :: n in values ==> n <= numbers[0] || n >= from
    ensures forall n :: n in numbers[1..] <==> n in values && n < numbers[0]
  {
    var m, lower := numbers[0], numbers[1..];
    assert numbers == [m] + lower && m in numbers;
    forall n | n in numbers ensures n == m || n < m {
      var j :| 0 <= j < |numbers| && numbers[j] == n;
    }
    forall n ensures n in lower <==> n in values && n < m {
      if n in lower {
        var j :| 0 <= j < |lower| && lower[j] == n;
        assert numbers[j + 1] == n && n in numbers;
      }
      if n in values && n < m {
        assert n in numbers;
      }
    }
  }

  lemma NoneFrom(values: Values, numbers: seq<nat>, from: nat, stop: nat)
    requires (forall n :: n in numbers <==> n in values && n < from) && StrictlyDown(numbers) && stop <= from
    requires numbers == [] || numbers[0] < stop
    ensures forall n :: n in values ==> n < stop || n >= from
    ensures forall n :: n in numbers <==> n in values && n < stop
  {
    if numbers != [] {
      NextLower(values, numbers, from);
    }
    forall n | n in values ensures n < stop || n >= from {
      assert n < from ==> n in numbers;
    }
  }

  lemma {:induction false} SamePartial(tokens: seq<Token>, values: Values, low: nat, high: nat)
    requires low <= high && forall n :: n in values ==> n < low || n >= high
    ensures Partial(tokens, values, low) == Partial(tokens, values, high)
    decreases |tokens|
  {
    if tokens != [] {
      SamePartial(tokens[1..], values, low, high);
    }
  }

  // ---------- The query as tokens ----------

  lemma SpelledCons(first: Token, rest: seq<Token>)
    ensures Spelled([first] + rest) == TokenText(first) + Spelled(rest)
  {
    assert ([first] + rest)[1..] == rest;
  }

  lemma JoinAtSlot(s: string, k: nat, digits: string, rest: string)
    requires s != "" && s[0] == '$' && k < |s| && digits == s[1..][..k] && rest == s[k + 1..]
    ensures s == "$" + digits + rest
  {
  }

  lemma {:induction false} TokensSpell(s: string)
    requires PlainNumbers(s)
    ensures Spelled(Tokens(s)) == s
    decreases |s|
  {
    if s != "" {
      if StartsSlot(s) {
        var k := Run(s[1..]);
        var digits, rest := s[1..][..k], s[k + 1..];
        TokensSpell(rest);
        DecimalOfPlain(digits);
        JoinAtSlot(s, k, digits, rest);
        SpelledCons(Slot(DigitsValue(digits)), Tokens(rest));
      } else {
        TokensSpell(s[1..]);
        assert s == [s[0]] + s[1..];
        SpelledCons(Char(s[0]), Tokens(s[1..]));
      }
    }
  }

  /** No digit follows a slot: it would be part of the number. */
  predicate Maximal(tokens: seq<Token>) {
    forall i :: 0 <= i < |tokens| - 1 && tokens[i].Slot? && tokens[i + 1].Char? ==> !IsDigit(tokens[i + 1].c)
  }

  lemma {:induction false} TokensMaximal(s: string)
    ensures Maximal(Tokens(s))
    decreases |s|
  {
    if s != "" {
      var after := if StartsSlot(s) then s[Run(s[1..]) + 1..] else s[1..];
      TokensMaximal(after);
      assert Tokens(s) == [Tokens(s)[0]] + Tokens(after);
      if StartsSlot(s) && after != "" && Tokens(after)[0].Char? {
        assert after[0] == s[1..][Run(s[1..])];
      }
      MaximalCons(Tokens(s)[0], Tokens(after));
    }
  }

  lemma MaximalCons(first: Token, rest: seq<Token>)
    requires Maximal(rest)
    requires first.Slot? && rest != [] && rest[0].Char? ==> !IsDigit(rest[0].c)
    ensures Maximal([first] + rest)
  {
    forall i | 0 <= i < |rest| ensures ([first] + rest)[i + 1] == rest[i] {
    }
    forall i | 0 < i < |rest| ensures ([first] + rest)[i] == rest[i - 1] {
    }
  }

  lemma {:induction false} PartialIsFilled(tokens: seq<Token>, values: Values)
    requires HasValues(tokens, values)
    ensures Partial(tokens, values, 0) == Filled(tokens, values)
    decreases |tokens|
  {
    if tokens != [] {
      PartialIsFilled(tokens[1..], values);
    }
  }

  /** The tokens with every slot unfilled. */
  function Spelled(tokens: seq<Token>): string
    decreases |tokens|
  {
    if tokens == [] then "" else TokenText(tokens[0]) + Spelled(tokens[1..])
  }

  lemma {:induction false} PartialIsSpelled(tokens: seq<Token>, values: Values, from: nat)
    requires forall n :: n in values ==> n < from
    ensures Partial(tokens, values, from) == Spelled(tokens)
    decreases |tokens|
  {
    if tokens != [] {
      PartialIsSpelled(tokens[1..], values, from);
    }
  }

  lemma SpelledDownTo(tokens: seq<Token>, values: Values, stop: nat) returns (lower: seq<nat>)
    requires PlainChars(tokens) && Separated(tokens, values, stop + 1) && LeftAlone(tokens, values.Keys)
    requires GoodLiterals(values)
    ensures (forall n :: n in lower <==> n in values && n < stop) && StrictlyDown(lower)
    ensures ReplaceEach(Spelled(tokens), values, Descending(values.Keys)) ==
            ReplaceEach(Partial(tokens, values, stop), values, lower)
  {
    var from := if Above(values.Keys) > stop then Above(values.Keys) else stop;
    PartialIsSpelled(tokens, values, from);
    DescendingOrder(values.Keys);
    lower := ReplaceDownTo(tokens, values, Descending(values.Keys), from, stop);
  }

  /** Every slot with a value holds its own, every other is left. */
  ghost predicate FilledRight(tokens: seq<Token>, values: Values) {
    ReplaceEach(Spelled(tokens), values, Descending(values.Keys)) == Partial(tokens, values, 0)
  }

  lemma HasFirst(numbers: seq<nat>)
    requires numbers != []
    ensures exists n :: n in numbers
  {
    assert numbers[0] in numbers;
  }

  lemma SpelledIsFilled(tokens: seq<Token>, values: Values)
    requires PlainChars(tokens) && Separated(tokens, values, 0) && LeftAlone(tokens, values.Keys)
    requires GoodLiterals(values)
    ensures FilledRight(tokens, values)
  {
    SeparatedLater(tokens, values, 0, 1);
    var lower := SpelledDownTo(tokens, values, 0);
    if lower != [] {
      HasFirst(lower);
    }
  }

  /** Replacing the placeholders one number after the other, highest first, fills every slot that has a value with its
      own and leaves the others; with a value for each, it is filling all slots at once. */
  lemma SequentialIsSimultaneous(sql: string, values: Values)
    requires Substitutable(sql, values)
    ensures ReplaceEach(sql, values, Descending(values.Keys)) == Partial(Tokens(sql), values, 0)
    ensures HasValues(Tokens(sql), values) ==>
      ReplaceEach(sql, values, Descending(values.Keys)) == Filled(Tokens(sql), values)
  {
    TokensMaximal(sql);
    TokensSpell(sql);
    SpelledIsFilled(Tokens(sql), values);
    if HasValues(Tokens(sql), values) {
      PartialIsFilled(Tokens(sql), values);
    }
  }

  lemma {:induction false} PartialSplit(tokens: seq<Token>, values: Values, i: nat)
    requires i < |tokens| && tokens[i].Slot? && tokens[i].n in values
    ensures Partial(tokens, values, 0) ==
      Partial(tokens[..i], values, 0) + (Literal(values[tokens[i].n]) + Partial(tokens[i + 1..], values, 0))
    decreases i
  {
    if i > 0 {
      var rest := tokens[1..];
      PartialSplit(rest, values, i - 1);
      assert tokens[..i][1..] == rest[..i - 1] && rest[i..] == tokens[i + 1..];
      var t := tokens[0];
      var head := if t.Slot? && t.n in values then Literal(values[t.n]) else TokenText(t);
      Associate(head, Partial(rest[..i - 1], values, 0),
        Literal(values[tokens[i].n]) + Partial(tokens[i + 1..], values, 0));
    }
  }

  /** In the filled query a slot reads, as SQL, as its value itself if that is quoted, exactly when the next thing is no
      quote. */
  lemma SlotReadsBackExactlyWhen(sql: string, values: Values, i: nat)
    requires Substitutable(sql, values) && i < |Tokens(sql)| && Tokens(sql)[i].Slot?
    requires Tokens(sql)[i].n in values && IsQuoted(values[Tokens(sql)[i].n])
    ensures var tokens := Tokens(sql);
            var v, rest := values[tokens[i].n], Partial(tokens[i + 1..], values, 0);
            ReplaceEach(sql, values, Descending(values.Keys)) ==
            Partial(tokens[..i], values, 0) + (Literal(v) + rest) &&
            (ReadLiteral(Literal(v) + rest) == Some(Reading(v.s, rest)) <==> !StartsWithQuote(rest))
  {
    SequentialIsSimultaneous(sql, values);
    PartialSplit(Tokens(sql), values, i);
    LiteralReadsBackExactlyWhen(values[Tokens(sql)[i].n], Partial(Tokens(sql)[i + 1..], values, 0));
  }

  lemma {:induction false} FilledDollarFree(tokens: seq<Token>, values: Values)
    requires PlainChars(tokens) && HasValues(tokens, values) && GoodLiterals(values)
    ensures DollarFree(Filled(tokens, values))
    decreases |tokens|
  {
    if tokens != [] {
      FilledDollarFree(tokens[1..], values);
    }
  }

  lemma {:induction false} DollarFreeStays(text: string, values: Values, numbers: seq<nat>)
    requires DollarFree(text) && forall n :: n in numbers ==> n in values
    ensures ReplaceEach(text, values, numbers) == text
    decreases |numbers|
  {
    if numbers != [] {
      ReplaceSkips(text, "", Placeholder(numbers[0]), Literal(values[numbers[0]]));
      assert text + "" == text && Replace("", Placeholder(numbers[0]), Literal(values[numbers[0]])) == "";
      DollarFreeStays(text, values, numbers[1..]);
    }
  }

  /** A slot without a value of its own is left alone exactly when no number that has one reads as its start. */
  lemma MissingValueLeftExactlyWhen(n: nat, values: Values)
    requires n !in values && GoodLiterals(values)
    ensures ReplaceEach(Placeholder(n), values, Descending(values.Keys)) == Placeholder(n) <==>
      forall m :: m in values ==> !(Decimal(m) <= Decimal(n))
  {
    MissingValueIn(n, values, Descending(values.Keys));
  }

  lemma {:induction false} MissingValueIn(n: nat, values: Values, numbers: seq<nat>)
    requires GoodLiterals(values) && forall m :: m in numbers ==> m in values
    ensures ReplaceEach(Placeholder(n), values, numbers) == Placeholder(n) <==>
      forall m :: m in numbers ==> !(Decimal(m) <= Decimal(n))
    decreases |numbers|
  {
    if numbers != [] {
      var m, rest := numbers[0], numbers[1..];
      var replacement := Literal(values[m]);
      assert numbers == [m] + rest;
      if Decimal(m) <= Decimal(n) {
        var tail := Decimal(n)[|Decimal(m)|..];
        assert Placeholder(n) == Placeholder(m) + tail && DollarFree(tail);
        ReplaceHit(m, tail, replacement);
        ReplaceSkips(tail, "", Placeholder(m), replacement);
        assert tail + "" == tail && Replace("", Placeholder(m), replacement) == "";
        DollarFreeStays(replacement + tail, values, rest);
        assert (replacement + tail)[0] != '$';
      } else {
        assert Placeholder(n) + "" == Placeholder(n) && Decimal(n) + "" == Decimal(n);
        if Placeholder(m) <= Placeholder(n) + "" {
          PrefixAfterDollar(n, m, "");
        }
        ReplaceSkipsSlot(Placeholder(n), Decimal(n), "", Placeholder(m), replacement);
        assert Replace("", Placeholder(m), replacement) == "";
        MissingValueIn(n, values, rest);
      }
    }
  }

  lemma ReplaceEachStep(sql: string, next: string, values: Values, n: nat, rest: seq<nat>)
    requires n in values && forall k :: k in rest ==> k in values
    requires Replace(sql, Placeholder(n), Literal(values[n])) == next
    ensures ReplaceEach(sql, values, [n] + rest) == ReplaceEach(next, values, rest)
  {
    assert ([n] + rest)[1..] == rest;
  }
}
