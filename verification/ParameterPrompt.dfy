/** Filling the placeholders of a parameterized query (cli/shared/parameter_prompt.py, substitute_placeholders). */
module ParameterPrompt {
  import opened Text
  import opened PromptValues
  import opened SlotFilling
  import opened MarkFilling

  /** Filling every slot leaves no slot. */
  lemma SlotsResolved(sql: string, values: Values)
    requires Substitutable(sql, values) && HasValues(Tokens(sql), values)
    ensures !HasSlot(ReplaceEach(sql, values, Descending(values.Keys)))
  {
    SequentialIsSimultaneous(sql, values);
    FilledDollarFree(Tokens(sql), values);
  }

  /** `$1$20` with a value for 10 as well: what fills $20 completes the numeral of $10. */
  lemma TouchingSlotsExample(values: Values)
    requires values == map[1 := Str("7"), 10 := Str("8"), 20 := Str("0")]
    ensures Substituted("$1$20", values) == "8"
    ensures Tokens("$1$20") == [Slot(1), Slot(20)] && Filled([Slot(1), Slot(20)], values) == "70"
  {
    assert "$1$20"[0] == '$' && IsDigit("$1$20"[1]) && HasSlot("$1$20");
    assert values.Keys == {1, 10, 20};
    ThreeDown();
    ReplacedInTurn(values);
    TwoSlots();
    TwoFilled(values);
  }

  lemma TwoFilled(values: Values)
    requires 1 in values && 20 in values && Literal(values[1]) == "7" && Literal(values[20]) == "0"
    ensures Filled([Slot(1), Slot(20)], values) == "70"
  {
    assert [Slot(1), Slot(20)][1..] == [Slot(20)];
    assert Filled([Slot(20)], values) == "0";
  }

  lemma ReplacedInTurn(values: Values)
    requires {1, 10, 20} <= values.Keys
    requires Literal(values[1]) == "7" && Literal(values[10]) == "8" && Literal(values[20]) == "0"
    ensures ReplaceEach("$1$20", values, [20, 10, 1]) == "8"
  {
    ThreeReplaced();
    ReplaceEachStep("$1$20", "$10", values, 20, [10, 1]);
    ReplaceEachStep("$10", "8", values, 10, [1]);
    ReplaceEachStep("8", "8", values, 1, []);
    assert [20] + [10, 1] == [20, 10, 1] && [10] + [1] == [10, 1] && [1] + [] == [1];
  }

  lemma TwoSlots()
    ensures Tokens("$1$20") == [Slot(1), Slot(20)]
  {
    var sql := "$1$20";
    assert sql[1..] == "1$20" && sql[2..] == "$20" && "$20"[1..] == "20" && "$20"[3..] == "";
    assert "1$20"[1..] == "$20" && Run("1$20") == 1 && "1$20"[..1] == "1";
    assert "20"[1..] == "0" && "0"[1..] == "" && Run("0") == 1 && Run("20") == 2 && "20"[..2] == "20";
    assert "20"[..1] == "2" && "2"[..0] == "";
    DecimalRoundTrip(1);
    DecimalRoundTrip(20);
    assert Decimal(1) == "1" && Decimal(20) == "20";
    assert Tokens("$20") == [Slot(20)] + Tokens("");
  }

  lemma ThreeReplaced()
    ensures Replace("$1$20", Placeholder(20), "0") == "$10"
    ensures Replace("$10", Placeholder(10), "8") == "8" && Replace("8", Placeholder(1), "7") == "8"
  {
    assert Decimal(1) == "1" && Decimal(10) == "10" && Decimal(20) == "20";
    assert "$1$20"[1..] == "1$20" && "1$20"[1..] == "$20" && "$20" == "$20" + "" && "$10" == "$10" + "";
    ReplaceHit(20, "", "0");
    assert "$20" <= "$20" && Replace("$20", "$20", "0") == "0";
    assert Replace("1$20", "$20", "0") == "10";
    ReplaceHit(10, "", "8");
  }

  lemma ThreeDown()
    ensures Descending({1, 10, 20}) == [20, 10, 1]
  {
    DescendingStep({1, 10, 20}, 20);
    assert {1, 10, 20} - {20} == {1, 10};
    DescendingStep({1, 10}, 10);
    assert {1, 10} - {10} == {1};
    DescendingStep({1}, 1);
    assert {1} - {1} == {};
  }

  /** `$12` with a value for 1 only. */
  lemma MissingValueExample(values: Values)
    requires values == map[1 := Str("7")]
    ensures Substituted("$12", values) == "72" && Tokens("$12") == [Slot(12)]
  {
    var sql := "$12";
    assert sql[0] == '$' && IsDigit(sql[1]) && HasSlot(sql);
    DescendingStep({1}, 1);
    assert values.Keys == {1} && {1} - {1} == {} && [1] + [] == [1];
    assert Decimal(1) == "1" && Decimal(12) == "12" && Literal(values[1]) == "7";
    assert sql == Placeholder(1) + "2";
    ReplaceHit(1, "2", "7");
    assert Replace("2", "$1", "7") == "2";
    ReplaceEachStep(sql, "72", values, 1, []);
    OneSlot();
  }

  lemma OneSlot()
    ensures Tokens("$12") == [Slot(12)]
  {
    assert "$12"[1..] == "12" && "12"[1..] == "2" && "2"[1..] == "" && Run("2") == 1 && Run("12") == 2;
    assert "12"[..2] == "12" && "$12"[3..] == "" && Decimal(12) == "12";
    DecimalRoundTrip(12);
  }

  // ---------- The operation ----------

  ghost function Substituted(sql: string, values: Values): string {
    if HasSlot(sql) then ReplaceEach(sql, values, Descending(values.Keys))
    else FillFrom(sql, Blanked(sql), values, 1)
  }

  method SubstitutePlaceholders(sql: string, values: Values) returns (result: string)
    ensures result == Substituted(sql, values)
  {
    if HasSlot(sql) {
      result := ReplaceInTurn(sql, values);
    } else {
      result := FillMarks(sql, values);
    }
  }

  method Highest(keys: set<nat>) returns (m: nat)
    requires keys != {}
    ensures m in keys && forall k :: k in keys ==> k <= m
  {
    ghost var top := Max(keys);
    m :| m in keys && forall k :: k in keys ==> k <= m;
  }

  method ReplaceInTurn(sql: string, values: Values) returns (result: string)
    ensures result == ReplaceEach(sql, values, Descending(values.Keys))
  {
    result := sql;
    var remaining := values.Keys;
    while remaining != {}
      invariant remaining <= values.Keys
      invariant ReplacedSoFar(sql, values, result, remaining)
      decreases |remaining|
    {
      var number := Highest(remaining);
      ReplacedStep(sql, values, result, remaining, number);
      result := Replace(result, Placeholder(number), Literal(values[number]));
      remaining := remaining - {number};
    }
  }

  /** Replacing the remaining numbers gives what replacing all of them gives. */
  ghost predicate ReplacedSoFar(sql: string, values: Values, result: string, remaining: set<nat>) {
    remaining <= values.Keys &&
    ReplaceEach(result, values, Descending(remaining)) == ReplaceEach(sql, values, Descending(values.Keys))
  }

  lemma ReplacedStep(sql: string, values: Values, result: string, remaining: set<nat>, m: nat)
    requires ReplacedSoFar(sql, values, result, remaining)
    requires m in remaining && forall k :: k in remaining ==> k <= m
    ensures ReplacedSoFar(sql, values, Replace(result, Placeholder(m), Literal(values[m])), remaining - {m})
    ensures |remaining - {m}| < |remaining|
  {
    var rest := Descending(remaining - {m});
    DescendingStep(remaining, m);
    ReplaceEachStep(result, Replace(result, Placeholder(m), Literal(values[m])), values, m, rest);
  }

  method FillMarks(sql: string, values: Values) returns (result: string)
    ensures result == FillFrom(sql, Blanked(sql), values, 1)
  {
    var blanked := Blanked(sql);
    result := "";
    var lastEnd, number: nat, i := 0, 1, 0;
    ghost var written := "";
    FillStart(sql, blanked, values);
    while i < |sql|
      invariant lastEnd <= i <= |sql|
      invariant written == result + sql[lastEnd..i]
      invariant FilledSoFar(sql, blanked, values, written, number, i)
    {
      FillStep(sql, blanked, values, written, number, i);
      if blanked[i] == '?' {
        result := result + sql[lastEnd..i] + Literal(ValueAt(values, number));
        written := result;
        lastEnd, number := i + 1, number + 1;
      } else {
        Extend(result, sql, lastEnd, i);
        written := written + [sql[i]];
      }
      i := i + 1;
    }
    result := result + sql[lastEnd..];
    FillEnd(sql, blanked, values, result, number);
  }

  lemma FillStart(sql: string, blanked: string, values: Values)
    requires |blanked| == |sql|
    ensures FilledSoFar(sql, blanked, values, "", 1, 0)
  {
    assert sql[0..] == sql && blanked[0..] == blanked;
  }

  lemma FillEnd(sql: string, blanked: string, values: Values, written: string, n: nat)
    requires |blanked| == |sql| && FilledSoFar(sql, blanked, values, written, n, |sql|)
    ensures written == FillFrom(sql, blanked, values, 1)
  {
  }

  /** What has been written for the first `i` characters, followed by what the rest gives, is the whole result. */
  ghost predicate FilledSoFar(sql: string, blanked: string, values: Values, written: string, n: nat, i: nat)
    requires |blanked| == |sql| && i <= |sql|
  {
    written + FillFrom(sql[i..], blanked[i..], values, n) == FillFrom(sql, blanked, values, 1)
  }

  lemma Extend(a: string, s: string, from: nat, i: nat)
    requires from <= i < |s|
    ensures a + s[from..i + 1] == a + s[from..i] + [s[i]]
  {
    assert s[from..i + 1] == s[from..i] + [s[i]];
  }

  lemma DescendingStep(keys: set<nat>, m: nat)
    requires m in keys && forall k :: k in keys ==> k <= m
    ensures Descending(keys) == [m] + Descending(keys - {m})
  {
    assert Max(keys) == m;
  }

  lemma FillStep(sql: string, blanked: string, values: Values, written: string, n: nat, i: nat)
    requires |blanked| == |sql| && i < |sql| && FilledSoFar(sql, blanked, values, written, n, i)
    ensures if blanked[i] == '?' then
              FilledSoFar(sql, blanked, values, written + Literal(ValueAt(values, n)), n + 1, i + 1)
            else FilledSoFar(sql, blanked, values, written + [sql[i]], n, i + 1)
  {
    assert sql[i..][1..] == sql[i + 1..] && blanked[i..][1..] == blanked[i + 1..];
    if blanked[i] == '?' {
      Associate(written, Literal(ValueAt(values, n)), FillFrom(sql[i + 1..], blanked[i + 1..], values, n + 1));
    } else {
      Associate(written, [sql[i]], FillFrom(sql[i + 1..], blanked[i + 1..], values, n));
    }
  }
}
