/** The values that fill a parameterized query, and the texts that stand for them (cli/shared/parameter_prompt.py).
    Values are keyed by slot number, which is the source's position plus one. */
module PromptValues {
  import opened Wrappers
  import opened Text

  /** A value is a Python str, or anything else, known by its str(). */
  datatype Value = Str(s: string) | Other(text: string)

  type Values = map<nat, Value>

  function Doubled(s: string): string
    decreases |s|
  {
    if s == "" then "" else (if s[0] == '\'' then "''" else [s[0]]) + Doubled(s[1..])
  }

  predicate IsQuoted(v: Value) {
    v.Str? && (v.s == "" || !AllDigits(v.s))
  }

  /** The SQL text that stands for a value. */
  function Literal(v: Value): string {
    if IsQuoted(v) then "'" + Doubled(v.s) + "'" else if v.Str? then v.s else v.text
  }

  predicate StartsSlot(s: string) {
    |s| > 1 && s[0] == '$' && IsDigit(s[1])
  }

  predicate HasSlot(s: string) {
    exists i :: 0 <= i < |s| - 1 && s[i] == '$' && IsDigit(s[i + 1])
  }

  predicate DollarFree(s: string) {
    forall i :: 0 <= i < |s| ==> s[i] != '$'
  }

  predicate StartsWithDigit(s: string) {
    s != "" && IsDigit(s[0])
  }

  lemma Associate(a: string, b: string, c: string)
    ensures a + (b + c) == a + b + c
  {
  }

  lemma FirstAndRest(s: string)
    requires s != ""
    ensures s == [s[0]] + s[1..]
  {
  }

  // ---------- Reading a literal back ----------

  /** What SQL reads in a quoted literal, and what is left of the text behind it. */
  datatype Reading = Reading(value: string, rest: string)

  /** The literal whose opening quote was just read: two quotes in a row are one, a single one ends it. */
  function ReadBody(s: string): Option<Reading>
    decreases |s|
  {
    if s == "" then None
    else if s[0] != '\'' then More(s[0], ReadBody(s[1..]))
    else if |s| > 1 && s[1] == '\'' then More('\'', ReadBody(s[2..]))
    else Some(Reading("", s[1..]))
  }

  function More(c: char, r: Option<Reading>): Option<Reading> {
    if r.Some? then Some(Reading([c] + r.value.value, r.value.rest)) else None
  }

  /** The quoted literal at the head of a text. */
  function ReadLiteral(s: string): Option<Reading> {
    if s != "" && s[0] == '\'' then ReadBody(s[1..]) else None
  }

  predicate StartsWithQuote(s: string) {
    s != "" && s[0] == '\''
  }

  lemma {:induction false} BodyReadsBack(s: string, rest: string)
    requires !StartsWithQuote(rest)
    ensures ReadBody(Doubled(s) + "'" + rest) == Some(Reading(s, rest))
    decreases |s|
  {
    var whole := Doubled(s) + "'" + rest;
    if s == "" {
      assert whole[1..] == rest;
    } else {
      BodyReadsBack(s[1..], rest);
      var tail := Doubled(s[1..]) + "'" + rest;
      FirstAndRest(s);
      if s[0] == '\'' {
        assert whole[2..] == tail && whole[0] == '\'' && whole[1] == '\'';
      } else {
        assert whole[1..] == tail && whole[0] == s[0];
      }
    }
  }

  lemma {:induction false} BodyReadsOn(s: string, rest: string)
    ensures var r := ReadBody(Doubled(s) + "''" + rest);
            r.Some? ==> |r.value.rest| < |rest| && |s| < |r.value.value|
    decreases |s|
  {
    var whole := Doubled(s) + "''" + rest;
    if s == "" {
      assert whole[2..] == rest;
      BodyShrinks(rest);
    } else {
      BodyReadsOn(s[1..], rest);
      var tail := Doubled(s[1..]) + "''" + rest;
      if s[0] == '\'' {
        assert whole[2..] == tail && whole[0] == '\'' && whole[1] == '\'';
      } else {
        assert whole[1..] == tail && whole[0] == s[0];
      }
    }
  }

  lemma {:induction false} BodyShrinks(s: string)
    ensures ReadBody(s).Some? ==> |ReadBody(s).value.rest| < |s|
    decreases |s|
  {
    if s != "" && (s[0] != '\'' || (|s| > 1 && s[1] == '\'')) {
      BodyShrinks(if s[0] != '\'' then s[1..] else s[2..]);
    }
  }

  /** A quoted value reads back as itself, in front of any text, exactly when that text does not start with a quote. */
  lemma LiteralReadsBackExactlyWhen(v: Value, rest: string)
    requires IsQuoted(v)
    ensures ReadLiteral(Literal(v) + rest) == Some(Reading(v.s, rest)) <==> !StartsWithQuote(rest)
  {
    QuotedBody(v.s, rest, Literal(v) + rest);
    if StartsWithQuote(rest) {
      BodyReadsOn(v.s, rest[1..]);
      FirstAndRest(rest);
      Associate(Doubled(v.s) + "'", "'", rest[1..]);
      Associate(Doubled(v.s), "'", "'");
      assert "'" + "'" == "''" && [rest[0]] == "'";
    } else {
      BodyReadsBack(v.s, rest);
    }
  }

  lemma QuotedBody(s: string, rest: string, whole: string)
    requires whole == "'" + Doubled(s) + "'" + rest
    ensures ReadLiteral(whole) == ReadBody(Doubled(s) + "'" + rest)
  {
    assert whole[0] == '\'' && whole[1..] == Doubled(s) + "'" + rest;
  }

  /** A string is quoted exactly when it is empty or some character is no digit; all other values stand for themselves,
      so that numerals stay numerals. */
  lemma QuotedExactlyWhen(v: Value)
    ensures IsQuoted(v) <==> v.Str? && (v.s == "" || exists c :: c in v.s && !('0' <= c <= '9'))
    ensures v.Str? ==> (StartsWithQuote(Literal(v)) <==> IsQuoted(v))
    ensures !IsQuoted(v) ==> Literal(v) == match v case Str(s) => s case Other(text) => text
  {
    if v.Str? && v.s != "" {
      if !AllDigits(v.s) {
        var i :| 0 <= i < |v.s| && !IsDigit(v.s[i]);
        assert v.s[i] in v.s;
      } else {
        assert IsDigit(v.s[0]);
      }
    }
  }
}
