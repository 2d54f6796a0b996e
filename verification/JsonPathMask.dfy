/** Keeping JSON path literals out of the reach of text normalizers
    (cli/shared/sql_json_paths.py). */
module JsonPathMask {
  import opened Wrappers
  import opened Text
  import opened SqlLiterals

  // ---------- Which literals are JSON paths ----------

  function Lower(s: string): string
    decreases |s|
  {
    if s == "" then ""
    else [if 'A' <= s[0] <= 'Z' then (s[0] as int + 32) as char else s[0]] + Lower(s[1..])
  }

  const JSON_PATH_FUNCTIONS := {
    "json_extract", "json_value", "json_query", "json_contains_path", "json_search", "json_keys", "json_length",
    "json_table", "json_exists", "jsonb_path_exists", "jsonb_path_match", "jsonb_path_query",
    "jsonb_path_query_array", "jsonb_path_query_first", "jsonb_path_exists_tz", "jsonb_path_query_tz",
    "jsonb_extract_path", "jsonb_extract_path_text", "json_extract_path", "json_extract_path_text"}

  /** The call whose opening parenthesis follows `head` is one of the JSON path functions. */
  predicate NamesPathFunction(head: string) {
    LastName(head) != "" && Lower(LastName(head)) in JSON_PATH_FUNCTIONS
  }

  /** How many more parentheses close than open from position `i` to the end. */
  function Level(s: string, i: nat): int
    requires i <= |s|
    decreases |s| - i
  {
    if i == |s| then 0
    else Level(s, i + 1) + if s[i] == ')' then 1 else if s[i] == '(' then -1 else 0
  }

  /** The parenthesis at `p` opens the innermost call that is still open at the end of the text, and no
      statement ends after it. */
  ghost predicate OpensInnermostCall(s: string, p: nat) {
    p < |s| && s[p] == '(' && Level(s, p + 1) == 0 &&
    forall i :: p < i < |s| ==> (s[i] == '(' ==> Level(s, i + 1) > 0) && s[i] != ';'
  }

  ghost predicate HasArgumentSeparator(s: string, from: nat) {
    exists c :: from <= c < |s| && s[c] == ',' && Level(s, c + 1) == 0
  }

  /** The text ends inside a call of a JSON path function, past its first argument. */
  ghost predicate EndsInLaterArgument(s: string) {
    exists p: nat :: OpensInnermostCall(s, p) && NamesPathFunction(s[..p]) && HasArgumentSeparator(s, p + 1)
  }

  method IsLaterJsonFunctionArgument(before: string) returns (r: bool)
    ensures r <==> EndsInLaterArgument(before)
  {
    var depth, sawComma, idx: nat := 0, false, |before|;
    while idx > 0
      invariant idx <= |before| && depth == Level(before, idx) && depth >= 0
      invariant sawComma <==> HasArgumentSeparator(before, idx)
      invariant NoOpenCallFrom(before, idx)
    {
      idx := idx - 1;
      var ch := before[idx];
      if ch == ')' {
        depth := depth + 1;
      } else if ch == '(' {
        if depth == 0 {
          OneInnermostCall(before, idx);
          return sawComma && NamesPathFunction(before[..idx]);
        }
        depth := depth - 1;
      } else if ch == ',' && depth == 0 {
        sawComma := true;
      } else if ch == ';' {
        NoCallAcrossStatementEnd(before, idx);
        return false;
      }
    }
    assert forall p: nat :: !OpensInnermostCall(before, p);
    return false;
  }

  /** No call opened at or after `from` is still open at the end, and no statement ends there. */
  ghost predicate NoOpenCallFrom(s: string, from: nat) {
    forall i :: from <= i < |s| ==> (s[i] == '(' ==> Level(s, i + 1) > 0) && s[i] != ';'
  }

  lemma OneInnermostCall(s: string, p: nat)
    requires p < |s| && s[p] == '(' && Level(s, p + 1) == 0 && NoOpenCallFrom(s, p + 1)
    ensures OpensInnermostCall(s, p)
    ensures forall q: nat :: OpensInnermostCall(s, q) ==> q == p
  {
    forall q: nat | q != p ensures !OpensInnermostCall(s, q) {
      if q < p {
        assert Level(s, p + 1) == 0;
      } else if q < |s| {
        assert s[q] == '(' ==> Level(s, q + 1) > 0;
      }
    }
  }

  lemma NoCallAcrossStatementEnd(s: string, i: nat)
    requires i < |s| && s[i] == ';' && NoOpenCallFrom(s, i + 1)
    ensures forall p: nat :: !OpensInnermostCall(s, p)
  {
  }

  predicate IsJsonPathByContext(s: string, span: Span)
    requires span.start + 2 <= span.end <= |s|
  {
    (span.start + 1 < span.end - 1 && s[span.start + 1] == '$') || FollowsJsonOperator(s[..span.start])
  }

  /** A literal is a path when it starts with `$`, follows a JSON operator, or is a later argument of a JSON
      path function. */
  ghost predicate IsJsonPathLiteral(s: string, span: Span) {
    span.start + 2 <= span.end <= |s| && (IsJsonPathByContext(s, span) || EndsInLaterArgument(s[..span.start]))
  }

  method ClassifyLiteral(s: string, span: Span) returns (r: bool)
    requires span.start + 2 <= span.end <= |s|
    ensures r <==> IsJsonPathLiteral(s, span)
  {
    if IsJsonPathByContext(s, span) {
      return true;
    }
    r := IsLaterJsonFunctionArgument(s[..span.start]);
  }

  /** What lower-casing means here: the 26 letters, one by one. */
  lemma {:induction false} LowerIs(s: string)
    ensures |Lower(s)| == |s|
    ensures forall i :: 0 <= i < |s| ==>
      if 'A' <= s[i] <= 'Z' then 'a' <= Lower(s)[i] <= 'z' && Lower(s)[i] - 'a' == s[i] - 'A' else Lower(s)[i] == s[i]
    decreases |s|
  {
    if s != "" {
      LowerIs(s[1..]);
    }
  }

  /** The body of the literal starts with `$`. */
  predicate StartsWithDollar(s: string, span: Span)
    requires span.start + 2 <= span.end <= |s|
  {
    "$" <= s[span.start + 1..span.end - 1]
  }

  /** The literal is in a later argument of the call whose function has this name. */
  ghost predicate LaterArgumentOf(before: string, p: nat, i: nat, j: nat) {
    OpensInnermostCall(before, p) && HasArgumentSeparator(before, p + 1) && NameAt(before[..p], i, j) &&
    Lower(before[..p][i..j]) in JSON_PATH_FUNCTIONS
  }

  /** A literal is a path exactly when its body starts with `$`, or only spaces stand between it and a JSON operator, or
      it is a later argument of a call whose name, as far as it goes back, is that of a JSON path function. */
  lemma IsPathExactlyWhen(s: string, span: Span)
    requires span.start + 2 <= span.end <= |s|
    ensures IsJsonPathLiteral(s, span) <==>
      StartsWithDollar(s, span) ||
      (exists j: nat, op: string :: op in {"->", "->>", "#>", "#>>"} && EndsInWord(s[..span.start], op, j)) ||
      exists p: nat, i: nat, j: nat :: LaterArgumentOf(s[..span.start], p, i, j)
  {
    var before := s[..span.start];
    FollowsOperatorExactlyWhen(before);
    LaterArgumentExactlyWhen(before);
    var body := s[span.start + 1..span.end - 1];
    assert body != "" ==> body[0] == s[span.start + 1];
  }

  lemma LaterArgumentExactlyWhen(before: string)
    ensures EndsInLaterArgument(before) <==> exists p: nat, i: nat, j: nat :: LaterArgumentOf(before, p, i, j)
  {
    if EndsInLaterArgument(before) {
      var p: nat :| OpensInnermostCall(before, p) && NamesPathFunction(before[..p]) &&
        HasArgumentSeparator(before, p + 1);
      LastNameExactlyWhen(before[..p], LastName(before[..p]));
      var i: nat, j: nat :| NameAt(before[..p], i, j) && before[..p][i..j] == LastName(before[..p]);
      assert LaterArgumentOf(before, p, i, j);
    }
    if exists p: nat, i: nat, j: nat :: LaterArgumentOf(before, p, i, j) {
      var p: nat, i: nat, j: nat :| LaterArgumentOf(before, p, i, j);
      LastNameExactlyWhen(before[..p], before[..p][i..j]);
      assert NamesPathFunction(before[..p]);
    }
  }

  // ---------- Masking ----------

  const SOH := '\U{1}'

  /** The stand-in for the k-th kept literal: k times \x01 between two NULs. */
  function Sentinel(k: nat): string {
    [NUL] + Repeat(SOH, k) + [NUL]
  }

  function Sentinels(ids: seq<nat>): (s: seq<string>)
    ensures |s| == |ids|
  {
    seq(|ids|, i requires 0 <= i < |ids| => Sentinel(ids[i]))
  }

  function CountFrom(first: nat, n: nat): seq<nat> {
    seq(n, i requires 0 <= i < n => first + i)
  }

  /** The texts with the pieces between them: t0 p1 t1 ... pn tn. */
  function Weave(texts: seq<string>, pieces: seq<string>): string
    requires |texts| == |pieces| + 1
    decreases |pieces|
  {
    if pieces == [] then texts[0] else texts[0] + pieces[0] + Weave(texts[1..], pieces[1..])
  }

  datatype Cut = Cut(texts: seq<string>, kept: seq<string>)

  ghost predicate ValidCut(sql: string, cut: Cut, cursor: nat) {
    cursor <= |sql| && |cut.texts| == |cut.kept| + 1 && Weave(cut.texts, cut.kept) == sql[cursor..] &&
    forall k :: 0 <= k < |cut.kept| ==> IsQuoted(cut.kept[k])
  }

  predicate IsQuoted(s: string) {
    |s| >= 2 && (s[0] == '\'' || s[0] == '"')
  }

  /** The text after the cursor, cut at those of the spans that are JSON paths. */
  ghost function CutPaths(sql: string, spans: seq<Span>, cursor: nat): (cut: Cut)
    requires cursor <= |sql| && InOrder(sql, spans, cursor)
    ensures ValidCut(sql, cut, cursor)
    decreases |spans|
  {
    if spans == [] then Cut([sql[cursor..]], [])
    else
      var span := spans[0];
      if IsJsonPathLiteral(sql, span) then
        var rest := CutPaths(sql, spans[1..], span.end);
        var texts, kept := [sql[cursor..span.start]] + rest.texts, [sql[span.start..span.end]] + rest.kept;
        assert texts[1..] == rest.texts && kept[1..] == rest.kept;
        assert sql[cursor..] == sql[cursor..span.start] + sql[span.start..span.end] + sql[span.end..];
        Cut(texts, kept)
      else
        InOrderFromEarlier(sql, spans[1..], span.end, cursor);
        CutPaths(sql, spans[1..], cursor)
  }

  lemma InOrderFromEarlier(sql: string, spans: seq<Span>, from: nat, earlier: nat)
    requires InOrder(sql, spans, from) && earlier <= from
    ensures InOrder(sql, spans, earlier)
  {
  }

  ghost function Paths(sql: string): (cut: Cut)
    ensures ValidCut(sql, cut, 0)
  {
    CutPaths(sql, FindStringLiterals(sql, 0), 0)
  }

  /** The cut text with its kept literals replaced by sentinels numbered from `first`. */
  ghost function Masked(cut: Cut, first: nat): string
    requires |cut.texts| == |cut.kept| + 1
  {
    Weave(cut.texts, Sentinels(CountFrom(first, |cut.kept|)))
  }

  /** What has been masked and kept, followed by what the remaining spans give, is the whole result. */
  ghost predicate MaskedSoFar(sql: string, spans: seq<Span>, cursor: nat, out: string, kept: seq<string>) {
    cursor <= |sql| && InOrder(sql, spans, cursor) &&
    var cut := CutPaths(sql, spans, cursor);
    kept + cut.kept == Paths(sql).kept && out + Masked(cut, |kept| + 1) == Masked(Paths(sql), 1)
  }

  /** All literals of the text that are paths, in their order. */
  ghost predicate ArePaths(sql: string, paths: seq<Span>) {
    InOrder(sql, paths, 0) &&
    exists spans :: AreLiterals(sql, spans, 0) && forall x :: x in paths <==> x in spans && IsJsonPathLiteral(sql, x)
  }

  method MaskJsonPaths(sql: string) returns (masked: string, kept: seq<string>, ghost paths: seq<Span>)
    ensures ArePaths(sql, paths) && CutAt(sql, 0, paths, Paths(sql))
    ensures kept == Paths(sql).kept
    ensures masked == Masked(Paths(sql), 1)
  {
    var spans := FindStringLiterals(sql, 0);
    var out, cursor: nat := "", 0;
    kept := [];
    var i := 0;
    assert spans[0..] == spans;
    while i < |spans|
      invariant i <= |spans| && MaskedSoFar(sql, spans[i..], cursor, out, kept)
    {
      var span := spans[i];
      assert span == spans[i..][0] && spans[i..][1..] == spans[i + 1..];
      var isPath := ClassifyLiteral(sql, span);
      if isPath {
        PathMasked(sql, spans[i..], cursor, out, kept);
        out := out + (sql[cursor..span.start] + Sentinel(|kept| + 1));
        kept := kept + [sql[span.start..span.end]];
        cursor := span.end;
      } else {
        InOrderFromEarlier(sql, spans[i + 1..], span.end, cursor);
      }
      i := i + 1;
    }
    masked := out + sql[cursor..];
    paths := PathsOf(sql);
  }

  lemma PathsOf(sql: string) returns (paths: seq<Span>)
    ensures ArePaths(sql, paths) && CutAt(sql, 0, paths, Paths(sql))
  {
    var spans := FindStringLiterals(sql, 0);
    LiteralsFoundExactlyWhen(sql, 0, spans);
    paths := PathsAreKept(sql, spans);
  }

  lemma PathMasked(sql: string, spans: seq<Span>, cursor: nat, out: string, kept: seq<string>)
    requires MaskedSoFar(sql, spans, cursor, out, kept) && spans != [] && IsJsonPathLiteral(sql, spans[0])
    ensures MaskedSoFar(sql, spans[1..], spans[0].end, out + (sql[cursor..spans[0].start] + Sentinel(|kept| + 1)),
      kept + [sql[spans[0].start..spans[0].end]])
  {
    var rest := CutPaths(sql, spans[1..], spans[0].end);
    PieceMasked(out, kept, sql[cursor..spans[0].start], sql[spans[0].start..spans[0].end], rest, Paths(sql).kept,
      Masked(Paths(sql), 1));
  }

  lemma PieceMasked(out: string, kept: seq<string>, text: string, piece: string, rest: Cut, allKept: seq<string>,
                    allMasked: string)
    requires |rest.texts| == |rest.kept| + 1
    requires kept + ([piece] + rest.kept) == allKept
    requires out + Masked(Cut([text] + rest.texts, [piece] + rest.kept), |kept| + 1) == allMasked
    ensures kept + [piece] + rest.kept == allKept
    ensures out + (text + Sentinel(|kept| + 1)) + Masked(rest, |kept + [piece]| + 1) == allMasked
  {
    MaskedStep(text, piece, rest, |kept| + 1);
    Reassociate(out, text, Sentinel(|kept| + 1), Masked(rest, |kept| + 2));
    Reassociate(kept, [], [piece], rest.kept);
  }

  lemma Reassociate<T>(a: seq<T>, b: seq<T>, c: seq<T>, d: seq<T>)
    ensures a + (b + c + d) == a + (b + c) + d
  {
  }

  lemma MaskedStep(text: string, piece: string, rest: Cut, first: nat)
    requires |rest.texts| == |rest.kept| + 1
    ensures Masked(Cut([text] + rest.texts, [piece] + rest.kept), first) ==
      text + Sentinel(first) + Masked(rest, first + 1)
  {
    var pieces := Sentinels(CountFrom(first, |rest.kept| + 1));
    assert ([text] + rest.texts)[1..] == rest.texts;
    assert pieces[1..] == Sentinels(CountFrom(first + 1, |rest.kept|));
  }

  /** The text is cut at these spans, the k-th of which is kept as the k-th literal. */
  ghost predicate CutAt(sql: string, cursor: nat, spans: seq<Span>, cut: Cut)
    decreases |spans|
  {
    cursor <= |sql| && |cut.texts| == |spans| + 1 && |cut.kept| == |spans| &&
    if spans == [] then cut.texts[0] == sql[cursor..]
    else
      cursor <= spans[0].start <= spans[0].end <= |sql| && cut.texts[0] == sql[cursor..spans[0].start] &&
      cut.kept[0] == sql[spans[0].start..spans[0].end] &&
      CutAt(sql, spans[0].end, spans[1..], Cut(cut.texts[1..], cut.kept[1..]))
  }

  ghost function PathSpans(sql: string, spans: seq<Span>): (paths: seq<Span>)
    decreases |spans|
  {
    if spans == [] then []
    else (if IsJsonPathLiteral(sql, spans[0]) then [spans[0]] else []) + PathSpans(sql, spans[1..])
  }

  lemma {:induction false} PathSpansAre(sql: string, spans: seq<Span>, from: nat)
    requires InOrder(sql, spans, from)
    ensures forall x :: x in PathSpans(sql, spans) <==> x in spans && IsJsonPathLiteral(sql, x)
    ensures InOrder(sql, PathSpans(sql, spans), from)
    decreases |spans|
  {
    if spans != [] {
      PathSpansAre(sql, spans[1..], spans[0].end);
      assert spans == [spans[0]] + spans[1..];
      if IsJsonPathLiteral(sql, spans[0]) {
        assert PathSpans(sql, spans)[1..] == PathSpans(sql, spans[1..]);
      } else {
        assert PathSpans(sql, spans) == PathSpans(sql, spans[1..]);
        InOrderFromEarlier(sql, PathSpans(sql, spans[1..]), spans[0].end, from);
      }
    }
  }

  lemma {:induction false} CutPathsAt(sql: string, spans: seq<Span>, cursor: nat)
    requires cursor <= |sql| && InOrder(sql, spans, cursor)
    ensures CutAt(sql, cursor, PathSpans(sql, spans), CutPaths(sql, spans, cursor))
    decreases |spans|
  {
    if spans != [] {
      var span := spans[0];
      if IsJsonPathLiteral(sql, span) {
        var rest, cut := CutPaths(sql, spans[1..], span.end), CutPaths(sql, spans, cursor);
        CutPathsAt(sql, spans[1..], span.end);
        assert PathSpans(sql, spans)[1..] == PathSpans(sql, spans[1..]);
        assert Cut(cut.texts[1..], cut.kept[1..]) == rest;
      } else {
        InOrderFromEarlier(sql, spans[1..], span.end, cursor);
        CutPathsAt(sql, spans[1..], cursor);
        assert PathSpans(sql, spans) == PathSpans(sql, spans[1..]);
      }
    }
  }

  /** Whatever the literals of a text are, masking keeps exactly those of them that are paths, in their order, and
      leaves the text between them. */
  lemma PathsAreKept(sql: string, spans: seq<Span>) returns (paths: seq<Span>)
    requires AreLiterals(sql, spans, 0)
    ensures forall x :: x in paths <==> x in spans && IsJsonPathLiteral(sql, x)
    ensures InOrder(sql, paths, 0) && CutAt(sql, 0, paths, Paths(sql))
  {
    LiteralsFoundExactlyWhen(sql, 0, spans);
    paths := PathSpans(sql, spans);
    PathSpansAre(sql, spans, 0);
    CutPathsAt(sql, spans, 0);
  }

  // ---------- Restoring ----------

  function LeadingOnes(s: string): (n: nat)
    ensures n <= |s| && (forall i :: 0 <= i < n ==> s[i] == SOH) && (n < |s| ==> s[n] != SOH)
    decreases |s|
  {
    if s != "" && s[0] == SOH then 1 + LeadingOnes(s[1..]) else 0
  }

  /** The number of a sentinel at the head of the text, 0 when there is none. */
  function HeadSentinel(s: string): (n: nat)
    ensures n > 0 ==> n + 2 <= |s| && s[..n + 2] == Sentinel(n)
  {
    if s == "" || s[0] != NUL then 0
    else
      var n := LeadingOnes(s[1..]);
      if n + 1 < |s| && s[n + 1] == NUL then n else 0
  }

  function Prepended(s: string, r: Option<string>): Option<string> {
    if r.Some? then Some(s + r.value) else None
  }

  /** Every sentinel replaced by the literal it stands for; None where that literal does not exist (IndexError). */
  function Restore(text: string, kept: seq<string>): Option<string>
    decreases |text|
  {
    if text == "" then Some("")
    else
      var n := HeadSentinel(text);
      if n == 0 then Prepended([text[0]], Restore(text[1..], kept))
      else if n > |kept| then None
      else Prepended(kept[n - 1], Restore(text[n + 2..], kept))
  }

  lemma SentinelAtHead(k: nat, rest: string)
    requires k > 0
    ensures HeadSentinel(Sentinel(k) + rest) == k
  {
    var s := Sentinel(k) + rest;
    var n := LeadingOnes(s[1..]);
    assert forall i :: 0 <= i < k ==> s[1..][i] == SOH;
    assert s[1..][k] == NUL;
  }

  /** No sentinel starts within the first `n` characters. */
  predicate NoSentinelStarts(s: string, n: nat)
    requires n <= |s|
  {
    forall i :: 0 <= i < n ==> HeadSentinel(s[i..]) == 0
  }

  predicate Restorable(kept: seq<string>) {
    forall k :: 0 <= k < |kept| ==> kept[k] != "" && kept[k][0] != NUL
  }

  /** Text ahead of `rest` survives restoring exactly when no sentinel starts in it. */
  lemma {:induction false} TextSurvivesExactlyWhen(text: string, rest: string, restored: string, kept: seq<string>)
    requires Restorable(kept)
    ensures Restore(text + rest, kept) == Some(text + restored) <==>
      NoSentinelStarts(text + rest, |text|) && Restore(rest, kept) == Some(restored)
    decreases |text|
  {
    if text == "" {
      assert text + rest == rest && text + restored == restored;
    } else {
      var whole, tail := text + rest, text[1..] + rest;
      assert whole[1..] == tail;
      assert text + restored == [text[0]] + (text[1..] + restored);
      if HeadSentinel(whole) == 0 {
        TextSurvivesExactlyWhen(text[1..], rest, restored, kept);
        assert forall i :: 0 <= i < |tail| ==> tail[i..] == whole[i + 1..];
        NoSentinelStartsStep(whole, |text|);
        SameAfterPrefix([text[0]], Restore(tail, kept), text[1..] + restored, text + restored);
      } else {
        assert whole[0..] == whole;
        var r := Restore(whole, kept);
        if r.Some? {
          assert r.value[0] != NUL;
        }
      }
    }
  }

  lemma NoSentinelStartsStep(s: string, n: nat)
    requires 0 < n <= |s| && HeadSentinel(s) == 0
    ensures NoSentinelStarts(s, n) <==> NoSentinelStarts(s[1..], n - 1)
  {
    assert s[0..] == s;
    assert forall i :: 0 <= i < n - 1 ==> s[1..][i..] == s[i + 1..];
    if NoSentinelStarts(s[1..], n - 1) {
      forall i | 0 <= i < n ensures HeadSentinel(s[i..]) == 0 {
        if i > 0 {
          assert s[i..] == s[1..][i - 1..];
        }
      }
    }
  }

  // ---------- Restoring undoes masking ----------

  predicate NulFree(s: string) {
    forall i :: 0 <= i < |s| ==> s[i] != NUL
  }

  /** No text holds what restoring would take for a sentinel, not even with the first NUL of the sentinel after it. */
  predicate NoStraySentinel(texts: seq<string>)
    requires texts != []
    decreases |texts|
  {
    if |texts| == 1 then NoSentinelStarts(texts[0], |texts[0]|)
    else NoSentinelStarts(texts[0] + [NUL], |texts[0]|) && NoStraySentinel(texts[1..])
  }

  lemma HeadStopsAtNul(u: string, rest: string)
    requires u != "" && rest != "" && rest[0] == NUL
    ensures HeadSentinel(u + rest) == HeadSentinel(u + [NUL])
  {
    if u[0] == NUL {
      var n, m := LeadingOnes((u + rest)[1..]), LeadingOnes((u + [NUL])[1..]);
      assert n < |u| && m < |u| by {
        assert (u + rest)[1..][|u| - 1] == NUL;
        assert (u + [NUL])[1..][|u| - 1] == NUL;
      }
      assert forall i :: 0 <= i < |u| ==> (u + rest)[1..][i] == (u + [NUL])[1..][i];
    }
  }

  lemma StartsStopAtNul(text: string, rest: string)
    requires rest != "" && rest[0] == NUL
    ensures NoSentinelStarts(text + rest, |text|) <==> NoSentinelStarts(text + [NUL], |text|)
  {
    forall i | 0 <= i < |text| ensures HeadSentinel((text + rest)[i..]) == HeadSentinel((text + [NUL])[i..]) {
      assert (text + rest)[i..] == text[i..] + rest && (text + [NUL])[i..] == text[i..] + [NUL];
      HeadStopsAtNul(text[i..], rest);
    }
  }

  function Chosen(ids: seq<nat>, kept: seq<string>): (pieces: seq<string>)
    requires forall i :: 0 <= i < |ids| ==> 1 <= ids[i] <= |kept|
    ensures |pieces| == |ids|
  {
    seq(|ids|, i requires 0 <= i < |ids| => kept[ids[i] - 1])
  }

  /** Restoring puts the chosen literals between the texts exactly when the texts hold no stray sentinel; the
      sentinels may repeat, touch and come in any order. */
  lemma {:induction false} RestoredExactlyWhen(texts: seq<string>, ids: seq<nat>, kept: seq<string>)
    requires |texts| == |ids| + 1 && Restorable(kept)
    requires forall i :: 0 <= i < |ids| ==> 1 <= ids[i] <= |kept|
    ensures Restore(Weave(texts, Sentinels(ids)), kept) == Some(Weave(texts, Chosen(ids, kept))) <==>
      NoStraySentinel(texts)
    decreases |ids|
  {
    if ids == [] {
      TextSurvivesExactlyWhen(texts[0], "", "", kept);
      assert texts[0] + "" == texts[0];
    } else {
      RestoredExactlyWhen(texts[1..], ids[1..], kept);
      RestoredCons(texts, ids, kept, Weave(texts[1..], Sentinels(ids[1..])), Weave(texts[1..], Chosen(ids[1..], kept)));
    }
  }

  lemma RestoredCons(texts: seq<string>, ids: seq<nat>, kept: seq<string>, woven: string, restored: string)
    requires |texts| == |ids| + 1 && ids != [] && Restorable(kept)
    requires forall i :: 0 <= i < |ids| ==> 1 <= ids[i] <= |kept|
    requires woven == Weave(texts[1..], Sentinels(ids[1..])) && restored == Weave(texts[1..], Chosen(ids[1..], kept))
    ensures Restore(Weave(texts, Sentinels(ids)), kept) == Some(Weave(texts, Chosen(ids, kept))) <==>
      NoSentinelStarts(texts[0] + [NUL], |texts[0]|) && Restore(woven, kept) == Some(restored)
  {
    SentinelsStep(ids);
    ChosenStep(ids, kept);
    WeaveStep(texts, Sentinels(ids), Sentinels(ids[1..]));
    WeaveStep(texts, Chosen(ids, kept), Chosen(ids[1..], kept));
    RestoredStep(texts[0], ids[0], kept, woven, restored, Sentinel(ids[0]) + woven, kept[ids[0] - 1] + restored);
  }

  lemma SentinelsStep(ids: seq<nat>)
    requires ids != []
    ensures Sentinels(ids) != [] && Sentinels(ids)[0] == Sentinel(ids[0]) && Sentinels(ids)[1..] == Sentinels(ids[1..])
  {
  }

  lemma ChosenStep(ids: seq<nat>, kept: seq<string>)
    requires ids != [] && forall i :: 0 <= i < |ids| ==> 1 <= ids[i] <= |kept|
    ensures Chosen(ids, kept) != [] && Chosen(ids, kept)[0] == kept[ids[0] - 1]
    ensures Chosen(ids, kept)[1..] == Chosen(ids[1..], kept)
  {
  }

  lemma WeaveStep(texts: seq<string>, pieces: seq<string>, others: seq<string>)
    requires |texts| == |pieces| + 1 && pieces != [] && others == pieces[1..]
    ensures Weave(texts, pieces) == texts[0] + (pieces[0] + Weave(texts[1..], others))
  {
  }

  lemma RestoredStep(text: string, k: nat, kept: seq<string>, woven: string, restored: string, rest: string,
                     tail: string)
    requires Restorable(kept) && 1 <= k <= |kept|
    requires rest == Sentinel(k) + woven && tail == kept[k - 1] + restored
    ensures Restore(text + rest, kept) == Some(text + tail) <==>
      NoSentinelStarts(text + [NUL], |text|) && Restore(woven, kept) == Some(restored)
  {
    TextSurvivesExactlyWhen(text, rest, tail, kept);
    StartsStopAtNul(text, rest);
    RestoreSentinel(k, kept, woven, rest);
    SameAfterPrefix(kept[k - 1], Restore(woven, kept), restored, tail);
  }

  lemma RestoreSentinel(k: nat, kept: seq<string>, woven: string, rest: string)
    requires 1 <= k <= |kept| && rest == Sentinel(k) + woven
    ensures rest != "" && rest[0] == NUL && Restore(rest, kept) == Prepended(kept[k - 1], Restore(woven, kept))
  {
    SentinelAtHead(k, woven);
    var n := |Sentinel(k)|;
    assert rest[n..] == woven && rest[0] == Sentinel(k)[0];
    RestoreHead(k, kept, rest, woven);
  }

  lemma RestoreHead(k: nat, kept: seq<string>, rest: string, woven: string)
    requires HeadSentinel(rest) == k && 1 <= k <= |kept| && rest[k + 2..] == woven
    ensures Restore(rest, kept) == Prepended(kept[k - 1], Restore(woven, kept))
  {
  }

  lemma SameAfterPrefix(prefix: string, r: Option<string>, rest: string, whole: string)
    requires whole == prefix + rest
    ensures Prepended(prefix, r) == Some(whole) <==> r == Some(rest)
  {
    if r.Some? && prefix + r.value == whole {
      assert r.value == (prefix + r.value)[|prefix|..] == whole[|prefix|..] == rest;
    }
  }

  lemma {:induction false} NulFreeTextsHoldNoSentinel(texts: seq<string>)
    requires texts != [] && forall i :: 0 <= i < |texts| ==> NulFree(texts[i])
    ensures NoStraySentinel(texts)
    decreases |texts|
  {
    if |texts| > 1 {
      NulFreeTextsHoldNoSentinel(texts[1..]);
    }
  }

  lemma {:induction false} PartsOfNulFree(texts: seq<string>, pieces: seq<string>)
    requires |texts| == |pieces| + 1 && NulFree(Weave(texts, pieces))
    ensures forall i :: 0 <= i < |texts| ==> NulFree(texts[i])
    decreases |pieces|
  {
    if pieces != [] {
      var rest := Weave(texts[1..], pieces[1..]);
      var whole := Weave(texts, pieces);
      assert forall i :: 0 <= i < |texts[0]| ==> whole[i] == texts[0][i];
      assert forall i :: 0 <= i < |rest| ==> whole[|texts[0] + pieces[0]| + i] == rest[i];
      PartsOfNulFree(texts[1..], pieces[1..]);
      forall i | 0 <= i < |texts| ensures NulFree(texts[i]) {
        if i > 0 {
          assert texts[i] == texts[1..][i - 1];
        }
      }
    }
  }

  /** Restoring the masked text gives the text back exactly when the parts that stay hold no stray sentinel. */
  lemma RestoreUndoesMaskExactlyWhen(sql: string)
    ensures Restore(Masked(Paths(sql), 1), Paths(sql).kept) == Some(sql) <==> NoStraySentinel(Paths(sql).texts)
  {
    var cut := Paths(sql);
    var ids := CountFrom(1, |cut.kept|);
    assert Chosen(ids, cut.kept) == cut.kept;
    RestoredExactlyWhen(cut.texts, ids, cut.kept);
    assert sql[0..] == sql;
  }

  /** Every SQL text without a NUL comes back unchanged. */
  lemma RestoreUndoesMask(sql: string)
    requires NulFree(sql)
    ensures Restore(Masked(Paths(sql), 1), Paths(sql).kept) == Some(sql)
  {
    var cut := Paths(sql);
    assert sql[0..] == sql;
    PartsOfNulFree(cut.texts, cut.kept);
    NulFreeTextsHoldNoSentinel(cut.texts);
    RestoreUndoesMaskExactlyWhen(sql);
  }

  /** A text that already holds a sentinel breaks restoring: with nothing kept, it asks for a literal that
      is not there. */
  lemma StraySentinelIsNotRestored()
    ensures Paths(Sentinel(1)).kept == [] && Restore(Masked(Paths(Sentinel(1)), 1), []) == None
  {
    var sql := Sentinel(1);
    assert sql == [NUL, SOH, NUL];
    assert FindStringLiterals(sql, 3) == [] && FindStringLiterals(sql, 2) == [] && FindStringLiterals(sql, 1) == [];
    assert sql[0..] == sql;
    SentinelAtHead(1, "");
    assert Sentinel(1) + "" == sql;
  }
}
