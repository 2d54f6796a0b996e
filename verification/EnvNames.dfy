/** Naming the environment variables that hold target passwords (cli/shared/env_requirements_service.py).
    Upper-casing a target name is a parameter. */
module EnvNames {
  import opened Wrappers
  import opened Ordering
  import opened Text

  // ---------- Candidate names ----------

  predicate IsNameChar(c: char) {
    'A' <= c <= 'Z' || IsDigit(c)
  }

  /** Every run of other characters becomes one underscore. */
  function Collapsed(s: string, afterOther: bool): string
    decreases |s|
  {
    if s == "" then ""
    else if IsNameChar(s[0]) then [s[0]] + Collapsed(s[1..], false)
    else (if afterOther then "" else "_") + Collapsed(s[1..], true)
  }

  function TrimFront(s: string): string
    decreases |s|
  {
    if s != "" && s[0] == '_' then TrimFront(s[1..]) else s
  }

  function TrimBack(s: string): string
    decreases |s|
  {
    if s != "" && s[|s| - 1] == '_' then TrimBack(s[..|s| - 1]) else s
  }

  function BaseName(upper: string): (s: string)
    ensures Strip(s) == s && s != ""
  {
    var slug := TrimBack(TrimFront(Collapsed(upper, false)));
    var s := "RDST_" + (if slug == "" then "TARGET" else slug) + "_PASSWORD";
    assert !IsSpace(s[0]) && !IsSpace(s[|s| - 1]);
    s
  }

  /** The runs of name characters, in order. */
  function Words(s: string): (words: seq<string>)
    ensures s != "" && IsNameChar(s[0]) ==> words != []
    decreases |s|
  {
    if s == "" then []
    else
      var rest := Words(s[1..]);
      if !IsNameChar(s[0]) then rest
      else if |s| > 1 && IsNameChar(s[1]) then [[s[0]] + rest[0]] + rest[1..]
      else [[s[0]]] + rest
  }

  /** Nothing but name characters and single underscores. */
  predicate IsSlug(s: string) {
    (forall c :: c in s ==> IsNameChar(c) || c == '_') &&
    forall i :: 0 <= i < |s| - 1 && s[i] == '_' ==> s[i + 1] != '_'
  }

  lemma {:induction false} CollapsedIs(s: string, afterOther: bool)
    ensures IsSlug(Collapsed(s, afterOther)) && Words(Collapsed(s, afterOther)) == Words(s)
    ensures s != "" && IsNameChar(s[0]) ==> Collapsed(s, afterOther) != "" && Collapsed(s, afterOther)[0] == s[0]
    ensures (s == "" || !IsNameChar(s[0])) && !afterOther && Collapsed(s, afterOther) != "" ==>
      Collapsed(s, afterOther)[0] == '_'
    ensures afterOther && Collapsed(s, afterOther) != "" ==> Collapsed(s, afterOther)[0] != '_'
    decreases |s|
  {
    if s != "" {
      var rest := Collapsed(s[1..], !IsNameChar(s[0]));
      CollapsedIs(s[1..], !IsNameChar(s[0]));
      var c := Collapsed(s, afterOther);
      if c != rest {
        assert c[1..] == rest;
      }
    }
  }

  lemma {:induction false} TrimFrontIs(s: string)
    requires IsSlug(s)
    ensures IsSlug(TrimFront(s)) && Words(TrimFront(s)) == Words(s)
    ensures TrimFront(s) != "" ==> TrimFront(s)[0] != '_'
    decreases |s|
  {
    if s != "" && s[0] == '_' {
      assert IsSlug(s[1..]);
      TrimFrontIs(s[1..]);
    }
  }

  lemma {:induction false} WordsBeforeUnderscore(s: string)
    ensures Words(s + "_") == Words(s)
    decreases |s|
  {
    if s == "" {
      assert Words("_") == Words("_"[1..]);
    } else {
      assert (s + "_")[1..] == s[1..] + "_";
      WordsBeforeUnderscore(s[1..]);
    }
  }

  lemma {:induction false} TrimBackIs(s: string)
    requires IsSlug(s) && (s != "" ==> s[0] != '_')
    ensures IsSlug(TrimBack(s)) && Words(TrimBack(s)) == Words(s)
    ensures TrimBack(s) != "" ==> TrimBack(s)[0] != '_' && TrimBack(s)[|TrimBack(s)| - 1] != '_'
    decreases |s|
  {
    if s != "" && s[|s| - 1] == '_' {
      var rest := s[..|s| - 1];
      assert IsSlug(rest);
      TrimBackIs(rest);
      WordsBeforeUnderscore(rest);
      assert s == rest + "_";
    }
  }

  /** Words with single underscores between them. */
  predicate IsTrimmedSlug(s: string) {
    IsSlug(s) && s != "" && s[0] != '_' && s[|s| - 1] != '_'
  }

  /** The base name holds the words of the target name, in order and with single underscores between them, in
      RDST_..._PASSWORD; TARGET stands for a name without any. */
  lemma BaseNameIs(upper: string) returns (slug: string)
    ensures BaseName(upper) == "RDST_" + slug + "_PASSWORD" && IsTrimmedSlug(slug)
    ensures Words(slug) == if Words(upper) == [] then ["TARGET"] else Words(upper)
  {
    var collapsed := Collapsed(upper, false);
    CollapsedIs(upper, false);
    TrimFrontIs(collapsed);
    TrimBackIs(TrimFront(collapsed));
    slug := TrimBack(TrimFront(collapsed));
    if slug == "" {
      TargetIsAWord();
      slug := "TARGET";
    } else {
      assert slug[0] in slug;
    }
  }

  lemma {:induction false} OneWord(s: string)
    requires s != "" && forall c :: c in s ==> IsNameChar(c)
    ensures Words(s) == [s]
    decreases |s|
  {
    var rest := s[1..];
    assert s[0] in s && s == [s[0]] + rest;
    if |s| > 1 {
      assert s[1] in s;
      OneWord(rest);
      assert Words(s) == [[s[0]] + Words(rest)[0]] + Words(rest)[1..];
    } else {
      assert Words(rest) == [] && Words(s) == [[s[0]]] + Words(rest) && s == [s[0]];
    }
  }

  lemma TargetIsAWord()
    ensures IsTrimmedSlug("TARGET") && Words("TARGET") == ["TARGET"]
  {
    OneWord("TARGET");
  }

  /** The k-th name tried: the base name, then the base name with _2, _3, ... */
  function Candidate(stem: string, k: nat): string {
    if k <= 1 then stem else stem + "_" + Decimal(k)
  }

  lemma CandidateInjective(stem: string, j: nat, k: nat)
    requires 1 <= j < k
    ensures Candidate(stem, j) != Candidate(stem, k)
  {
    var a, b := Candidate(stem, j), Candidate(stem, k);
    if a == b {
      assert j > 1;
      assert a[|stem| + 1..] == Decimal(j) && b[|stem| + 1..] == Decimal(k);
      DecimalInjective(j, k);
    }
  }

  /** The used names among the candidates from the k-th on. */
  ghost function UsedAhead(stem: string, used: set<string>, k: nat): set<string> {
    set name | name in used && IsAhead(stem, name, k)
  }

  ghost predicate IsAhead(stem: string, name: string, k: nat) {
    exists j: nat :: j >= k && Candidate(stem, j) == name
  }

  lemma UsedAheadShrinks(stem: string, used: set<string>, k: nat)
    requires k >= 1 && Candidate(stem, k) in used
    ensures |UsedAhead(stem, used, k + 1)| < |UsedAhead(stem, used, k)|
  {
    var now, next := UsedAhead(stem, used, k), UsedAhead(stem, used, k + 1);
    assert IsAhead(stem, Candidate(stem, k), k);
    assert Candidate(stem, k) !in next by {
      if IsAhead(stem, Candidate(stem, k), k + 1) {
        var j: nat :| j >= k + 1 && Candidate(stem, j) == Candidate(stem, k);
        CandidateInjective(stem, k, j);
      }
    }
    assert next <= now - {Candidate(stem, k)};
    SubsetSize(next, now - {Candidate(stem, k)});
  }

  lemma {:induction false} SubsetSize<T>(a: set<T>, b: set<T>)
    requires a <= b
    ensures |a| <= |b|
    decreases |a|
  {
    if a != {} {
      var x :| x in a;
      SubsetSize(a - {x}, b - {x});
    }
  }

  /** The first unused candidate from the k-th on. */
  ghost function Fresh(stem: string, used: set<string>, k: nat): (name: string)
    requires k >= 1
    ensures name !in used && IsAhead(stem, name, k)
    decreases |UsedAhead(stem, used, k)|
  {
    if Candidate(stem, k) in used then
      UsedAheadShrinks(stem, used, k);
      var name := Fresh(stem, used, k + 1);
      var j: nat :| j >= k + 1 && Candidate(stem, j) == name;
      name
    else Candidate(stem, k)
  }

  /** Using up some other name does not change the first unused candidate. */
  lemma {:induction false} FreshUnaffected(stem: string, used: set<string>, other: string, k: nat)
    requires k >= 1 && Fresh(stem, used, k) != other
    ensures Fresh(stem, used + {other}, k) == Fresh(stem, used, k)
    decreases |UsedAhead(stem, used, k)|
  {
    if Candidate(stem, k) in used {
      UsedAheadShrinks(stem, used, k);
      FreshUnaffected(stem, used, other, k + 1);
    }
  }

  // ---------- Targets and the names they get ----------

  datatype Data = Data(passwordEnv: string, password: string, secretArn: string)

  datatype Config = Config(names: seq<string>, data: map<string, Data>)

  ghost predicate ValidConfig(cfg: Config) {
    Distinct(cfg.names) && forall t :: t in cfg.names ==> t in cfg.data
  }

  type Upper = string -> string

  function DataOf(cfg: Config, i: nat): Data
    requires i < |cfg.names|
  {
    if cfg.names[i] in cfg.data then cfg.data[cfg.names[i]] else Data("", "", "")
  }

  function StoredName(d: Data): string {
    Strip(d.passwordEnv)
  }

  predicate IsDerived(d: Data) {
    StoredName(d) == "" && d.password == "" && d.secretArn == ""
  }

  function Configured(cfg: Config): set<string> {
    set i | 0 <= i < |cfg.names| && StoredName(DataOf(cfg, i)) != "" :: StoredName(DataOf(cfg, i))
  }

  /** The variable of the i-th target, given the names already in use; None for a target whose password is kept
      elsewhere. */
  ghost function NameGiven(cfg: Config, upper: Upper, i: nat, used: set<string>): Option<string>
    requires i < |cfg.names|
  {
    var d := DataOf(cfg, i);
    if StoredName(d) != "" then Some(StoredName(d))
    else if d.password != "" || d.secretArn != "" then None
    else Some(Fresh(BaseName(upper(cfg.names[i])), used, 1))
  }

  datatype Entry = Entry(targets: seq<string>, data: Data)

  type Mapping = map<string, Entry>

  function TargetsOf(mapping: Mapping, name: string): seq<string> {
    if name in mapping then mapping[name].targets else []
  }

  function Listed(mapping: Mapping, name: string, target: string, data: Data): Mapping {
    mapping[name := Entry(TargetsOf(mapping, name) + [target], if name in mapping then mapping[name].data else data)]
  }

  function ListedAs(cfg: Config, i: nat, mapping: Mapping, name: Option<string>): Mapping
    requires i < |cfg.names|
  {
    var d := DataOf(cfg, i);
    if name.None? then mapping
    else Listed(mapping, name.value, cfg.names[i], if IsDerived(d) then d.(passwordEnv := name.value) else d)
  }

  /** What the pass over the targets has given out before and after each target. */
  datatype Naming = Naming(used: seq<set<string>>, names: seq<Option<string>>, mappings: seq<Mapping>)

  predicate Shaped(g: Naming, n: nat) {
    |g.names| == n && |g.used| == n + 1 && |g.mappings| == n + 1
  }

  ghost predicate Named(cfg: Config, upper: Upper, g: Naming, i: nat)
    requires i < |cfg.names| && Shaped(g, |g.names|) && i < |g.names|
  {
    g.names[i] == NameGiven(cfg, upper, i, g.used[i]) &&
    g.used[i + 1] == g.used[i] + (if IsDerived(DataOf(cfg, i)) then {g.names[i].value} else {}) &&
    g.mappings[i + 1] == ListedAs(cfg, i, g.mappings[i], g.names[i])
  }

  ghost predicate IsNaming(cfg: Config, upper: Upper, g: Naming, n: nat) {
    n <= |cfg.names| && Shaped(g, n) && g.used[0] == Configured(cfg) && g.mappings[0] == map[] &&
    forall i :: 0 <= i < n ==> Named(cfg, upper, g, i)
  }

  ghost function NamingUpTo(cfg: Config, upper: Upper, n: nat): (g: Naming)
    requires n <= |cfg.names|
    ensures IsNaming(cfg, upper, g, n)
  {
    if n == 0 then Naming([Configured(cfg)], [], [map[]])
    else
      var g := NamingUpTo(cfg, upper, n - 1);
      var name := NameGiven(cfg, upper, n - 1, g.used[n - 1]);
      var used := g.used[n - 1] + if IsDerived(DataOf(cfg, n - 1)) then {name.value} else {};
      var next := Naming(g.used + [used], g.names + [name],
                         g.mappings + [ListedAs(cfg, n - 1, g.mappings[n - 1], name)]);
      NamingExtended(cfg, upper, g, next, n - 1);
      next
  }

  lemma NamingExtended(cfg: Config, upper: Upper, g: Naming, next: Naming, n: nat)
    requires n < |cfg.names| && IsNaming(cfg, upper, g, n) && Shaped(next, n + 1)
    requires next.used[..n + 1] == g.used && next.names[..n] == g.names && next.mappings[..n + 1] == g.mappings
    requires Named(cfg, upper, next, n)
    ensures IsNaming(cfg, upper, next, n + 1)
  {
    assert next.used[0] == next.used[..n + 1][0] && next.mappings[0] == next.mappings[..n + 1][0];
    forall i | 0 <= i < n ensures Named(cfg, upper, next, i) {
      assert Named(cfg, upper, g, i);
      assert next.names[i] == next.names[..n][i] && next.used[i] == next.used[..n + 1][i] &&
             next.used[i + 1] == next.used[..n + 1][i + 1] && next.mappings[i] == next.mappings[..n + 1][i] &&
             next.mappings[i + 1] == next.mappings[..n + 1][i + 1];
    }
  }

  ghost function NamingOf(cfg: Config, upper: Upper): (g: Naming)
    ensures IsNaming(cfg, upper, g, |cfg.names|)
  {
    NamingUpTo(cfg, upper, |cfg.names|)
  }

  /** Which targets each variable serves, with the data of the first. */
  ghost function TargetEnvs(cfg: Config, upper: Upper): Mapping {
    NamingOf(cfg, upper).mappings[|cfg.names|]
  }

  method TargetEnvMapping(cfg: Config, upper: Upper) returns (mapping: Mapping)
    ensures mapping == TargetEnvs(cfg, upper)
  {
    ghost var g := NamingOf(cfg, upper);
    mapping := map[];
    var used := Configured(cfg);
    for i := 0 to |cfg.names|
      invariant used == g.used[i] && mapping == g.mappings[i]
    {
      NextInPass(cfg, upper, g, i);
      var data := DataOf(cfg, i);
      var name := StoredName(data);
      if name == "" {
        if data.password != "" || data.secretArn != "" {
          continue;
        }
        name := FindName(BaseName(upper(cfg.names[i])), used);
        used := used + {name};
        data := data.(passwordEnv := name);
      }
      ListedInSteps(mapping, name, cfg.names[i], data);
      if name !in mapping {
        mapping := mapping[name := Entry([], data)];
      }
      mapping := mapping[name := mapping[name].(targets := mapping[name].targets + [cfg.names[i]])];
    }
  }

  lemma NextInPass(cfg: Config, upper: Upper, g: Naming, i: nat)
    requires IsNaming(cfg, upper, g, |cfg.names|) && i < |cfg.names|
    ensures var d, used, mapping := DataOf(cfg, i), g.used[i], g.mappings[i];
            if StoredName(d) != "" then
              g.used[i + 1] == used && g.mappings[i + 1] == Listed(mapping, StoredName(d), cfg.names[i], d)
            else if d.password != "" || d.secretArn != "" then
              g.used[i + 1] == used && g.mappings[i + 1] == mapping
            else
              var name := Fresh(BaseName(upper(cfg.names[i])), used, 1);
              g.used[i + 1] == used + {name} &&
              g.mappings[i + 1] == Listed(mapping, name, cfg.names[i], d.(passwordEnv := name))
  {
    assert Named(cfg, upper, g, i);
  }

  lemma ListedInSteps(mapping: Mapping, name: string, target: string, data: Data)
    ensures var entered := if name in mapping then mapping else mapping[name := Entry([], data)];
            entered[name := entered[name].(targets := entered[name].targets + [target])] ==
            Listed(mapping, name, target, data)
  {
    assert name !in mapping ==> [] + [target] == [target];
  }

  method FindName(stem: string, used: set<string>) returns (name: string)
    ensures name == Fresh(stem, used, 1)
  {
    name := stem;
    var suffix := 2;
    while name in used
      invariant suffix >= 2 && name == Candidate(stem, suffix - 1)
      invariant Fresh(stem, used, suffix - 1) == Fresh(stem, used, 1)
      decreases |UsedAhead(stem, used, suffix - 1)|
    {
      UsedAheadShrinks(stem, used, suffix - 1);
      name := stem + "_" + Decimal(suffix);
      suffix := suffix + 1;
    }
  }

  /** The name found is the first of the candidates that is not in use. */
  lemma {:induction false} FreshIsFirst(stem: string, used: set<string>, k: nat) returns (n: nat)
    requires k >= 1
    ensures n >= k && Fresh(stem, used, k) == Candidate(stem, n) && Candidate(stem, n) !in used
    ensures forall j :: k <= j < n ==> Candidate(stem, j) in used
    decreases |UsedAhead(stem, used, k)|
  {
    n := k;
    if Candidate(stem, k) in used {
      UsedAheadShrinks(stem, used, k);
      n := FreshIsFirst(stem, used, k + 1);
    }
  }

  /** Every target is given its configured name without the spaces around it, or none if its password is kept elsewhere,
      or else the first candidate that no target is configured with and none before it was given. */
  lemma EachTargetsName(cfg: Config, upper: Upper, i: nat) returns (n: nat)
    requires ValidConfig(cfg) && i < |cfg.names|
    ensures var d, given := cfg.data[cfg.names[i]], NamingOf(cfg, upper).names;
            if Strip(d.passwordEnv) != "" then given[i] == Some(Strip(d.passwordEnv))
            else if d.password != "" || d.secretArn != "" then given[i] == None
            else
              var stem := BaseName(upper(cfg.names[i]));
              n >= 1 && given[i] == Some(Candidate(stem, n)) && !InUse(cfg, upper, i, Candidate(stem, n)) &&
              forall j :: 1 <= j < n ==> InUse(cfg, upper, i, Candidate(stem, j))
  {
    var g := NamingOf(cfg, upper);
    assert Named(cfg, upper, g, i);
    n := FreshIsFirst(BaseName(upper(cfg.names[i])), g.used[i], 1);
    forall name ensures name in g.used[i] <==> InUse(cfg, upper, i, name) {
      UsedSoFar(cfg, upper, g, i, name);
    }
  }

  /** Some target is configured with the name, or one before the i-th was given it as a derived name. */
  ghost predicate InUse(cfg: Config, upper: Upper, i: nat, name: string)
    requires i <= |cfg.names|
  {
    (name != "" && exists k :: 0 <= k < |cfg.names| && Strip(DataOf(cfg, k).passwordEnv) == name) ||
    DerivedBefore(cfg, NamingOf(cfg, upper), i, name)
  }

  ghost predicate DerivedBefore(cfg: Config, g: Naming, i: nat, name: string)
    requires i <= |cfg.names| == |g.names|
  {
    exists k :: 0 <= k < i && IsDerived(DataOf(cfg, k)) && g.names[k] == Some(name)
  }

  lemma {:induction false} UsedSoFar(cfg: Config, upper: Upper, g: Naming, i: nat, name: string)
    requires IsNaming(cfg, upper, g, |cfg.names|) && i <= |cfg.names|
    ensures name in g.used[i] <==> name in Configured(cfg) || DerivedBefore(cfg, g, i, name)
  {
    if i > 0 {
      UsedSoFar(cfg, upper, g, i - 1, name);
      assert Named(cfg, upper, g, i - 1);
      assert DerivedBefore(cfg, g, i, name) <==>
        DerivedBefore(cfg, g, i - 1, name) || (IsDerived(DataOf(cfg, i - 1)) && g.names[i - 1] == Some(name));
    }
  }

  // ---------- No two derived names collide ----------

  lemma {:induction false} UsedGrows(cfg: Config, upper: Upper, g: Naming, m: nat, n: nat)
    requires IsNaming(cfg, upper, g, |cfg.names|) && m <= n <= |cfg.names|
    ensures g.used[m] <= g.used[n]
    decreases n
  {
    if m < n {
      UsedGrows(cfg, upper, g, m, n - 1);
      assert Named(cfg, upper, g, n - 1);
    }
  }

  lemma CandidateHasNoSpace(stem: string, k: nat)
    requires stem != "" && Strip(stem) == stem
    ensures Strip(Candidate(stem, k)) == Candidate(stem, k) && Candidate(stem, k) != ""
  {
    StripEnds(stem);
    if k > 1 {
      var s := Candidate(stem, k);
      assert s[0] == stem[0] && IsDigit(s[|s| - 1]) by {
        assert s[|s| - 1] == Decimal(k)[|Decimal(k)| - 1];
      }
    }
  }

  lemma {:induction false} StripEnds(s: string)
    requires s != "" && Strip(s) == s
    ensures !IsSpace(s[0]) && !IsSpace(s[|s| - 1])
  {
    LeftStripShorter(s);
    RightStripShorter(LeftStrip(s));
  }

  lemma {:induction false} LeftStripShorter(s: string)
    ensures |LeftStrip(s)| <= |s| && (s != "" && IsSpace(s[0]) ==> |LeftStrip(s)| < |s|)
    decreases |s|
  {
    if s != "" && IsSpace(s[0]) {
      LeftStripShorter(s[1..]);
    }
  }

  lemma {:induction false} RightStripShorter(s: string)
    ensures |RightStrip(s)| <= |s| && (s != "" && IsSpace(s[|s| - 1]) ==> |RightStrip(s)| < |s|)
    decreases |s|
  {
    if s != "" && IsSpace(s[|s| - 1]) {
      RightStripShorter(s[..|s| - 1]);
    }
  }

  /** A derived name is new when it is given out: no configured name, and none given out before. */
  lemma DerivedIsFresh(cfg: Config, upper: Upper, g: Naming, i: nat)
    requires IsNaming(cfg, upper, g, |cfg.names|) && i < |cfg.names| && IsDerived(DataOf(cfg, i))
    ensures g.names[i].Some? && g.names[i].value !in g.used[i] && g.names[i].value in g.used[i + 1]
    ensures Strip(g.names[i].value) == g.names[i].value != ""
  {
    assert Named(cfg, upper, g, i);
    FreshHasNoSpace(BaseName(upper(cfg.names[i])), g.used[i]);
  }

  lemma FreshHasNoSpace(stem: string, used: set<string>)
    requires stem != "" && Strip(stem) == stem
    ensures var name := Fresh(stem, used, 1); Strip(name) == name != ""
  {
    assert IsAhead(stem, Fresh(stem, used, 1), 1);
    var k: nat :| k >= 1 && Candidate(stem, k) == Fresh(stem, used, 1);
    CandidateHasNoSpace(stem, k);
  }

  lemma DerivedTwice(cfg: Config, upper: Upper, g: Naming, i: nat, j: nat)
    requires IsNaming(cfg, upper, g, |cfg.names|) && i < j < |cfg.names|
    requires IsDerived(DataOf(cfg, i)) && IsDerived(DataOf(cfg, j))
    ensures g.names[i] != g.names[j]
  {
    DerivedIsFresh(cfg, upper, g, i);
    DerivedIsFresh(cfg, upper, g, j);
    UsedGrows(cfg, upper, g, i + 1, j);
  }

  lemma ConfiguredIsUsed(cfg: Config, upper: Upper, g: Naming, i: nat)
    requires IsNaming(cfg, upper, g, |cfg.names|) && i < |cfg.names| && !IsDerived(DataOf(cfg, i))
    ensures g.names[i].Some? ==> g.names[i].value in Configured(cfg)
  {
    assert Named(cfg, upper, g, i);
  }

  /** A derived name is no configured name and no other target's name. */
  lemma DerivedNamesDistinct(cfg: Config, upper: Upper, i: nat, j: nat)
    requires i < |cfg.names| && j < |cfg.names| && i != j && IsDerived(DataOf(cfg, i))
    ensures var names := NamingOf(cfg, upper).names;
            names[i].Some? && names[i] != names[j] && names[i].value !in Configured(cfg)
  {
    var g := NamingOf(cfg, upper);
    UsedGrows(cfg, upper, g, 0, i);
    DerivedIsFresh(cfg, upper, g, i);
    if !IsDerived(DataOf(cfg, j)) {
      ConfiguredIsUsed(cfg, upper, g, j);
    } else if i < j {
      DerivedTwice(cfg, upper, g, i, j);
    } else {
      DerivedTwice(cfg, upper, g, j, i);
    }
  }

  lemma {:induction false} ListedUpTo(cfg: Config, upper: Upper, g: Naming, n: nat, name: string, target: string)
    requires IsNaming(cfg, upper, g, |cfg.names|) && n <= |cfg.names|
    ensures target in TargetsOf(g.mappings[n], name) <==> GivenBefore(cfg, g, n, name, target)
  {
    if n > 0 {
      ListedUpTo(cfg, upper, g, n - 1, name, target);
      assert Named(cfg, upper, g, n - 1);
      ListedOnce(cfg, n - 1, g.mappings[n - 1], g.names[n - 1], name);
      var givenLast := cfg.names[n - 1] == target && g.names[n - 1] == Some(name);
      assert GivenBefore(cfg, g, n, name, target) <==> givenLast || GivenBefore(cfg, g, n - 1, name, target);
    }
  }

  ghost predicate GivenBefore(cfg: Config, g: Naming, n: nat, name: string, target: string)
    requires n <= |g.names| <= |cfg.names|
  {
    exists i :: 0 <= i < n && cfg.names[i] == target && g.names[i] == Some(name)
  }

  /** A variable serves exactly the targets that were given its name. */
  lemma ListedTargets(cfg: Config, upper: Upper, name: string, target: string)
    ensures target in TargetsOf(TargetEnvs(cfg, upper), name) <==>
      exists i :: 0 <= i < |cfg.names| && cfg.names[i] == target && NamingOf(cfg, upper).names[i] == Some(name)
  {
    ListedUpTo(cfg, upper, NamingOf(cfg, upper), |cfg.names|, name, target);
  }

  lemma ListedOnce(cfg: Config, i: nat, mapping: Mapping, given: Option<string>, name: string)
    requires i < |cfg.names|
    ensures TargetsOf(ListedAs(cfg, i, mapping, given), name) ==
      TargetsOf(mapping, name) + if given == Some(name) then [cfg.names[i]] else []
  {
  }

  /** The i-th target is the first that was given the name by the first n. */
  ghost predicate FirstGiven(g: Naming, i: nat, n: nat, name: string)
    requires n <= |g.names|
  {
    i < n && g.names[i] == Some(name) && forall k :: 0 <= k < i ==> g.names[k] != Some(name)
  }

  /** Its data as listed: with the name filled in if it was derived. */
  function DataListed(cfg: Config, i: nat, name: string): Data
    requires i < |cfg.names|
  {
    if IsDerived(DataOf(cfg, i)) then DataOf(cfg, i).(passwordEnv := name) else DataOf(cfg, i)
  }

  lemma FirstListedNext(cfg: Config, upper: Upper, g: Naming, n: nat, m: nat, name: string, i: nat)
    requires IsNaming(cfg, upper, g, |cfg.names|) && n < |cfg.names| && m == n + 1 && i < m
    requires name in g.mappings[n] <==> exists k :: 0 <= k < n && g.names[k] == Some(name)
    requires FirstGiven(g, i, n, name) ==> g.mappings[n][name].data == DataListed(cfg, i, name)
    ensures name in g.mappings[m] <==> exists k :: 0 <= k < m && g.names[k] == Some(name)
    ensures FirstGiven(g, i, m, name) ==> g.mappings[m][name].data == DataListed(cfg, i, name)
  {
    assert Named(cfg, upper, g, n);
    assert (exists k :: 0 <= k < m && g.names[k] == Some(name)) <==>
      g.names[n] == Some(name) || exists k :: 0 <= k < n && g.names[k] == Some(name);
    if i < n {
      assert FirstGiven(g, i, m, name) <==> FirstGiven(g, i, n, name);
    }
  }

  lemma {:induction false} FirstListed(cfg: Config, upper: Upper, g: Naming, n: nat, name: string, i: nat)
    requires IsNaming(cfg, upper, g, |cfg.names|) && n <= |cfg.names|
    ensures name in g.mappings[n] <==> exists k :: 0 <= k < n && g.names[k] == Some(name)
    ensures FirstGiven(g, i, n, name) ==> g.mappings[n][name].data == DataListed(cfg, i, name)
  {
    if n > 0 {
      var j := if i < n then i else 0;
      FirstListed(cfg, upper, g, n - 1, name, j);
      FirstListedNext(cfg, upper, g, n - 1, n, name, j);
    }
  }

  /** A variable is listed exactly when some target was given it, and with the data of the first such target. */
  lemma ListedDataIsFirst(cfg: Config, upper: Upper, name: string, i: nat)
    ensures var g, mapping := NamingOf(cfg, upper), TargetEnvs(cfg, upper);
            (name in mapping <==> exists k :: 0 <= k < |cfg.names| && g.names[k] == Some(name)) &&
            (FirstGiven(g, i, |cfg.names|, name) ==> mapping[name].data == DataListed(cfg, i, name))
  {
    FirstListed(cfg, upper, NamingOf(cfg, upper), |cfg.names|, name, i);
  }

  // ---------- Binding a derived name ----------

  predicate Unsourced(d: Data) {
    d.passwordEnv == "" && d.password == "" && d.secretArn == ""
  }

  ghost function Bound(cfg: Config, upper: Upper, name: string): Config {
    WithName(cfg, TargetsOf(TargetEnvs(cfg, upper), name), name)
  }

  /** The name stored for those of the targets that have no password source at all. */
  function WithName(cfg: Config, targets: seq<string>, name: string): Config {
    cfg.(data := map t | t in cfg.data ::
      if t in targets && Unsourced(cfg.data[t]) then cfg.data[t].(passwordEnv := name) else cfg.data[t])
  }

  lemma WithNoName(cfg: Config, name: string)
    ensures WithName(cfg, [], name) == cfg
  {
    assert WithName(cfg, [], name).data == cfg.data;
  }

  lemma WithNextName(cfg: Config, targets: seq<string>, i: nat, name: string, before: Config)
    requires i < |targets| && targets[i] in cfg.data && before == WithName(cfg, targets[..i], name)
    ensures WithName(cfg, targets[..i + 1], name) ==
      if Unsourced(before.data[targets[i]])
      then before.(data := before.data[targets[i] := before.data[targets[i]].(passwordEnv := name)])
      else before
    ensures before.data.Keys == cfg.data.Keys
  {
    var after := WithName(cfg, targets[..i + 1], name);
    assert targets[..i + 1] == targets[..i] + [targets[i]];
    if Unsourced(before.data[targets[i]]) {
      assert after.data == before.data[targets[i] := before.data[targets[i]].(passwordEnv := name)];
    } else {
      assert after.data == before.data;
    }
  }

  class ConfigFile {
    var cfg: Config

    method BindMissingTargetPassword(upper: Upper, name: string)
      requires ValidConfig(cfg)
      modifies this
      ensures cfg == Bound(old(cfg), upper, name)
    {
      var mapping := TargetEnvMapping(cfg, upper);
      ghost var before := cfg;
      WithNoName(before, name);
      if name !in mapping {
        return;
      }
      var targets := mapping[name].targets;
      ListedAreTargets(cfg, upper, name);
      for i := 0 to |targets|
        invariant cfg == WithName(before, targets[..i], name)
      {
        var target := targets[i];
        WithNextName(before, targets, i, name, cfg);
        if Unsourced(cfg.data[target]) {
          cfg := cfg.(data := cfg.data[target := cfg.data[target].(passwordEnv := name)]);
        }
      }
      assert targets[..|targets|] == targets;
    }
  }

  lemma ListedAreTargets(cfg: Config, upper: Upper, name: string)
    requires ValidConfig(cfg)
    ensures forall t :: t in TargetsOf(TargetEnvs(cfg, upper), name) ==> t in cfg.data
  {
    forall t | t in TargetsOf(TargetEnvs(cfg, upper), name) ensures t in cfg.data {
      ListedTargets(cfg, upper, name, t);
    }
  }

  /** The i-th target was given this name and has no password source of its own. */
  ghost predicate ToBind(cfg: Config, upper: Upper, i: nat, name: string) {
    ValidConfig(cfg) && i < |cfg.names| && Unsourced(DataOf(cfg, i)) && NamingOf(cfg, upper).names[i] == Some(name)
  }

  function StoredAt(cfg: Config, i: nat, name: string): Config
    requires i < |cfg.names|
  {
    cfg.(data := cfg.data[cfg.names[i] := DataOf(cfg, i).(passwordEnv := name)])
  }

  lemma BoundIsStored(cfg: Config, upper: Upper, name: string, i: nat)
    requires ToBind(cfg, upper, i, name)
    ensures Bound(cfg, upper, name) == StoredAt(cfg, i, name)
  {
    var targets := TargetsOf(TargetEnvs(cfg, upper), name);
    ListedTargets(cfg, upper, name, cfg.names[i]);
    forall t | t in targets ensures t == cfg.names[i] {
      ListedTargets(cfg, upper, name, t);
      var j :| 0 <= j < |cfg.names| && cfg.names[j] == t && NamingOf(cfg, upper).names[j] == Some(name);
      if j != i {
        DerivedNamesDistinct(cfg, upper, i, j);
      }
    }
    OneNamed(cfg, targets, i, name);
  }

  lemma OneNamed(cfg: Config, targets: seq<string>, i: nat, name: string)
    requires i < |cfg.names| && cfg.names[i] in cfg.data && cfg.names[i] in targets && Unsourced(DataOf(cfg, i))
    requires forall t :: t in targets ==> t == cfg.names[i]
    ensures WithName(cfg, targets, name) == StoredAt(cfg, i, name)
  {
    assert WithName(cfg, targets, name).data == StoredAt(cfg, i, name).data;
  }

  lemma BoundToNothing(cfg: Config, upper: Upper, name: string)
    requires ValidConfig(cfg) && forall i :: !ToBind(cfg, upper, i, name)
    ensures Bound(cfg, upper, name) == cfg
  {
    var targets := TargetsOf(TargetEnvs(cfg, upper), name);
    forall t | t in targets ensures t in cfg.data && !Unsourced(cfg.data[t]) {
      ListedTargets(cfg, upper, name, t);
      var j :| 0 <= j < |cfg.names| && cfg.names[j] == t && NamingOf(cfg, upper).names[j] == Some(name);
      assert !ToBind(cfg, upper, j, name);
    }
    assert WithName(cfg, targets, name).data == cfg.data;
  }

  lemma OthersUnchanged(cfg: Config, i: nat, name: string, after: Config)
    requires ValidConfig(cfg) && i < |cfg.names| && after == StoredAt(cfg, i, name)
    ensures DataOf(after, i) == DataOf(cfg, i).(passwordEnv := name)
    ensures forall j :: 0 <= j < |cfg.names| && j != i ==> DataOf(after, j) == DataOf(cfg, j)
  {
    forall j | 0 <= j < |cfg.names| && j != i ensures DataOf(after, j) == DataOf(cfg, j) {
      assert cfg.names[j] != cfg.names[i];
    }
  }

  lemma StoredConfigured(cfg: Config, i: nat, name: string, after: Config)
    requires ValidConfig(cfg) && i < |cfg.names| && after == StoredAt(cfg, i, name)
    requires StoredName(DataOf(cfg, i)) == "" && Strip(name) == name != ""
    ensures Configured(after) == Configured(cfg) + {name}
  {
    OthersUnchanged(cfg, i, name, after);
    assert StoredName(DataOf(after, i)) == name;
    forall s ensures s in Configured(after) <==> s in Configured(cfg) + {name} {
      if s in Configured(cfg) {
        var j :| 0 <= j < |cfg.names| && StoredName(DataOf(cfg, j)) != "" && StoredName(DataOf(cfg, j)) == s;
        assert j != i && StoredName(DataOf(after, j)) == s;
      }
    }
  }

  /** Up to the n-th target the two passes give out the same, but for the name already stored. */
  ghost predicate SameSoFar(g: Naming, h: Naming, name: string, n: nat)
    requires Shaped(g, |g.names|) && Shaped(h, |h.names|) && n <= |g.names| == |h.names|
  {
    h.used[n] == g.used[n] + {name} && h.mappings[n] == g.mappings[n]
  }

  lemma SameStep(cfg: Config, after: Config, upper: Upper, i: nat, name: string, n: nat, g: Naming, h: Naming)
    requires ToBind(cfg, upper, i, name) && after == StoredAt(cfg, i, name) && n < |cfg.names|
    requires g == NamingOf(cfg, upper) && h == NamingOf(after, upper) && Strip(name) == name != ""
    requires SameSoFar(g, h, name, n)
    ensures SameSoFar(g, h, name, n + 1)
  {
    OthersUnchanged(cfg, i, name, after);
    assert Named(cfg, upper, g, n) && Named(after, upper, h, n);
    if n != i && IsDerived(DataOf(cfg, n)) {
      DerivedNamesDistinct(cfg, upper, i, n);
      FreshUnaffected(BaseName(upper(cfg.names[n])), g.used[n], name, 1);
    }
  }

  lemma {:induction false} SamePass(cfg: Config, after: Config, upper: Upper, i: nat, name: string, n: nat)
    requires ToBind(cfg, upper, i, name) && after == StoredAt(cfg, i, name) && n <= |cfg.names|
    ensures SameSoFar(NamingOf(cfg, upper), NamingOf(after, upper), name, n)
  {
    var g, h := NamingOf(cfg, upper), NamingOf(after, upper);
    DerivedIsFresh(cfg, upper, g, i);
    if n == 0 {
      StoredConfigured(cfg, i, name, after);
    } else {
      SamePass(cfg, after, upper, i, name, n - 1);
      SameStep(cfg, after, upper, i, name, n - 1, g, h);
    }
  }

  /** Binding never changes which variable any target is given, whatever name is bound. */
  lemma BindingKeepsMapping(cfg: Config, upper: Upper, name: string)
    requires ValidConfig(cfg)
    ensures TargetEnvs(Bound(cfg, upper, name), upper) == TargetEnvs(cfg, upper)
    ensures ValidConfig(Bound(cfg, upper, name))
  {
    if i: nat :| ToBind(cfg, upper, i, name) {
      BoundIsStored(cfg, upper, name, i);
      SamePass(cfg, Bound(cfg, upper, name), upper, i, name, |cfg.names|);
    } else {
      BoundToNothing(cfg, upper, name);
    }
  }

  /** Binding the name a target was given stores it exactly when the target's entry has no name stored at all: one
      that is only blank is read as missing but never replaced. */
  lemma BoundExactlyWhen(cfg: Config, upper: Upper, i: nat, name: string)
    requires ValidConfig(cfg) && i < |cfg.names| && IsDerived(DataOf(cfg, i))
    requires NamingOf(cfg, upper).names[i] == Some(name)
    ensures DataOf(Bound(cfg, upper, name), i).passwordEnv == name <==> DataOf(cfg, i).passwordEnv == ""
  {
    DerivedIsFresh(cfg, upper, NamingOf(cfg, upper), i);
    if Unsourced(DataOf(cfg, i)) {
      BoundIsStored(cfg, upper, name, i);
    } else {
      forall j: nat ensures !ToBind(cfg, upper, j, name) {
        if j < |cfg.names| && j != i {
          DerivedNamesDistinct(cfg, upper, i, j);
        }
      }
      BoundToNothing(cfg, upper, name);
    }
  }

  /** A target whose only source is a `password_env` of one space is given a name, and binding stores none. */
  lemma BlankNameNeverReplaced(cfg: Config, upper: Upper, target: string)
    requires cfg == Config([target], map[target := Data(" ", "", "")])
    ensures NamingOf(cfg, upper).names == [Some(BaseName(upper(target)))]
    ensures forall name :: Bound(cfg, upper, name) == cfg
  {
    var g := NamingOf(cfg, upper);
    assert Strip(" ") == "";
    assert Named(cfg, upper, g, 0);
    assert g.used[0] == {};
    forall name ensures Bound(cfg, upper, name) == cfg {
      BoundToNothing(cfg, upper, name);
    }
  }
}
