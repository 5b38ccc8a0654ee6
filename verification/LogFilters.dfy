/**
 The two matchers of the log stream: the one live broadcasts pass (`src/api/logs.rs`) and the
 one the store applies to backfill pages (`list_app_logs` in `src/db/log_repo.rs`).
 */
module LogFilters {
  import opened Prelude

  datatype Row = Row(id: int, level: string, target: string, message: string,
                     pipelineId: Option<string>, outputId: Option<string>, eventClass: Option<string>)

  datatype StreamQuery = StreamQuery(level: Option<string>, target: Option<string>, scope: Option<string>,
                                     pipelineId: Option<string>, outputId: Option<string>,
                                     eventClass: Option<string>, includeRestream: Option<bool>,
                                     prefix: Option<string>)

  datatype StreamFilter = StreamFilter(minLevel: string, target: Option<string>, scope: Option<string>,
                                       pipelineId: Option<string>, outputId: Option<string>,
                                       eventClass: Option<string>, includeRestream: bool, prefix: Option<string>)

  function FromQuery(query: StreamQuery): (f: StreamFilter)
    ensures f.includeRestream <==> ShouldMerge(f)
    ensures f.includeRestream <==> query.includeRestream == Some(true) && query.pipelineId.Some? && query.outputId.None?
    ensures query.level.Some? ==> f.minLevel == query.level.value
    ensures query.level.None? ==> f.minLevel == "info"
  {
    StreamFilter(
      if query.level.Some? then query.level.value else "info",
      query.target, query.scope, query.pipelineId, query.outputId, query.eventClass,
      query.includeRestream == Some(true) && query.pipelineId.Some? && query.outputId.None?,
      query.prefix)
  }

  /** Whether a backfill also reads the global rows. */
  predicate ShouldMerge(f: StreamFilter) {
    f.includeRestream && f.pipelineId.Some? && f.outputId.None?
  }

  // ---------- Text ----------

  /** The comma-separated parts of a prefix filter, trimmed, blank ones dropped. */
  function Parts(prefix: string): seq<string> {
    Kept(Trimmed(prefix[..Comma(prefix)]))
    + if Comma(prefix) == |prefix| then [] else Parts(prefix[Comma(prefix) + 1..])
  }

  function Kept(part: string): seq<string> {
    if part == "" then [] else [part]
  }

  function Comma(s: string): (k: nat)
    ensures k <= |s|
  {
    if s == "" || s[0] == ',' then 0 else 1 + Comma(s[1..])
  }

  predicate IsSpace(c: char) {
    c == ' ' || c == '\t' || c == '\n' || c == '\r'
  }

  function Trimmed(s: string): string {
    if s == "" then ""
    else if IsSpace(s[0]) then Trimmed(s[1..])
    else if IsSpace(s[|s| - 1]) then Trimmed(s[..|s| - 1])
    else s
  }

  function Lower(c: char): char {
    if 'A' <= c <= 'Z' then (c as int + 32) as char else c
  }

  /** SQLite's `text LIKE pattern || '%'`: ASCII letters match in either case, `%` and `_` are wildcards. */
  predicate Like(pattern: string, text: string)
    decreases |pattern| + |text|
  {
    if pattern == "" then true
    else if pattern[0] == '%' then
      Like(pattern[1..], text) || (text != "" && Like(pattern, text[1..]))
    else
      text != "" && (pattern[0] == '_' || Lower(pattern[0]) == Lower(text[0])) && Like(pattern[1..], text[1..])
  }

  lemma {:induction false} PrefixIsLike(pattern: string, text: string)
    requires pattern <= text
    ensures Like(pattern, text)
  {
    if pattern != "" {
      PrefixIsLike(pattern[1..], text[1..]);
    }
  }

  /** `pattern` has no wildcard, and where it shares a letter with `text` it shares the case too. */
  predicate Literal(pattern: string, text: string) {
    && '%' !in pattern && '_' !in pattern
    && forall i :: 0 <= i < |pattern| && i < |text| && Lower(pattern[i]) == Lower(text[i]) ==> pattern[i] == text[i]
  }

  lemma {:induction false} LiteralLikeIsPrefix(pattern: string, text: string)
    requires Literal(pattern, text)
    ensures Like(pattern, text) <==> pattern <= text
  {
    if Like(pattern, text) && pattern != "" {
      LiteralLikeIsPrefix(pattern[1..], text[1..]);
      assert pattern[0] == text[0];
    } else if pattern <= text {
      PrefixIsLike(pattern, text);
    }
  }

  // ---------- Exactly when `LIKE` is a prefix test ----------

  predicate IsLetter(c: char) {
    'a' <= c <= 'z' || 'A' <= c <= 'Z'
  }

  /** A letter in its other case. */
  function Swapped(c: char): char
    requires IsLetter(c)
  {
    if 'a' <= c <= 'z' then (c as int - 32) as char else (c as int + 32) as char
  }

  /** No `%`, no `_` and no letter: each character stands for itself alone. */
  predicate AllPlain(pattern: string) {
    forall i :: 0 <= i < |pattern| ==> pattern[i] != '%' && pattern[i] != '_' && !IsLetter(pattern[i])
  }

  lemma {:induction false} PlainLikeIsPrefix(pattern: string, text: string)
    requires AllPlain(pattern) && Like(pattern, text)
    ensures pattern <= text
  {
    if pattern != "" {
      PlainLikeIsPrefix(pattern[1..], text[1..]);
      assert pattern[0] == text[0];
    }
  }

  /** A text that the pattern matches and that does not start with it. */
  lemma {:induction false} OtherText(pattern: string) returns (text: string)
    requires !AllPlain(pattern)
    ensures Like(pattern, text) && !(pattern <= text)
  {
    var head, rest := pattern[0], pattern[1..];
    PrefixIsLike(rest, rest);
    if head == '%' {
      text := rest;
    } else if head == '_' {
      text := "-" + rest;
      assert text[1..] == rest;
    } else if IsLetter(head) {
      text := [Swapped(head)] + rest;
      assert text[1..] == rest;
    } else {
      var other := OtherText(rest);
      text := [head] + other;
      assert text[1..] == other;
    }
  }

  /** `LIKE` and the prefix test agree on this text. */
  ghost predicate TestsAgree(pattern: string, text: string) {
    Like(pattern, text) <==> pattern <= text
  }

  /** A pattern selects exactly the texts that start with it if and only if it has no `%`, no `_` and no letter. */
  lemma LikeIsPrefixIff(pattern: string)
    ensures (forall text :: TestsAgree(pattern, text)) <==> AllPlain(pattern)
  {
    if AllPlain(pattern) {
      forall text ensures TestsAgree(pattern, text) {
        if Like(pattern, text) {
          PlainLikeIsPrefix(pattern, text);
        } else if pattern <= text {
          PrefixIsLike(pattern, text);
        }
      }
    } else {
      var text := OtherText(pattern);
      assert !TestsAgree(pattern, text);
    }
  }

  // ---------- Several patterns at once ----------

  function Letters(parts: seq<string>): nat {
    if parts == [] then 0 else |parts[0]| + Letters(parts[1..])
  }

  /** The parts that start with `c`, without it. */
  function Tails(parts: seq<string>, c: char): (tails: seq<string>)
    ensures Letters(tails) <= Letters(parts) && (parts != [] && "" !in parts ==> Letters(tails) < Letters(parts))
  {
    if parts == [] then []
    else
      var rest := Tails(parts[1..], c);
      if parts[0] != "" && parts[0][0] == c
      then assert ([parts[0][1..]] + rest)[1..] == rest; [parts[0][1..]] + rest
      else rest
  }

  lemma {:induction false} TailsHold(parts: seq<string>, c: char, tail: string)
    ensures tail in Tails(parts, c) <==> [c] + tail in parts
  {
    if parts != [] {
      TailsHold(parts[1..], c, tail);
      assert parts[0] != "" ==> parts[0] == [parts[0][0]] + parts[0][1..];
      assert ([c] + tail)[0] == c && ([c] + tail)[1..] == tail;
    }
  }

  predicate StartsWithAny(parts: seq<string>, text: string) {
    exists part :: part in parts && part <= text
  }

  /** One character of a pattern other than `%` matches `c`. */
  predicate Fits(p: char, c: char) {
    p == '_' || Lower(p) == Lower(c)
  }

  /** Following the pattern character by character, in either case and through its wildcards, always ends some part. */
  ghost predicate IsCovered(pattern: string, parts: seq<string>)
    decreases Letters(parts), |pattern|
  {
    if "" in parts then true
    else if pattern == "" || parts == [] then false
    else if pattern[0] == '%'
    then IsCovered(pattern[1..], parts) && forall c :: IsCovered(pattern, Tails(parts, c))
    else forall c :: Fits(pattern[0], c) ==> IsCovered(pattern[1..], Tails(parts, c))
  }

  lemma PrependTail(parts: seq<string>, c: char, text: string)
    requires "" !in parts
    ensures StartsWithAny(parts, [c] + text) <==> StartsWithAny(Tails(parts, c), text)
  {
    if StartsWithAny(parts, [c] + text) {
      var part :| part in parts && part <= [c] + text;
      assert part == [c] + part[1..];
      TailsHold(parts, c, part[1..]);
      assert part[1..] <= text;
    }
    if StartsWithAny(Tails(parts, c), text) {
      var tail :| tail in Tails(parts, c) && tail <= text;
      TailsHold(parts, c, tail);
      assert [c] + tail <= [c] + text;
    }
  }

  lemma {:induction false} CoveredTextsStart(pattern: string, parts: seq<string>, text: string)
    requires IsCovered(pattern, parts) && Like(pattern, text)
    ensures StartsWithAny(parts, text)
    decreases |pattern| + |text|
  {
    if "" in parts {
      assert "" <= text;
    } else if pattern[0] == '%' && Like(pattern[1..], text) {
      CoveredTextsStart(pattern[1..], parts, text);
    } else {
      var c, rest := text[0], text[1..];
      assert text == [c] + rest;
      CoveredTextsStart(if pattern[0] == '%' then pattern else pattern[1..], Tails(parts, c), rest);
      PrependTail(parts, c, rest);
    }
  }

  /** A text that the pattern matches and that no part starts. */
  lemma {:induction false} UncoveredText(pattern: string, parts: seq<string>) returns (text: string)
    requires !IsCovered(pattern, parts)
    ensures Like(pattern, text) && !StartsWithAny(parts, text)
    decreases Letters(parts), |pattern|
  {
    if pattern == "" || parts == [] {
      PrefixIsLike(pattern, pattern);
      text := pattern;
    } else if pattern[0] == '%' && !IsCovered(pattern[1..], parts) {
      text := UncoveredText(pattern[1..], parts);
    } else {
      var rest := if pattern[0] == '%' then pattern else pattern[1..];
      var c :| (pattern[0] == '%' || Fits(pattern[0], c)) && !IsCovered(rest, Tails(parts, c));
      var tail := UncoveredText(rest, Tails(parts, c));
      text := [c] + tail;
      assert text[1..] == tail;
      PrependTail(parts, c, tail);
    }
  }

  /** Exactly when every text a pattern matches starts with some part. */
  lemma IsCoveredIff(pattern: string, parts: seq<string>)
    ensures (forall text :: Like(pattern, text) ==> StartsWithAny(parts, text)) <==> IsCovered(pattern, parts)
  {
    if IsCovered(pattern, parts) {
      forall text | Like(pattern, text) ensures StartsWithAny(parts, text) {
        CoveredTextsStart(pattern, parts, text);
      }
    } else {
      var text := UncoveredText(pattern, parts);
    }
  }

  /** A part alone covers itself exactly when it is plain; beside others it may be covered without being so. */
  lemma AloneIsCoveredIff(part: string)
    ensures IsCovered(part, [part]) <==> AllPlain(part)
  {
    if AllPlain(part) {
      forall text | Like(part, text) ensures StartsWithAny([part], text) {
        PlainLikeIsPrefix(part, text);
        assert part in [part];
      }
    } else {
      var text := OtherText(part);
      assert !StartsWithAny([part], text);
    }
    IsCoveredIff(part, [part]);
  }

  // ---------- Live broadcasts ----------

  predicate LevelPasses(minLevel: string, level: string) {
    match minLevel
    case "error" => level == "ERROR"
    case "warn" => level == "ERROR" || level == "WARN"
    case "debug" => level == "ERROR" || level == "WARN" || level == "INFO" || level == "DEBUG"
    case _ => level == "ERROR" || level == "WARN" || level == "INFO"
  }

  predicate ScopeMatches(scope: Option<string>, pipelineId: Option<string>, outputId: Option<string>) {
    if scope == Some("restream") then pipelineId.None? && outputId.None?
    else if scope == Some("pipeline") then pipelineId.Some? && outputId.None?
    else if scope == Some("output") then outputId.Some?
    else true
  }

  predicate PrefixMatches(prefix: Option<string>, message: string) {
    prefix.None? || exists part :: part in Parts(prefix.value) && part <= message
  }

  predicate LiveMatches(f: StreamFilter, row: Row) {
    && LevelPasses(f.minLevel, row.level)
    && (f.target.Some? ==> f.target.value <= row.target)
    && ScopeMatches(f.scope, row.pipelineId, row.outputId)
    && (f.pipelineId.Some? ==>
          || row.pipelineId == f.pipelineId
          || (f.includeRestream && f.outputId.None? && row.pipelineId.None? && row.outputId.None?))
    && (f.outputId.Some? ==> row.outputId == f.outputId)
    && (f.eventClass.Some? ==> row.eventClass == f.eventClass)
    && PrefixMatches(f.prefix, row.message)
  }

  // ---------- Backfill pages ----------

  datatype StoreFilter = StoreFilter(level: string, target: Option<string>, scope: Option<string>,
                                     pipelineId: Option<string>, outputId: Option<string>,
                                     eventClass: Option<string>, prefix: Option<string>)

  function BackfillFilter(f: StreamFilter): StoreFilter {
    StoreFilter(f.minLevel, f.target, f.scope, f.pipelineId, f.outputId, f.eventClass, f.prefix)
  }

  function RestreamFilter(f: StreamFilter): StoreFilter {
    BackfillFilter(f).(scope := Some("restream"), pipelineId := None, outputId := None)
  }

  /** The levels the query binds. */
  function StoredLevels(level: string): seq<string> {
    match level
    case "error" => ["ERROR"]
    case "warn" => ["ERROR", "WARN"]
    case "debug" => ["ERROR", "WARN", "INFO", "DEBUG"]
    case _ => ["ERROR", "WARN", "INFO"]
  }

  predicate StoreMatches(f: StoreFilter, row: Row) {
    && row.level in StoredLevels(f.level)
    && (f.target.Some? ==> Like(f.target.value, row.target))
    && ScopeMatches(f.scope, row.pipelineId, row.outputId)
    && (f.pipelineId.Some? ==> row.pipelineId == f.pipelineId)
    && (f.outputId.Some? ==> row.outputId == f.outputId)
    && (f.eventClass.Some? ==> row.eventClass == f.eventClass)
    && (f.prefix.Some? && Parts(f.prefix.value) != [] ==>
          exists part :: part in Parts(f.prefix.value) && Like(part, row.message))
  }

  /** The queries a backfill page is read with. */
  function Queries(f: StreamFilter): set<StoreFilter> {
    {BackfillFilter(f)} + if ShouldMerge(f) then {RestreamFilter(f)} else {}
  }

  predicate AnyMatches(fs: set<StoreFilter>, row: Row) {
    exists f :: f in fs && StoreMatches(f, row)
  }

  predicate BackfillMatches(f: StreamFilter, row: Row) {
    AnyMatches(Queries(f), row)
  }

  // ---------- How the two relate ----------

  /** A row the live stream would send is in the backfill, whatever the filter. */
  lemma LiveRowsAreBackfilled(f: StreamFilter, row: Row)
    requires LiveMatches(f, row)
    ensures BackfillMatches(f, row)
  {
    if f.target.Some? {
      PrefixIsLike(f.target.value, row.target);
    }
    if f.prefix.Some? {
      var part :| part in Parts(f.prefix.value) && part <= row.message;
      PrefixIsLike(part, row.message);
    }
    if row.pipelineId == f.pipelineId || f.pipelineId.None? {
      assert StoreMatches(BackfillFilter(f), row);
    } else {
      assert StoreMatches(RestreamFilter(f), row);
    }
  }

  /** A scope a merged backfill sets aside for the global rows, and the live stream does not. */
  predicate ScopeIsReplaced(f: StreamFilter) {
    ShouldMerge(f) && (f.scope == Some("pipeline") || f.scope == Some("output"))
  }

  /** The filter's texts are compared with this row's as they stand, and a given prefix names a part. */
  predicate TextIsLiteral(f: StreamFilter, row: Row) {
    && (f.target.Some? ==> Literal(f.target.value, row.target))
    && (f.prefix.Some? ==>
          && Parts(f.prefix.value) != []
          && forall part :: part in Parts(f.prefix.value) ==> Literal(part, row.message))
  }

  lemma BackfilledRowsAreLive(f: StreamFilter, row: Row)
    requires BackfillMatches(f, row) && TextIsLiteral(f, row) && !ScopeIsReplaced(f)
    ensures LiveMatches(f, row)
  {
    if f.target.Some? {
      LiteralLikeIsPrefix(f.target.value, row.target);
    }
    if f.prefix.Some? {
      var part :| part in Parts(f.prefix.value) && Like(part, row.message);
      LiteralLikeIsPrefix(part, row.message);
    }
  }

  // ---------- Exactly when the two agree ----------

  /** Some row can pass the stored filter: its scope does not contradict the ids it names. */
  predicate IsSatisfiable(f: StreamFilter) {
    if ShouldMerge(f) then true
    else if f.scope == Some("restream") then f.pipelineId.None? && f.outputId.None?
    else if f.scope == Some("pipeline") then f.outputId.None?
    else true
  }

  /** The filter's texts select by prefix: a plain target, and a prefix whose parts cover one another. */
  ghost predicate TextsAreExact(f: StreamFilter) {
    && (f.target.Some? ==> AllPlain(f.target.value))
    && (f.prefix.Some? ==>
          var parts := Parts(f.prefix.value);
          parts != [] && forall part :: part in parts ==> IsCovered(part, parts))
  }

  /** What a caller can check of a filter alone. */
  ghost predicate MatchersAgree(f: StreamFilter) {
    IsSatisfiable(f) ==> !ScopeIsReplaced(f) && TextsAreExact(f)
  }

  /** Texts the stored filter takes. */
  ghost predicate TextsPass(f: StreamFilter, target: string, message: string) {
    && (f.target.Some? ==> Like(f.target.value, target))
    && (f.prefix.Some? && Parts(f.prefix.value) != [] ==>
          exists part :: part in Parts(f.prefix.value) && Like(part, message))
  }

  /** A row of a satisfiable filter with the given texts. */
  function RowWith(f: StreamFilter, target: string, message: string): Row {
    var scoped := if f.scope == Some("pipeline") then Some("p") else None;
    var pipelineId := if f.pipelineId.Some? then f.pipelineId else scoped;
    var outputId := if f.outputId.Some? then f.outputId else if f.scope == Some("output") then Some("o") else None;
    if ShouldMerge(f) then Row(1, "ERROR", target, message, None, None, f.eventClass)
    else Row(1, "ERROR", target, message, pipelineId, outputId, f.eventClass)
  }

  lemma RowWithIsStored(f: StreamFilter, target: string, message: string)
    requires IsSatisfiable(f) && TextsPass(f, target, message)
    ensures BackfillMatches(f, RowWith(f, target, message))
  {
    var row := RowWith(f, target, message);
    if ShouldMerge(f) {
      assert StoreMatches(RestreamFilter(f), row);
    } else {
      assert StoreMatches(BackfillFilter(f), row);
    }
  }

  /** Texts that pass, whatever the filter. */
  lemma SomeTextsPass(f: StreamFilter) returns (target: string, message: string)
    ensures TextsPass(f, target, message)
  {
    target := if f.target.Some? then f.target.value else "";
    PrefixIsLike(target, target);
    message := "";
    if f.prefix.Some? && Parts(f.prefix.value) != [] {
      message := Parts(f.prefix.value)[0];
      PrefixIsLike(message, message);
    }
  }

  /** A row the stored filter selects and the live one does not. */
  lemma SplitRow(f: StreamFilter) returns (row: Row)
    requires !MatchersAgree(f)
    ensures BackfillMatches(f, row) && !LiveMatches(f, row) && row.id == 1
  {
    var target, message := SomeTextsPass(f);
    if !ScopeIsReplaced(f) {
      if f.target.Some? && !AllPlain(f.target.value) {
        target := OtherText(f.target.value);
      } else if Parts(f.prefix.value) != [] {
        var part :| part in Parts(f.prefix.value) && !IsCovered(part, Parts(f.prefix.value));
        message := UncoveredText(part, Parts(f.prefix.value));
      }
    }
    row := RowWith(f, target, message);
    RowWithIsStored(f, target, message);
  }

  lemma AgreeingRowsAreLive(f: StreamFilter, row: Row)
    requires MatchersAgree(f) && BackfillMatches(f, row)
    ensures LiveMatches(f, row)
  {
    if f.target.Some? && AllPlain(f.target.value) && Like(f.target.value, row.target) {
      PlainLikeIsPrefix(f.target.value, row.target);
    }
    if f.prefix.Some? && exists part :: part in Parts(f.prefix.value) && Like(part, row.message) {
      var part :| part in Parts(f.prefix.value) && Like(part, row.message);
      if IsCovered(part, Parts(f.prefix.value)) {
        CoveredTextsStart(part, Parts(f.prefix.value), row.message);
      }
    }
  }

  /** For every filter: the two matchers agree on every row if and only if the filter alone says so. */
  lemma MatchersAgreeIff(f: StreamFilter)
    ensures (forall row :: LiveMatches(f, row) <==> BackfillMatches(f, row)) <==> MatchersAgree(f)
  {
    if MatchersAgree(f) {
      forall row ensures LiveMatches(f, row) <==> BackfillMatches(f, row) {
        if LiveMatches(f, row) {
          LiveRowsAreBackfilled(f, row);
        } else if BackfillMatches(f, row) {
          AgreeingRowsAreLive(f, row);
        }
      }
    } else {
      var row := SplitRow(f);
    }
  }

  /** One such row: another case of the target, and a prefix whose `_` is a wildcard. */
  lemma LikeSelectsOtherRows()
    ensures var f := StreamFilter("info", Some("srt"), None, None, None, None, false, Some("a_b"));
            var row := Row(1, "INFO", "SRT", "a-b", None, None, None);
            BackfillMatches(f, row) && !LiveMatches(f, row)
  {
    var f := StreamFilter("info", Some("srt"), None, None, None, None, false, Some("a_b"));
    var row := Row(1, "INFO", "SRT", "a-b", None, None, None);
    assert Like("", "") && Like("t", "T") && Like("rt", "RT") && Like("srt", "SRT");
    assert Like("b", "b") && Like("_b", "-b") && Like("a_b", "a-b");
    assert Comma("") == 0 && Comma("b") == 1 && Comma("_b") == 2 && Comma("a_b") == 3;
    assert "a_b"[..3] == "a_b" && Trimmed("a_b") == "a_b";
    assert Parts("a_b") == ["a_b"] + [];
    assert "a_b" in Parts("a_b");
    assert StoreMatches(BackfillFilter(f), row);
    assert !("srt" <= "SRT") by {
      assert "srt"[0] != "SRT"[0];
    }
  }

  /** A prefix filter of blank parts hides every live row, and no stored one. */
  lemma BlankPrefixSplitsMatchers(f: StreamFilter, row: Row)
    requires f.prefix.Some? && Parts(f.prefix.value) == []
    ensures !LiveMatches(f, row)
    ensures BackfillMatches(f, row) <==> BackfillMatches(f.(prefix := None), row)
  {
    var g := f.(prefix := None);
    assert StoreMatches(BackfillFilter(f), row) <==> StoreMatches(BackfillFilter(g), row);
    assert StoreMatches(RestreamFilter(f), row) <==> StoreMatches(RestreamFilter(g), row);
  }
}
