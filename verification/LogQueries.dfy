/**
 What a log stream's query asks for, as the API reference words it, and the proof that the live filter passes exactly
 that; then what the stored filter selects for the same query.
 */
module LogQueries {
  import opened Prelude
  import opened LogFilters

  // ---------- Levels ----------

  /** The levels rows have, from the least severe. */
  const LEVELS: seq<string> := ["DEBUG", "INFO", "WARN", "ERROR"]

  /** Their names in a query. */
  const NAMES: seq<string> := ["debug", "info", "warn", "error"]

  /** The least level a query names has this place among them; with no name, or another, it is info. */
  ghost predicate IsThreshold(level: Option<string>, rank: nat) {
    if level.Some? && level.value in NAMES then rank < |NAMES| && NAMES[rank] == level.value else rank == 1
  }

  /** The row is at least as severe as the query's least level. */
  ghost predicate IsSevereEnough(level: Option<string>, row: Row) {
    exists rank: nat, k: nat :: IsThreshold(level, rank) && rank <= k < |LEVELS| && LEVELS[k] == row.level
  }

  lemma ThresholdsAre(minLevel: string)
    ensures minLevel == "debug" ==> forall rank: nat :: IsThreshold(Some(minLevel), rank) <==> rank == 0
    ensures minLevel == "warn" ==> forall rank: nat :: IsThreshold(Some(minLevel), rank) <==> rank == 2
    ensures minLevel == "error" ==> forall rank: nat :: IsThreshold(Some(minLevel), rank) <==> rank == 3
    ensures minLevel != "debug" && minLevel != "warn" && minLevel != "error" ==>
              forall rank: nat :: IsThreshold(Some(minLevel), rank) <==> rank == 1
  {
    assert NAMES[0] == "debug" && NAMES[1] == "info" && NAMES[2] == "warn" && NAMES[3] == "error";
    assert minLevel in NAMES <==>
           minLevel == "debug" || minLevel == "info" || minLevel == "warn" || minLevel == "error";
  }

  /** Live and stored rows pass from the same level on. */
  lemma LevelsPassFromTheThreshold(minLevel: string, row: Row)
    ensures LevelPasses(minLevel, row.level) <==> IsSevereEnough(Some(minLevel), row)
    ensures row.level in StoredLevels(minLevel) <==> IsSevereEnough(Some(minLevel), row)
  {
    ThresholdsAre(minLevel);
    assert LEVELS[0] == "DEBUG" && LEVELS[1] == "INFO" && LEVELS[2] == "WARN" && LEVELS[3] == "ERROR";
    var rank: nat := if minLevel == "debug" then 0 else if minLevel == "warn" then 2
                     else if minLevel == "error" then 3 else 1;
    assert IsThreshold(Some(minLevel), rank);
    assert IsSevereEnough(Some(minLevel), row) <==> exists k: nat :: rank <= k < |LEVELS| && LEVELS[k] == row.level;
  }

  /** A level passes under its own name and under no stricter one. */
  lemma EachLevelPassesUnderItsName(i: nat, j: nat)
    requires i < |NAMES| && j < |LEVELS|
    ensures LevelPasses(NAMES[i], LEVELS[j]) <==> i <= j
  {
  }

  // ---------- Owners ----------

  /** Whom a row belongs to: an output, a pipeline alone, or the service. */
  datatype Owner = OfRestream | OfPipeline | OfOutput

  function OwnerOf(row: Row): Owner {
    if row.outputId.Some? then OfOutput else if row.pipelineId.Some? then OfPipeline else OfRestream
  }

  /** A scope names an owner; any other word asks for nothing. */
  predicate IsInScope(scope: Option<string>, owner: Owner) {
    && (scope == Some("restream") ==> owner == OfRestream)
    && (scope == Some("pipeline") ==> owner == OfPipeline)
    && (scope == Some("output") ==> owner == OfOutput)
  }

  // ---------- Prefixes ----------

  /** `text[i..j]` is a longest stretch without a comma. */
  predicate IsSegment(text: string, i: nat, j: nat) {
    && i <= j <= |text| && (forall k :: i <= k < j ==> text[k] != ',')
    && (i == 0 || text[i - 1] == ',') && (j == |text| || text[j] == ',')
  }

  /** `text[i..j]` is `text` without the spaces around it. */
  ghost predicate IsTrim(text: string, i: nat, j: nat) {
    && i <= j <= |text| && (forall k :: 0 <= k < i || j <= k < |text| ==> IsSpace(text[k]))
    && (i < j ==> !IsSpace(text[i]) && !IsSpace(text[j - 1]))
  }

  lemma {:induction false} TrimmedIsTrim(text: string) returns (i: nat, j: nat)
    ensures IsTrim(text, i, j) && Trimmed(text) == text[i..j]
  {
    if text == "" {
      i, j := 0, 0;
    } else if IsSpace(text[0]) {
      i, j := TrimmedIsTrim(text[1..]);
      assert forall k :: 0 < k < |text| ==> text[k] == text[1..][k - 1];
      i, j := i + 1, j + 1;
    } else if IsSpace(text[|text| - 1]) {
      i, j := TrimmedIsTrim(text[..|text| - 1]);
    } else {
      i, j := 0, |text|;
    }
  }

  /** `comma` is where the first segment ends. */
  predicate EndsFirst(text: string, comma: nat) {
    comma <= |text| && (forall k :: 0 <= k < comma ==> text[k] != ',') && (comma < |text| ==> text[comma] == ',')
  }

  lemma {:induction false} CommaIsFirst(text: string)
    ensures EndsFirst(text, Comma(text))
  {
    if text != "" && text[0] != ',' {
      CommaIsFirst(text[1..]);
      assert forall k :: 0 < k < |text| ==> text[k] == text[1..][k - 1];
    }
  }

  ghost predicate IsSegmentAt(text: string, segment: string, i: nat, j: nat) {
    IsSegment(text, i, j) && text[i..j] == segment
  }

  ghost predicate IsSegmentOf(text: string, segment: string) {
    exists i: nat, j: nat :: IsSegmentAt(text, segment, i, j)
  }

  lemma FirstSegment(text: string, comma: nat, segment: string, i: nat, j: nat)
    requires EndsFirst(text, comma)
    ensures IsSegmentAt(text, text[..comma], 0, comma)
    ensures IsSegmentAt(text, segment, i, j) && i <= comma ==> segment == text[..comma]
  {
    assert text[0..comma] == text[..comma];
  }

  lemma SegmentMoves(text: string, segment: string, from: nat, i: nat, j: nat)
    requires 0 < from <= |text| && text[from - 1] == ','
    ensures IsSegmentAt(text[from..], segment, i, j) <==> IsSegmentAt(text, segment, from + i, from + j)
  {
    var rest := text[from..];
    assert forall k :: 0 <= k < |rest| ==> rest[k] == text[from + k];
    if i <= j <= |rest| {
      assert rest[i..j] == text[from + i..from + j];
    }
    if IsSegment(rest, i, j) {
      forall k | from + i <= k < from + j ensures text[k] != ',' {
        assert rest[k - from] != ',';
      }
    }
  }

  lemma SegmentsAfterTheComma(text: string, comma: nat, segment: string)
    requires EndsFirst(text, comma) && comma < |text|
    ensures IsSegmentOf(text, segment) <==> segment == text[..comma] || IsSegmentOf(text[comma + 1..], segment)
  {
    var rest := text[comma + 1..];
    FirstSegment(text, comma, segment, 0, 0);
    if i: nat, j: nat :| IsSegmentAt(text, segment, i, j) {
      FirstSegment(text, comma, segment, i, j);
      if i > comma {
        SegmentMoves(text, segment, comma + 1, i - comma - 1, j - comma - 1);
      }
    } else if i: nat, j: nat :| IsSegmentAt(rest, segment, i, j) {
      SegmentMoves(text, segment, comma + 1, i, j);
    }
  }

  lemma OneSegment(text: string, segment: string)
    requires EndsFirst(text, |text|)
    ensures IsSegmentOf(text, segment) <==> segment == text[..|text|]
  {
    FirstSegment(text, |text|, segment, 0, 0);
    if i: nat, j: nat :| IsSegmentAt(text, segment, i, j) {
      FirstSegment(text, |text|, segment, i, j);
    }
  }

  /** A segment of `text` trims to `part`. */
  ghost predicate IsPart(text: string, part: string) {
    exists segment :: IsSegmentOf(text, segment) && Trimmed(segment) == part
  }

  lemma PartIsFirstOrAfter(text: string, comma: nat, part: string)
    requires EndsFirst(text, comma) && comma < |text|
    ensures IsPart(text, part) <==> Trimmed(text[..comma]) == part || IsPart(text[comma + 1..], part)
  {
    forall segment ensures IsSegmentOf(text, segment) <==>
                           segment == text[..comma] || IsSegmentOf(text[comma + 1..], segment) {
      SegmentsAfterTheComma(text, comma, segment);
    }
  }

  lemma PartIsOnly(text: string, part: string)
    requires EndsFirst(text, |text|)
    ensures IsPart(text, part) <==> Trimmed(text[..|text|]) == part
  {
    forall segment ensures IsSegmentOf(text, segment) <==> segment == text[..|text|] {
      OneSegment(text, segment);
    }
  }

  lemma PartsAreFirstAndAfter(text: string, part: string)
    ensures part in Parts(text) <==>
            || (part != "" && Trimmed(text[..Comma(text)]) == part)
            || (Comma(text) < |text| && part in Parts(text[Comma(text) + 1..]))
  {
  }

  /** The comma-separated parts of a prefix are its trimmed segments, but for the blank ones. */
  lemma {:induction false} PartsAreSegments(prefix: string, part: string)
    ensures part in Parts(prefix) <==> part != "" && IsPart(prefix, part)
    decreases |prefix|
  {
    CommaIsFirst(prefix);
    PartsAreFirstAndAfter(prefix, part);
    if Comma(prefix) < |prefix| {
      PartsAreSegments(prefix[Comma(prefix) + 1..], part);
      PartIsFirstOrAfter(prefix, Comma(prefix), part);
    } else {
      PartIsOnly(prefix, part);
    }
  }

  /** The message starts with a part of the prefix that is not blank. */
  ghost predicate StartsWithAPart(prefix: string, message: string) {
    exists part :: IsPart(prefix, part) && part != "" && part <= message
  }

  lemma PrefixStartsWithAPart(prefix: string, message: string)
    ensures PrefixMatches(Some(prefix), message) <==> StartsWithAPart(prefix, message)
  {
    forall part ensures part in Parts(prefix) <==> part != "" && IsPart(prefix, part) {
      PartsAreSegments(prefix, part);
    }
  }

  // ---------- Queries ----------

  /** Rows of the pipeline asked for and, if asked for too, of the service; an output asked for rules those out. */
  predicate IsOfPipeline(query: StreamQuery, row: Row) {
    query.pipelineId.Some? ==>
      || row.pipelineId == query.pipelineId
      || (query.includeRestream == Some(true) && query.outputId.None? && OwnerOf(row) == OfRestream)
  }

  /** What a stream's query asks for. */
  ghost predicate Answers(query: StreamQuery, row: Row) {
    && IsSevereEnough(query.level, row)
    && IsInScope(query.scope, OwnerOf(row))
    && IsOfPipeline(query, row)
    && (query.outputId.Some? ==> row.outputId == query.outputId)
    && (query.eventClass.Some? ==> row.eventClass == query.eventClass)
    && (query.target.Some? ==> query.target.value <= row.target)
    && (query.prefix.Some? ==> StartsWithAPart(query.prefix.value, row.message))
  }

  lemma ThresholdOfQuery(query: StreamQuery, row: Row)
    ensures IsSevereEnough(Some(FromQuery(query).minLevel), row) <==> IsSevereEnough(query.level, row)
  {
    var minLevel := FromQuery(query).minLevel;
    assert "info" == NAMES[1];
    ThresholdsAre(minLevel);
    assert forall rank: nat :: IsThreshold(query.level, rank) <==> IsThreshold(Some(minLevel), rank);
  }

  /** The live filter made from a query passes exactly the rows that answer it. */
  lemma LiveRowsAnswerTheQuery(query: StreamQuery, row: Row)
    ensures LiveMatches(FromQuery(query), row) <==> Answers(query, row)
  {
    LevelsPassFromTheThreshold(FromQuery(query).minLevel, row);
    ThresholdOfQuery(query, row);
    if query.prefix.Some? {
      PrefixStartsWithAPart(query.prefix.value, row.message);
    }
  }

  /** The texts are compared with `LIKE`, and a prefix of blank parts asks for nothing. */
  ghost predicate TextsAreLike(query: StreamQuery, row: Row) {
    && (query.target.Some? ==> Like(query.target.value, row.target))
    && (query.prefix.Some? && (exists part :: IsPart(query.prefix.value, part) && part != "") ==>
          exists part :: IsPart(query.prefix.value, part) && part != "" && Like(part, row.message))
  }

  /** What the store selects: the rows asked for, and all of the service's when a pipeline's include them. */
  ghost predicate IsStored(query: StreamQuery, row: Row) {
    && IsSevereEnough(query.level, row) && TextsAreLike(query, row)
    && (query.eventClass.Some? ==> row.eventClass == query.eventClass)
    && (|| (query.includeRestream == Some(true) && query.pipelineId.Some? && query.outputId.None?
            && OwnerOf(row) == OfRestream)
        || (&& IsInScope(query.scope, OwnerOf(row))
            && (query.pipelineId.Some? ==> row.pipelineId == query.pipelineId)
            && (query.outputId.Some? ==> row.outputId == query.outputId)))
  }

  lemma TextsOfQuery(query: StreamQuery, row: Row)
    ensures TextsPass(FromQuery(query), row.target, row.message) <==> TextsAreLike(query, row)
  {
    if query.prefix.Some? {
      var parts := Parts(query.prefix.value);
      forall part ensures part in parts <==> IsPart(query.prefix.value, part) && part != "" {
        PartsAreSegments(query.prefix.value, part);
      }
      assert parts != [] <==> exists part :: part in parts by {
        if parts != [] {
          assert parts[0] in parts;
        }
      }
    }
  }

  /** A backfill made from a query selects exactly those rows. */
  lemma BackfilledRowsAreStored(query: StreamQuery, row: Row)
    ensures BackfillMatches(FromQuery(query), row) <==> IsStored(query, row)
  {
    var f := FromQuery(query);
    LevelsPassFromTheThreshold(f.minLevel, row);
    ThresholdOfQuery(query, row);
    TextsOfQuery(query, row);
    assert BackfillMatches(f, row) <==>
           StoreMatches(BackfillFilter(f), row) || (ShouldMerge(f) && StoreMatches(RestreamFilter(f), row));
  }
}
