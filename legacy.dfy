/** What the older single-file script outlook_ai_summary.py does differently
    from the package: summaries carry de-duplicated topics, the topics are
    the terms linked in the note, merged blocks are separated by a "---"
    rule, and the category labels come from the environment. Its other
    helpers are the package's code and are modelled once, in the other
    modules. */
module Legacy {
  import opened Text
  import opened Payload
  import opened Linker
  import opened Renderer
  import opened Graph
  import opened Config

  const LegacySeparator := "\n\n---\n\n"
  const TriggerVar := "OUTLOOK_TRIGGER_CATEGORY"
  const ProcessedVar := "OUTLOOK_PROCESSED_CATEGORY"

  /** The normalised summary of the script: the package's record and the
      topics. */
  datatype LegacySummary = LegacySummary(base: Summary, topics: seq<string>)

  // --------------------------------------------------------- topics

  /** The de-duplication loop of normalize_summary_payload, from a set of
      lower-cased keys already seen: a topic is skipped when its key was
      seen or it is blank, else its stripped text is kept and its key
      recorded. */
  function Dedup(topics: seq<string>, seen: set<string>): (r: seq<string>)
    ensures |r| <= |topics|
    decreases |topics|
  {
    if topics == [] then []
    else
      var key := Lower(topics[0]);
      if key in seen || Strip(topics[0]) == [] then Dedup(topics[1..], seen)
      else [Strip(topics[0])] + Dedup(topics[1..], seen + {key})
  }

  method DedupTopics(topics: seq<string>) returns (unique: seq<string>)
    ensures unique == Dedup(topics, {})
  {
    var seen: set<string> := {};
    unique := [];
    for k := 0 to |topics|
      invariant Dedup(topics, {}) == unique + Dedup(topics[k..], seen)
    {
      assert topics[k..][0] == topics[k] && topics[k..][1..] == topics[k + 1..];
      var key := Lower(topics[k]);
      if key in seen || Strip(topics[k]) == [] {
        continue;
      }
      seen := seen + {key};
      unique := unique + [Strip(topics[k])];
    }
  }

  /** topics[i] is the first topic with its lower-cased key. */
  predicate FirstWithKey(topics: seq<string>, i: int)
    requires 0 <= i < |topics|
  {
    forall j :: 0 <= j < i ==> Lower(topics[j]) != Lower(topics[i])
  }

  /** On clean topics no two results are equal ignoring case, and none has
      a key that was already seen. */
  lemma {:induction false} DedupDistinct(topics: seq<string>, seen: set<string>)
    requires AllClean(topics)
    ensures forall i :: 0 <= i < |Dedup(topics, seen)| ==> Lower(Dedup(topics, seen)[i]) !in seen
    ensures forall i, j :: 0 <= i < j < |Dedup(topics, seen)| ==>
              Lower(Dedup(topics, seen)[i]) != Lower(Dedup(topics, seen)[j])
    decreases |topics|
  {
    if topics != [] {
      var t := topics[0];
      var rest := topics[1..];
      assert AllClean(rest) by {
        forall k | 0 <= k < |rest| ensures CleanItem(rest[k]) {
          assert rest[k] == topics[k + 1];
        }
      }
      assert CleanItem(t);
      StripOfStripped(t);
      if Lower(t) in seen || Strip(t) == [] {
        DedupDistinct(rest, seen);
      } else {
        var seen1 := seen + {Lower(t)};
        DedupDistinct(rest, seen1);
        var tail := Dedup(rest, seen1);
        var r := Dedup(topics, seen);
        assert r == [t] + tail;
        assert forall i :: 0 <= i < |tail| ==> Lower(tail[i]) !in seen1;
        forall i | 0 <= i < |r| ensures Lower(r[i]) !in seen {
          if i > 0 {
            assert r[i] == tail[i - 1];
            assert Lower(tail[i - 1]) !in seen1;
          }
        }
        forall i, j | 0 <= i < j < |r| ensures Lower(r[i]) != Lower(r[j]) {
          assert r[j] == tail[j - 1];
          assert Lower(tail[j - 1]) !in seen1;
          if i > 0 { assert r[i] == tail[i - 1]; }
        }
      }
    }
  }

  /** On clean topics a topic is kept exactly when it is the first with its
      key and that key was not seen before: the first occurrence wins. */
  lemma {:induction false} DedupFirstOccurrence(topics: seq<string>, seen: set<string>, x: string)
    requires AllClean(topics)
    ensures x in Dedup(topics, seen) <==>
              Lower(x) !in seen
              && exists i :: 0 <= i < |topics| && topics[i] == x && FirstWithKey(topics, i)
    decreases |topics|
  {
    if topics != [] {
      CleanRest(topics);
      var t := topics[0];
      var seen1 := if Lower(t) in seen then seen else seen + {Lower(t)};
      DedupFirstOccurrence(topics[1..], seen1, x);
      KeptIsFirst(topics, seen, x);
      FirstIsKept(topics, seen, x);
    }
  }

  /** The topics after a clean first one are clean, and the first one is its
      own stripped form. */
  lemma CleanRest(topics: seq<string>)
    requires topics != [] && AllClean(topics)
    ensures AllClean(topics[1..]) && topics[0] != [] && Strip(topics[0]) == topics[0]
  {
    var rest := topics[1..];
    forall k | 0 <= k < |rest| ensures CleanItem(rest[k]) {
      assert rest[k] == topics[k + 1];
    }
    assert CleanItem(topics[0]);
    StripOfStripped(topics[0]);
  }

  /** One step of DedupFirstOccurrence, from the rest to the whole list: a
      kept topic is the first with its key ... */
  lemma KeptIsFirst(topics: seq<string>, seen: set<string>, x: string)
    requires topics != [] && topics[0] != [] && Strip(topics[0]) == topics[0]
    requires var t := topics[0];
             var seen1 := if Lower(t) in seen then seen else seen + {Lower(t)};
             x in Dedup(topics[1..], seen1) ==>
               Lower(x) !in seen1
               && exists i :: 0 <= i < |topics[1..]| && topics[1..][i] == x && FirstWithKey(topics[1..], i)
    ensures x in Dedup(topics, seen) ==>
              Lower(x) !in seen
              && exists i :: 0 <= i < |topics| && topics[i] == x && FirstWithKey(topics, i)
  {
    var t := topics[0];
    var rest := topics[1..];
    var seen1 := if Lower(t) in seen then seen else seen + {Lower(t)};
    assert Dedup(topics, seen) == (if Lower(t) in seen then [] else [t]) + Dedup(rest, seen1);
    if x in Dedup(topics, seen) {
      if x == t && Lower(t) !in seen {
        assert FirstWithKey(topics, 0);
      } else {
        assert x in Dedup(rest, seen1);
        var i :| 0 <= i < |rest| && rest[i] == x && FirstWithKey(rest, i);
        assert topics[i + 1] == x;
        forall j | 0 <= j < i + 1 ensures Lower(topics[j]) != Lower(topics[i + 1]) {
          if j > 0 { assert topics[j] == rest[j - 1]; }
        }
      }
    }
  }

  /** ... and the first topic with an unseen key is kept. */
  lemma FirstIsKept(topics: seq<string>, seen: set<string>, x: string)
    requires topics != [] && topics[0] != [] && Strip(topics[0]) == topics[0]
    requires var t := topics[0];
             var seen1 := if Lower(t) in seen then seen else seen + {Lower(t)};
             (Lower(x) !in seen1
              && exists i :: 0 <= i < |topics[1..]| && topics[1..][i] == x && FirstWithKey(topics[1..], i))
             ==> x in Dedup(topics[1..], seen1)
    ensures (Lower(x) !in seen
             && exists i :: 0 <= i < |topics| && topics[i] == x && FirstWithKey(topics, i))
            ==> x in Dedup(topics, seen)
  {
    var t := topics[0];
    var rest := topics[1..];
    var seen1 := if Lower(t) in seen then seen else seen + {Lower(t)};
    assert Dedup(topics, seen) == (if Lower(t) in seen then [] else [t]) + Dedup(rest, seen1);
    if Lower(x) !in seen && exists i :: 0 <= i < |topics| && topics[i] == x && FirstWithKey(topics, i) {
      var i :| 0 <= i < |topics| && topics[i] == x && FirstWithKey(topics, i);
      if i > 0 {
        assert Lower(topics[0]) != Lower(x);
        assert rest[i - 1] == x;
        forall j | 0 <= j < i - 1 ensures Lower(rest[j]) != Lower(rest[i - 1]) {
          assert rest[j] == topics[j + 1];
        }
        assert FirstWithKey(rest, i - 1);
      }
    }
  }

  /** a occurs in b in order, possibly with gaps */
  predicate Subsequence(a: seq<string>, b: seq<string>)
    decreases |b|
  {
    a == [] || (b != [] && ((a[0] == b[0] && Subsequence(a[1..], b[1..])) || Subsequence(a, b[1..])))
  }

  /** On clean topics the kept topics appear in their original order. */
  lemma {:induction false} DedupOrder(topics: seq<string>, seen: set<string>)
    requires AllClean(topics)
    ensures Subsequence(Dedup(topics, seen), topics)
    decreases |topics|
  {
    if topics != [] {
      var t := topics[0];
      var rest := topics[1..];
      assert AllClean(rest) by {
        forall k | 0 <= k < |rest| ensures CleanItem(rest[k]) {
          assert rest[k] == topics[k + 1];
        }
      }
      assert CleanItem(t);
      StripOfStripped(t);
      if Lower(t) in seen || Strip(t) == [] {
        DedupOrder(rest, seen);
      } else {
        DedupOrder(rest, seen + {Lower(t)});
        var r := Dedup(topics, seen);
        assert r[0] == t && r[1..] == Dedup(rest, seen + {Lower(t)});
      }
    }
  }

  /** Different spellings of one topic collapse to the first one. */
  lemma DedupExample(a: string, b: string, c: string)
    requires a == "Budget" && b == "budget" && c == "Q3"
    ensures Dedup([a, b, c], {}) == [a, c]
  {
    assert Lower(a) == Lower(b);
    assert |Lower(c)| != |Lower(a)|;
    StripOfStripped(a);
    StripOfStripped(c);
    var ts := [a, b, c];
    var seen: set<string> := {Lower(a)};
    assert ts[0] == a && ts[1..] == [b, c];
    assert {} + {Lower(a)} == seen;
    assert Dedup(ts, {}) == [a] + Dedup([b, c], seen);
    assert [b, c][0] == b && [b, c][1..] == [c];
    assert Dedup([b, c], seen) == Dedup([c], seen);
    assert [c][0] == c && [c][1..] == [];
    assert Lower(c) !in seen;
    assert Dedup([c], seen) == [c] + Dedup([], seen + {Lower(c)});
  }

  // --------------------------------------------------------- normalisation

  /** normalize_summary_payload of the script: the package's record, plus
      the cleaned and de-duplicated topics. */
  function LegacyNormalized(payload: map<string, Json>, show: Json -> string): LegacySummary {
    LegacySummary(Normalized(payload, show), Dedup(CleanedList(payload, "topics"), {}))
  }

  method NormalizeLegacyPayload(payload: map<string, Json>, show: Json -> string) returns (r: LegacySummary)
    ensures r == LegacyNormalized(payload, show)
  {
    var base := NormalizeSummaryPayload(payload, show);
    var topics := NormalizeList(payload, "topics");
    var unique := DedupTopics(topics);
    r := LegacySummary(base, unique);
  }

  /** The topics are clean, distinct ignoring case, in their original order,
      and each is the first spelling of its key. */
  lemma LegacyTopics(payload: map<string, Json>, show: Json -> string, x: string)
    ensures var cleaned := CleanedList(payload, "topics");
            var topics := LegacyNormalized(payload, show).topics;
            && AllClean(topics)
            && (forall i, j :: 0 <= i < j < |topics| ==> Lower(topics[i]) != Lower(topics[j]))
            && Subsequence(topics, cleaned)
            && (x in topics <==> exists i :: 0 <= i < |cleaned| && cleaned[i] == x && FirstWithKey(cleaned, i))
  {
    var cleaned := CleanedList(payload, "topics");
    DedupDistinct(cleaned, {});
    DedupOrder(cleaned, {});
    DedupFirstOccurrence(cleaned, {}, x);
    var topics := Dedup(cleaned, {});
    forall k | 0 <= k < |topics| ensures CleanItem(topics[k]) {
      DedupFirstOccurrence(cleaned, {}, topics[k]);
    }
  }

  /** The fallback payload of the script also holds an empty topic list. */
  function LegacyFallbackPayload(content: string): map<string, Json> {
    FallbackPayload(content)["topics" := JList([])]
  }

  /** summarize_email of the script after the completion */
  function LegacySummaryFromContent(content: string, parsed: Option<Json>, show: Json -> string): (r: Result<LegacySummary>)
    ensures r.Err? <==> parsed.Some? && !parsed.value.JObject?
    ensures r.Err? ==> r.failure == AttributeError
  {
    match parsed
    case None => Ok(LegacyNormalized(LegacyFallbackPayload(Strip(content)), show))
    case Some(JObject(fields)) => Ok(LegacyNormalized(fields, show))
    case Some(_) => Err(AttributeError)
  }

  /** Invalid JSON gives what the package gives, and no topics. */
  lemma LegacyInvalidJson(content: string, show: Json -> string)
    ensures var r := LegacySummaryFromContent(content, None, show);
            r.Ok? && r.value.topics == []
            && r.value.base == SummaryFromContent(content, None, show).value
  {
    var p := FallbackPayload(Strip(content));
    var q := LegacyFallbackPayload(Strip(content));
    assert CleanedList(q, "topics") == [];
    assert SummaryText(q, show) == SummaryText(p, show);
    assert CleanedList(q, "key_points") == CleanedList(p, "key_points");
    assert CleanedList(q, "todos") == CleanedList(p, "todos");
    assert CleanedList(q, "follow_ups") == CleanedList(p, "follow_ups");
    assert CleanedList(q, "context_notes") == CleanedList(p, "context_notes");
  }

  // --------------------------------------------------------- rendering

  /** format_summary_sections of the script: the package's layout with the
      summary's own topics as the terms to link. */
  method FormatLegacySections(s: LegacySummary) returns (lines: seq<string>)
    ensures lines == SectionLines(s.base, s.topics)
  {
    lines := FormatSummarySections(s.base, s.topics);
  }

  /** The topics only add brackets: the summary line read without "[[" and
      "]]" is the summary itself, and a summary without topics is written as
      it is. */
  lemma LegacySummaryLine(s: LegacySummary)
    requires HasNonSpace(s.base.summary)
    ensures var lines := SectionLines(s.base, s.topics);
            var text := Strip(s.base.summary);
            && lines != []
            && StartsWith(lines[0], SummaryLead)
            && Unbracketed(lines[0][|SummaryLead|..]) == Unbracketed(text)
            && (s.topics == [] ==> lines[0] == SummaryLead + text)
  {
    var text := Strip(s.base.summary);
    StripFacts(s.base.summary);
    LinkedTextOnlyBrackets(text, s.topics);
    var line := SummaryLead + LinkedText(text, s.topics);
    assert SectionLines(s.base, s.topics)[0] == line;
    assert line[|SummaryLead|..] == LinkedText(text, s.topics);
  }

  // --------------------------------------------------------- merge

  /** append_section of the script: a "---" rule between the note and the
      new block; the note is still kept in front. */
  lemma LegacyMergeKeepsHistory(existing: string, section: string)
    ensures var r := AppendSection(existing, section, LegacySeparator);
            var kept := RStrip(existing);
            && StartsWith(r, kept)
            && (kept == [] ==> r == Strip(section) + "\n")
            && (kept != [] ==> r[|kept|..] == "\n\n---\n\n" + Strip(section) + "\n")
  {
    AppendKeepsHistory(existing, section, LegacySeparator);
  }

  /** ("Old\n", "New block") gives "Old\n\n---\n\nNew block\n". */
  lemma LegacyAppendExample(existing: string, section: string)
    requires existing == "Old\n" && section == "New block"
    ensures AppendSection(existing, section, LegacySeparator) == "Old\n\n---\n\nNew block\n"
  {
    assert RStrip(existing) == "Old" by {
      assert existing[..|existing| - 1] == "Old";
    }
    StripOfStripped(section);
  }

  // --------------------------------------------------------- categories

  /** The labels mark_message_processed of the script reads from the
      environment, with the defaults when a variable is not set. */
  function TriggerLabel(env: Env): string {
    Get(env, TriggerVar, DefaultTrigger)
  }

  function ProcessedLabel(env: Env): string {
    Get(env, ProcessedVar, DefaultProcessed)
  }

  method LegacyMarkProcessed(env: Env, categories: seq<string>) returns (updated: seq<string>)
    ensures updated == UpdatedCategories(categories, TriggerLabel(env), ProcessedLabel(env))
  {
    var trigger := Get(env, TriggerVar, DefaultTrigger);
    var processed := Get(env, ProcessedVar, DefaultProcessed);
    updated := MarkProcessed(categories, trigger, processed);
  }

  /** With neither variable set, "AI Summarize" is removed and
      "AI Summarized" is present once the update is done, and the update is
      the package's: idempotent, nothing else touched. */
  lemma LegacyDefaultLabels(env: Env, categories: seq<string>)
    requires TriggerVar !in env && ProcessedVar !in env
    ensures var r := UpdatedCategories(categories, TriggerLabel(env), ProcessedLabel(env));
            && "AI Summarize" !in r && "AI Summarized" in r
            && UpdatedCategories(r, TriggerLabel(env), ProcessedLabel(env)) == r
  {
    assert DefaultTrigger != DefaultProcessed by {
      assert |DefaultTrigger| != |DefaultProcessed|;
    }
    UpdateLabels(categories, DefaultTrigger, DefaultProcessed);
    UpdateIdempotent(categories, DefaultTrigger, DefaultProcessed);
  }
}
