/** The AI summary record and normalize_summary_payload in summary.py, which
    turns whatever JSON the completion returned into that record. */
module Payload {
  import opened Text

  /** A decoded JSON value (floating-point numbers are not modelled). */
  datatype Json =
    | JNull
    | JBool(b: bool)
    | JInt(i: int)
    | JStr(s: string)
    | JList(items: seq<Json>)
    | JObject(fields: map<string, Json>)

  /** Python truthiness of a decoded JSON value */
  predicate Truthy(j: Json) {
    match j
    case JNull => false
    case JBool(b) => b
    case JInt(i) => i != 0
    case JStr(s) => s != []
    case JList(items) => items != []
    case JObject(fields) => fields != map[]
  }

  /** The normalised summary dict: summary, key_points, todos, context_notes */
  datatype Summary = Summary(
    summary: string,
    keyPoints: seq<string>,
    todos: seq<string>,
    contextNotes: seq<string>)

  const Placeholder := "(No summary returned)"

  predicate CleanItem(s: string) {
    s != [] && Stripped(s)
  }

  predicate AllClean(items: seq<string>) {
    forall k :: 0 <= k < |items| ==> CleanItem(items[k])
  }

  /** The items the loop of normalize_list keeps: every string item, stripped,
      unless that leaves it empty. */
  function CleanItems(items: seq<Json>): (r: seq<string>)
    ensures |r| <= |items|
    ensures AllClean(r)
  {
    if items == [] then []
    else if items[0].JStr? && Strip(items[0].s) != [] then
      StripFacts(items[0].s);
      [Strip(items[0].s)] + CleanItems(items[1..])
    else CleanItems(items[1..])
  }

  /** normalize_list(key): payload.get(key, []), a bare string taken as a
      one-item list, anything else that is not a list giving []. */
  function CleanedList(payload: map<string, Json>, key: string): (r: seq<string>)
    ensures AllClean(r)
  {
    if key !in payload then []
    else match payload[key]
      case JStr(s) => CleanItems([JStr(s)])
      case JList(items) => CleanItems(items)
      case _ => []
  }

  /** normalize_list: the loop that appends each kept item to cleaned. */
  method NormalizeList(payload: map<string, Json>, key: string) returns (cleaned: seq<string>)
    ensures cleaned == CleanedList(payload, key)
  {
    var value := if key in payload then payload[key] else JList([]);
    if value.JStr? {
      value := JList([value]);
    }
    if !value.JList? {
      return [];
    }
    var items := value.items;
    cleaned := [];
    for k := 0 to |items|
      invariant cleaned == CleanItems(items[..k])
    {
      CleanItemsAppend(items[..k], [items[k]]);
      assert items[..k + 1] == items[..k] + [items[k]];
      if items[k].JStr? {
        var text := Strip(items[k].s);
        if text != [] {
          cleaned := cleaned + [text];
        }
      }
    }
    assert items[..|items|] == items;
  }

  /** Cleaning works item by item, so the kept items stay in input order. */
  lemma {:induction false} CleanItemsAppend(a: seq<Json>, b: seq<Json>)
    ensures CleanItems(a + b) == CleanItems(a) + CleanItems(b)
  {
    if a != [] {
      assert (a + b)[0] == a[0];
      assert (a + b)[1..] == a[1..] + b;
      CleanItemsAppend(a[1..], b);
    } else {
      assert a + b == b;
    }
  }

  /** A string is kept exactly when some string item strips to it. */
  lemma {:induction false} CleanItemsMember(items: seq<Json>, x: string)
    ensures x in CleanItems(items) <==>
            x != [] && exists k :: 0 <= k < |items| && items[k].JStr? && Strip(items[k].s) == x
  {
    if items != [] {
      CleanItemsMember(items[1..], x);
      if exists k :: 0 <= k < |items[1..]| && items[1..][k].JStr? && Strip(items[1..][k].s) == x {
        var k :| 0 <= k < |items[1..]| && items[1..][k].JStr? && Strip(items[1..][k].s) == x;
        assert items[k + 1] == items[1..][k];
      }
      if exists k :: 0 <= k < |items| && items[k].JStr? && Strip(items[k].s) == x {
        var k :| 0 <= k < |items| && items[k].JStr? && Strip(items[k].s) == x;
        if k > 0 {
          assert items[1..][k - 1] == items[k];
        }
      }
    }
  }

  /** The JSON list holding these strings */
  function AsJson(ss: seq<string>): (r: seq<Json>)
    ensures |r| == |ss| && forall k :: 0 <= k < |ss| ==> r[k] == JStr(ss[k])
  {
    if ss == [] then [] else [JStr(ss[0])] + AsJson(ss[1..])
  }

  /** A list of clean strings comes through cleaning unchanged ... */
  lemma {:induction false} CleanItemsOfClean(ss: seq<string>)
    requires AllClean(ss)
    ensures CleanItems(AsJson(ss)) == ss
  {
    if ss != [] {
      StripOfStripped(ss[0]);
      assert AsJson(ss)[1..] == AsJson(ss[1..]);
      CleanItemsOfClean(ss[1..]);
    }
  }

  /** ... so normalize_list is idempotent. */
  lemma CleanItemsIdempotent(items: seq<Json>)
    ensures CleanItems(AsJson(CleanItems(items))) == CleanItems(items)
  {
    CleanItemsOfClean(CleanItems(items));
  }

  /** A bare string becomes a list of itself, stripped, unless it is blank. */
  lemma BareStringList(payload: map<string, Json>, key: string, s: string)
    requires key in payload && payload[key] == JStr(s)
    ensures HasNonSpace(s) ==> CleanedList(payload, key) == [Strip(s)]
    ensures !HasNonSpace(s) ==> CleanedList(payload, key) == []
  {
    StripFacts(s);
    assert [JStr(s)][1..] == [];
  }

  /** Missing keys and values that are neither lists nor strings give []. */
  lemma NonListIsEmpty(payload: map<string, Json>, key: string)
    requires key !in payload || !(payload[key].JStr? || payload[key].JList?)
    ensures CleanedList(payload, key) == []
  {
  }

  /** str(item) for an element of a list-valued summary; nested lists and
      objects are rendered by show (Python's repr of containers). */
  function ItemText(j: Json, show: Json -> string): string {
    match j
    case JNull => "None"
    case JBool(b) => if b then "True" else "False"
    case JInt(i) => IntToString(i)
    case JStr(s) => s
    case _ => show(j)
  }

  predicate IsContainer(j: Json) {
    j.JList? || j.JObject?
  }

  /** The pieces " ".join sees: each truthy item rendered and stripped. */
  function SummaryPieces(items: seq<Json>, show: Json -> string): (r: seq<string>)
    ensures |r| <= |items|
  {
    if items == [] then []
    else if Truthy(items[0]) then [Strip(ItemText(items[0], show))] + SummaryPieces(items[1..], show)
    else SummaryPieces(items[1..], show)
  }

  /** The summary field coerced to a stripped string: a list is joined with
      spaces, a string kept, anything else dropped. */
  function SummaryText(payload: map<string, Json>, show: Json -> string): (r: string)
    ensures Stripped(r)
  {
    if "summary" !in payload then []
    else match payload["summary"]
      case JList(items) =>
        var joined := Join(" ", SummaryPieces(items, show));
        StripFacts(joined);
        Strip(joined)
      case JStr(s) =>
        StripFacts(s);
        Strip(s)
      case _ => []
  }

  /** show is consulted only for nested lists and objects. */
  lemma {:induction false} PiecesIgnoreShow(items: seq<Json>, show1: Json -> string, show2: Json -> string)
    requires forall k :: 0 <= k < |items| ==> !IsContainer(items[k])
    ensures SummaryPieces(items, show1) == SummaryPieces(items, show2)
  {
    if items != [] {
      assert !IsContainer(items[0]);
      PiecesIgnoreShow(items[1..], show1, show2);
    }
  }

  /** Falsy items (null, false, 0, "", [], {}) are skipped. */
  lemma {:induction false} PiecesSkipFalsy(items: seq<Json>, show: Json -> string)
    requires forall k :: 0 <= k < |items| ==> !Truthy(items[k])
    ensures SummaryPieces(items, show) == []
  {
    if items != [] {
      assert !Truthy(items[0]);
      PiecesSkipFalsy(items[1..], show);
    }
  }

  function Min(a: nat, b: nat): nat {
    if a <= b then a else b
  }

  /** normalize_summary_payload: the record with the two summary fallbacks
      applied in order. */
  function Normalized(payload: map<string, Json>, show: Json -> string): (r: Summary)
    ensures r.summary != []
  {
    var keyPoints := CleanedList(payload, "key_points");
    var todos := CleanedList(payload, "todos");
    var text := SummaryText(payload, show);
    var text1 := if text == [] && keyPoints != [] then Join("; ", keyPoints[..Min(2, |keyPoints|)]) else text;
    var text2 := if text1 == [] then Placeholder else text1;
    Summary(text2, keyPoints, if todos != [] then todos else CleanedList(payload, "follow_ups"),
            CleanedList(payload, "context_notes"))
  }

  /** normalize_summary_payload: builds the dict, then overwrites its summary
      entry in place. */
  method NormalizeSummaryPayload(payload: map<string, Json>, show: Json -> string) returns (r: Summary)
    ensures r == Normalized(payload, show)
  {
    var text := SummaryText(payload, show);
    var keyPoints := NormalizeList(payload, "key_points");
    var todos := NormalizeList(payload, "todos");
    if todos == [] {
      todos := NormalizeList(payload, "follow_ups");
    }
    var notes := NormalizeList(payload, "context_notes");
    r := Summary(text, keyPoints, todos, notes);
    if r.summary == [] && r.keyPoints != [] {
      r := r.(summary := Join("; ", r.keyPoints[..Min(2, |r.keyPoints|)]));
    }
    if r.summary == [] {
      r := r.(summary := Placeholder);
    }
  }

  /** The normalised summary is never empty: the coerced summary text if any,
      else the first one or two key points joined by "; ", else the
      placeholder. */
  lemma NormalizedSummary(payload: map<string, Json>, show: Json -> string)
    ensures var r := Normalized(payload, show);
            var text := SummaryText(payload, show);
            var kp := CleanedList(payload, "key_points");
            && r.summary != []
            && (text != [] ==> r.summary == text)
            && (text == [] && |kp| == 1 ==> r.summary == kp[0])
            && (text == [] && |kp| >= 2 ==> r.summary == kp[0] + "; " + kp[1])
            && (text == [] && kp == [] ==> r.summary == Placeholder)
  {
    var kp := CleanedList(payload, "key_points");
    if |kp| >= 2 {
      assert kp[..Min(2, |kp|)] == [kp[0], kp[1]];
      assert [kp[0], kp[1]][1..] == [kp[1]];
      assert Join("; ", [kp[0], kp[1]]) == kp[0] + "; " + Join("; ", [kp[1]]);
    } else if |kp| == 1 {
      assert kp[0] != [];
    }
  }

  /** The lists are clean, and todos fall back to follow_ups only when todos
      gives nothing. */
  lemma NormalizedLists(payload: map<string, Json>, show: Json -> string)
    ensures var r := Normalized(payload, show);
            && AllClean(r.keyPoints) && AllClean(r.todos) && AllClean(r.contextNotes)
            && r.keyPoints == CleanedList(payload, "key_points")
            && r.contextNotes == CleanedList(payload, "context_notes")
            && (CleanedList(payload, "todos") != [] ==> r.todos == CleanedList(payload, "todos"))
            && (CleanedList(payload, "todos") == [] ==> r.todos == CleanedList(payload, "follow_ups"))
  {
  }

  /** A payload with no summary and key points [a, b, ...] gets "a; b". */
  lemma KeyPointsSummary(a: string, b: string, rest: seq<string>, show: Json -> string)
    requires CleanItem(a) && CleanItem(b) && AllClean(rest)
    ensures Normalized(map["key_points" := JList(AsJson([a, b] + rest))], show).summary == a + "; " + b
  {
    var items := [a, b] + rest;
    var payload := map["key_points" := JList(AsJson(items))];
    CleanItemsOfClean(items);
    assert CleanedList(payload, "key_points") == items;
    assert items[0] == a && items[1] == b;
    assert "summary" !in payload;
    assert SummaryText(payload, show) == [];
    NormalizedSummary(payload, show);
  }

  /** ["Ship by Friday", "Needs sign-off"] gives "Ship by Friday; Needs sign-off". */
  lemma ShipByFridaySummary(a: string, b: string, show: Json -> string)
    requires a == "Ship by Friday" && b == "Needs sign-off"
    ensures Normalized(map["key_points" := JList(AsJson([a, b]))], show).summary
            == "Ship by Friday; Needs sign-off"
  {
    ShipByFridayItems(a, b);
    KeyPointsSummary(a, b, [], show);
    assert [a, b] + [] == [a, b];
  }

  lemma ShipByFridayItems(a: string, b: string)
    requires a == "Ship by Friday" && b == "Needs sign-off"
    ensures CleanItem(a) && CleanItem(b) && a + "; " + b == "Ship by Friday; Needs sign-off"
  {
    assert a[0] == 'S' && a[|a| - 1] == 'y';
    assert b[0] == 'N' && b[|b| - 1] == 'f';
  }

  /** The payload summarize_email falls back to when the completion is not
      valid JSON: the raw content as summary, empty lists. */
  function FallbackPayload(content: string): map<string, Json> {
    map["summary" := JStr(content), "key_points" := JList([]), "todos" := JList([]),
        "context_notes" := JList([])]
  }

  /** summarize_email after the completion: the stripped content is parsed
      (parsed is None when it is not valid JSON) and normalised; a valid JSON
      value that is not an object makes payload.get raise AttributeError. */
  function SummaryFromContent(content: string, parsed: Option<Json>, show: Json -> string): (r: Result<Summary>)
    ensures r.Err? <==> parsed.Some? && !parsed.value.JObject?
    ensures r.Err? ==> r.failure == AttributeError
  {
    match parsed
    case None => Ok(Normalized(FallbackPayload(Strip(content)), show))
    case Some(JObject(fields)) => Ok(Normalized(fields, show))
    case Some(_) => Err(AttributeError)
  }

  /** Invalid JSON: the content itself becomes the summary, or the placeholder
      when it is blank, and every list is empty. */
  lemma InvalidJsonSummary(content: string, show: Json -> string)
    ensures var r := SummaryFromContent(content, None, show);
            && r.Ok?
            && r.value.summary == (if HasNonSpace(content) then Strip(content) else Placeholder)
            && r.value.keyPoints == [] && r.value.todos == [] && r.value.contextNotes == []
  {
    StripFacts(content);
    StripFacts(Strip(content));
    StripOfStripped(Strip(content));
    var payload := FallbackPayload(Strip(content));
    assert CleanedList(payload, "key_points") == [];
    assert CleanedList(payload, "todos") == [];
    assert CleanedList(payload, "follow_ups") == [];
    assert CleanedList(payload, "context_notes") == [];
  }

  /** A JSON array or other non-object reply is an error, not a summary. */
  lemma NonObjectFails(content: string, j: Json, show: Json -> string)
    requires !j.JObject?
    ensures SummaryFromContent(content, Some(j), show) == Err(AttributeError)
  {
  }
}
