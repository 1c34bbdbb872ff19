/** The note layout of renderer.py: the date label, the summary sections,
    the two rendered blocks (a new note and an update to an existing one)
    and the append-only merge of a block into an existing note. */
module Renderer {
  import opened Text
  import opened Mail
  import opened People
  import opened Linker
  import opened Payload

  // ---------------------------------------------------------------- dates

  /** ordinal: the day followed by its English suffix; Python's % with a
      positive divisor agrees with Dafny's on negative days too. */
  function Ordinal(day: int): (r: string)
    ensures |r| == |IntToString(day)| + 2
  {
    var suffix :=
      if 10 <= day % 100 <= 20 then "th"
      else if day % 10 == 1 then "st"
      else if day % 10 == 2 then "nd"
      else if day % 10 == 3 then "rd"
      else "th";
    IntToString(day) + suffix
  }

  /** The day's digits, then one of four two-letter suffixes. */
  lemma OrdinalShape(day: int)
    ensures var r := Ordinal(day);
            r[..|r| - 2] == IntToString(day) && r[|r| - 2..] in ["st", "nd", "rd", "th"]
  {
  }

  lemma LastDigit(day: int)
    ensures day % 10 == (day % 100) % 10
  {
    var q := day / 100;
    var h := day % 100;
    assert day == 10 * (10 * q) + h;
    assert (10 * (10 * q) + h) % 10 == h % 10;
  }

  /** The suffix follows the English rule: "st", "nd" and "rd" after a last
      digit 1, 2 or 3 except in 11, 12 and 13, "th" everywhere else. */
  lemma OrdinalSuffixRule(day: int)
    ensures Ordinal(day) == IntToString(day) +
      (if day % 10 == 1 && day % 100 != 11 then "st"
       else if day % 10 == 2 && day % 100 != 12 then "nd"
       else if day % 10 == 3 && day % 100 != 13 then "rd"
       else "th")
  {
    LastDigit(day);
  }

  /** Every day of the teens and 10 and 20 takes "th". */
  lemma OrdinalTeens(day: int)
    requires 10 <= day % 100 <= 20
    ensures Ordinal(day) == IntToString(day) + "th"
  {
  }

  lemma OrdinalExamples()
    ensures Ordinal(1) == "1st" && Ordinal(2) == "2nd" && Ordinal(3) == "3rd"
    ensures Ordinal(11) == "11th" && Ordinal(12) == "12th" && Ordinal(13) == "13th"
    ensures Ordinal(21) == "21st" && Ordinal(4) == "4th"
  {
    SingleDigitOrdinals();
    TwoDigitOrdinals();
  }

  lemma SingleDigitOrdinals()
    ensures Ordinal(1) == "1st" && Ordinal(2) == "2nd" && Ordinal(3) == "3rd" && Ordinal(4) == "4th"
  {
    OrdinalOf(1, "1", "st");
    OrdinalOf(2, "2", "nd");
    OrdinalOf(3, "3", "rd");
    OrdinalOf(4, "4", "th");
  }

  lemma TwoDigitOrdinals()
    ensures Ordinal(11) == "11th" && Ordinal(12) == "12th" && Ordinal(13) == "13th" && Ordinal(21) == "21st"
  {
    TwoDigits(1, 1);
    TwoDigits(1, 2);
    TwoDigits(1, 3);
    TwoDigits(2, 1);
    OrdinalOf(11, "11", "th");
    OrdinalOf(12, "12", "th");
    OrdinalOf(13, "13", "th");
    OrdinalOf(21, "21", "st");
  }

  /** The ordinal of a day from its digits and its suffix. */
  lemma OrdinalOf(day: nat, digits: string, suffix: string)
    requires NatToString(day) == digits
    requires suffix == if 10 <= day % 100 <= 20 then "th"
                       else if day % 10 == 1 then "st"
                       else if day % 10 == 2 then "nd"
                       else if day % 10 == 3 then "rd"
                       else "th"
    ensures Ordinal(day) == digits + suffix
  {
  }

  /** The digits of a two-digit number. */
  lemma TwoDigits(t: nat, u: nat)
    requires 1 <= t < 10 && u < 10
    ensures NatToString(10 * t + u) == [DigitChar(t), DigitChar(u)]
  {
    assert (10 * t + u) / 10 == t && (10 * t + u) % 10 == u;
  }

  /** wikilink_today with the clock read replaced by its three parts. */
  function DateLink(month: string, day: int, year: int): (r: string)
    ensures |r| >= |month| + 4 && r[..2] == "[[" && r[|r| - 2..] == "]]"
    ensures r[2..2 + |month|] == month && r[2 + |month|] == ' '
  {
    "[[" + month + " " + Ordinal(day) + ", " + IntToString(year) + "]]"
  }

  /** wikilink_today on 21 March 2024. */
  lemma DateLinkExample()
    ensures DateLink("Mar", 21, 2024) == "[[Mar 21st, 2024]]"
  {
    TwoDigitOrdinals();
    assert NatToString(2024) == "2024" by {
      assert NatToString(2) == "2";
      assert NatToString(20) == "20";
      assert NatToString(202) == "202";
    }
  }

  // ------------------------------------------------------------- sections

  const SummaryLead := "\t- **Summary:** "
  const KeyPointsHeading := "\t- **Key Points:**"
  const ContextHeading := "\t- **Context:**"
  const TasksHeading := "\t- **Tasks:**"
  const ItemLead := "\t\t- "
  const TaskLead := "\t\t- TODO "

  /** The text of one task line: stripped, one leading "todo " removed
      whatever its case, stripped again. */
  function TaskText(todo: string): (r: string)
    ensures Stripped(r)
  {
    var t := Strip(todo);
    StripFacts(todo);
    if StartsWith(Lower(t), "todo ") then
      StripFacts(t[5..]);
      Strip(t[5..])
    else t
  }

  /** The task text is a piece of the task as written. */
  lemma TaskTextInfix(todo: string)
    ensures IsInfix(TaskText(todo), todo)
  {
    var t := Strip(todo);
    StripFacts(todo);
    if StartsWith(Lower(t), "todo ") {
      StripFacts(t[5..]);
      SuffixInfix(t, 5);
      InfixTrans(Strip(t[5..]), t[5..], t);
      InfixTrans(Strip(t[5..]), t, todo);
    }
  }

  /** "TODO Send deck" is the task "Send deck". */
  lemma TaskPrefixRemoved(todo: string)
    requires todo == "TODO Send deck"
    ensures TaskText(todo) == "Send deck"
  {
    StripOfStripped(todo);
    assert Lower(todo)[..5] == "todo ";
    assert todo[5..] == "Send deck";
    StripOfStripped(todo[5..]);
  }

  /** Only one prefix goes: "todo todo x" is the task "todo x". */
  lemma TaskPrefixOnce(todo: string)
    requires todo == "todo todo x"
    ensures TaskText(todo) == "todo x"
  {
    StripOfStripped(todo);
    assert Lower(todo)[..5] == "todo ";
    assert todo[5..] == "todo x";
    StripOfStripped(todo[5..]);
  }

  /** A task that does not start with "todo " keeps its stripped text; a
      bare "todo" is such a task. */
  lemma TaskWithoutPrefix(todo: string)
    requires !StartsWith(Lower(Strip(todo)), "todo ")
    ensures TaskText(todo) == Strip(todo)
  {
  }

  function ItemLines(items: seq<string>, terms: seq<string>): (r: seq<string>)
    ensures |r| == |items|
    ensures forall k :: 0 <= k < |items| ==> r[k] == ItemLead + LinkedText(items[k], terms)
  {
    seq(|items|, k requires 0 <= k < |items| => ItemLead + LinkedText(items[k], terms))
  }

  function TaskLines(todos: seq<string>, terms: seq<string>): (r: seq<string>)
    ensures |r| == |todos|
    ensures forall k :: 0 <= k < |todos| ==> r[k] == TaskLead + LinkedText(TaskText(todos[k]), terms)
  {
    seq(|todos|, k requires 0 <= k < |todos| => TaskLead + LinkedText(TaskText(todos[k]), terms))
  }

  /** A heading followed by its lines, or nothing when there are none. */
  function Block(heading: string, lines: seq<string>): seq<string> {
    if lines == [] then [] else [heading] + lines
  }

  /** The summary line, when the summary is not blank */
  function SummaryBlock(summary: string, terms: seq<string>): seq<string> {
    var text := Strip(summary);
    if text != [] then [SummaryLead + LinkedText(text, terms)] else []
  }

  /** What format_summary_sections returns. */
  function SectionLines(s: Summary, terms: seq<string>): seq<string> {
    SummaryBlock(s.summary, terms)
    + Block(KeyPointsHeading, ItemLines(s.keyPoints, terms))
    + Block(ContextHeading, ItemLines(s.contextNotes, terms))
    + Block(TasksHeading, TaskLines(s.todos, terms))
  }

  /** format_summary_sections: appends the summary line, then each non-empty
      section's heading and its lines. */
  method FormatSummarySections(s: Summary, terms: seq<string>) returns (lines: seq<string>)
    ensures lines == SectionLines(s, terms)
  {
    lines := [];
    var text := Strip(s.summary);
    if text != [] {
      var linked := LinkProjects(text, terms);
      lines := lines + [SummaryLead + linked];
    }
    lines := AppendListSection(lines, KeyPointsHeading, s.keyPoints, terms);
    lines := AppendListSection(lines, ContextHeading, s.contextNotes, terms);
    lines := AppendTaskSection(lines, s.todos, terms);
  }

  /** One list section: nothing when the list is empty, else the heading and
      one linked item line per entry. */
  method AppendListSection(start: seq<string>, heading: string, items: seq<string>, terms: seq<string>)
    returns (lines: seq<string>)
    ensures lines == start + Block(heading, ItemLines(items, terms))
  {
    lines := start;
    if items != [] {
      lines := AppendItems(lines + [heading], items, terms);
    }
  }

  /** The loop over the items: each one linked, after the item lead. */
  method AppendItems(start: seq<string>, items: seq<string>, terms: seq<string>) returns (lines: seq<string>)
    ensures lines == start + ItemLines(items, terms)
  {
    lines := start;
    for k := 0 to |items|
      invariant lines == start + ItemLines(items[..k], terms)
    {
      var linked := LinkProjects(items[k], terms);
      ItemLinesSnoc(start, lines, items, k, terms);
      lines := lines + [ItemLead + linked];
    }
    assert items[..|items|] == items;
  }

  lemma ItemLinesSnoc(start: seq<string>, lines: seq<string>, items: seq<string>, k: nat, terms: seq<string>)
    requires k < |items| && lines == start + ItemLines(items[..k], terms)
    ensures lines + [ItemLead + LinkedText(items[k], terms)] == start + ItemLines(items[..k + 1], terms)
  {
    var next := ItemLines(items[..k + 1], terms);
    assert next == ItemLines(items[..k], terms) + [ItemLead + LinkedText(items[k], terms)];
  }

  /** The Tasks section: its heading, then the task lines. */
  method AppendTaskSection(start: seq<string>, todos: seq<string>, terms: seq<string>)
    returns (lines: seq<string>)
    ensures lines == start + Block(TasksHeading, TaskLines(todos, terms))
  {
    lines := start;
    if todos != [] {
      lines := AppendTasks(lines + [TasksHeading], todos, terms);
    }
  }

  /** The loop over todos: the task text of each, linked, after "TODO ". */
  method AppendTasks(start: seq<string>, todos: seq<string>, terms: seq<string>) returns (lines: seq<string>)
    ensures lines == start + TaskLines(todos, terms)
  {
    lines := start;
    for k := 0 to |todos|
      invariant lines == start + TaskLines(todos[..k], terms)
    {
      var todo := Strip(todos[k]);
      if StartsWith(Lower(todo), "todo ") {
        todo := Strip(todo[5..]);
      }
      assert todo == TaskText(todos[k]);
      var linked := LinkProjects(todo, terms);
      TaskLinesSnoc(start, lines, todos, k, terms);
      lines := lines + [TaskLead + linked];
    }
    assert todos[..|todos|] == todos;
  }

  lemma TaskLinesSnoc(start: seq<string>, lines: seq<string>, todos: seq<string>, k: nat, terms: seq<string>)
    requires k < |todos| && lines == start + TaskLines(todos[..k], terms)
    ensures lines + [TaskLead + LinkedText(TaskText(todos[k]), terms)] == start + TaskLines(todos[..k + 1], terms)
  {
    var next := TaskLines(todos[..k + 1], terms);
    assert next == TaskLines(todos[..k], terms) + [TaskLead + LinkedText(TaskText(todos[k]), terms)];
  }

  /** Which section marker a line is: 0 the summary line, 1 to 3 the Key
      Points, Context and Tasks headings, -1 anything else. */
  function LineRank(line: string): int {
    if StartsWith(line, SummaryLead) then 0
    else if line == KeyPointsHeading then 1
    else if line == ContextHeading then 2
    else if line == TasksHeading then 3
    else -1
  }

  /** The section markers of a list of lines, in order */
  function Ranks(lines: seq<string>): seq<int> {
    if lines == [] then []
    else if LineRank(lines[0]) >= 0 then [LineRank(lines[0])] + Ranks(lines[1..])
    else Ranks(lines[1..])
  }

  lemma {:induction false} RanksAppend(a: seq<string>, b: seq<string>)
    ensures Ranks(a + b) == Ranks(a) + Ranks(b)
  {
    if a != [] {
      assert (a + b)[0] == a[0];
      assert (a + b)[1..] == a[1..] + b;
      RanksAppend(a[1..], b);
    } else {
      assert a + b == b;
    }
  }

  /** An item line, indented twice, is never a marker. */
  lemma ItemLineRank(line: string)
    requires |line| >= 2 && line[1] == '\t'
    ensures LineRank(line) == -1
  {
    assert SummaryLead[1] == '-';
  }

  lemma {:induction false} ItemRanks(lines: seq<string>)
    requires forall k :: 0 <= k < |lines| ==> |lines[k]| >= 2 && lines[k][1] == '\t'
    ensures Ranks(lines) == []
  {
    if lines != [] {
      ItemLineRank(lines[0]);
      ItemRanks(lines[1..]);
    }
  }

  lemma BlockRanks(heading: string, lines: seq<string>, rank: int)
    requires rank >= 0 && LineRank(heading) == rank
    requires forall k :: 0 <= k < |lines| ==> |lines[k]| >= 2 && lines[k][1] == '\t'
    ensures Ranks(Block(heading, lines)) == if lines == [] then [] else [rank]
  {
    if lines != [] {
      ItemRanks(lines);
      assert ([heading] + lines)[1..] == lines;
    }
  }

  lemma SummaryLineRank(x: string)
    ensures LineRank(SummaryLead + x) == 0
  {
    assert (SummaryLead + x)[..|SummaryLead|] == SummaryLead;
  }

  lemma HeadingRanks()
    ensures LineRank(KeyPointsHeading) == 1
    ensures LineRank(ContextHeading) == 2
    ensures LineRank(TasksHeading) == 3
  {
    assert KeyPointsHeading[..|SummaryLead|][5] != SummaryLead[5];
    assert !StartsWith(ContextHeading, SummaryLead);
    assert !StartsWith(TasksHeading, SummaryLead);
  }

  lemma SummaryBlockRanks(summary: string, terms: seq<string>)
    ensures Ranks(SummaryBlock(summary, terms)) == if HasNonSpace(summary) then [0] else []
  {
    StripFacts(summary);
    if Strip(summary) != [] {
      var line := SummaryLead + LinkedText(Strip(summary), terms);
      SummaryLineRank(LinkedText(Strip(summary), terms));
      assert [line][1..] == [];
    }
  }

  lemma ItemBlockRanks(heading: string, items: seq<string>, terms: seq<string>, rank: int)
    requires rank >= 0 && LineRank(heading) == rank
    ensures Ranks(Block(heading, ItemLines(items, terms))) == if items == [] then [] else [rank]
  {
    var lines := ItemLines(items, terms);
    forall k | 0 <= k < |lines| ensures |lines[k]| >= 2 && lines[k][1] == '\t' {
      assert lines[k][..|ItemLead|] == ItemLead;
    }
    BlockRanks(heading, lines, rank);
  }

  lemma TaskBlockRanks(todos: seq<string>, terms: seq<string>)
    ensures Ranks(Block(TasksHeading, TaskLines(todos, terms))) == if todos == [] then [] else [3]
  {
    var lines := TaskLines(todos, terms);
    forall k | 0 <= k < |lines| ensures |lines[k]| >= 2 && lines[k][1] == '\t' {
      assert lines[k][..|TaskLead|] == TaskLead;
    }
    HeadingRanks();
    BlockRanks(TasksHeading, lines, 3);
  }

  lemma RanksOfFour(b0: seq<string>, b1: seq<string>, b2: seq<string>, b3: seq<string>)
    ensures Ranks(b0 + b1 + b2 + b3) == Ranks(b0) + Ranks(b1) + Ranks(b2) + Ranks(b3)
  {
    RanksAppend(b0 + b1 + b2, b3);
    RanksAppend(b0 + b1, b2);
    RanksAppend(b0, b1);
  }

  /** The sections always come in the order Summary, Key Points, Context,
      Tasks, each present exactly when its source is non-empty. */
  lemma SectionOrder(s: Summary, terms: seq<string>)
    ensures Ranks(SectionLines(s, terms)) ==
      (if HasNonSpace(s.summary) then [0] else [])
      + (if s.keyPoints != [] then [1] else [])
      + (if s.contextNotes != [] then [2] else [])
      + (if s.todos != [] then [3] else [])
  {
    SummaryBlockRanks(s.summary, terms);
    HeadingRanks();
    ItemBlockRanks(KeyPointsHeading, s.keyPoints, terms, 1);
    ItemBlockRanks(ContextHeading, s.contextNotes, terms, 2);
    TaskBlockRanks(s.todos, terms);
    RanksOfFour(SummaryBlock(s.summary, terms),
                Block(KeyPointsHeading, ItemLines(s.keyPoints, terms)),
                Block(ContextHeading, ItemLines(s.contextNotes, terms)),
                Block(TasksHeading, TaskLines(s.todos, terms)));
  }

  /** One line per summary, heading and item. */
  lemma SectionCount(s: Summary, terms: seq<string>)
    ensures |SectionLines(s, terms)| ==
      (if HasNonSpace(s.summary) then 1 else 0)
      + (if s.keyPoints != [] then 1 + |s.keyPoints| else 0)
      + (if s.contextNotes != [] then 1 + |s.contextNotes| else 0)
      + (if s.todos != [] then 1 + |s.todos| else 0)
  {
    StripFacts(s.summary);
  }

  // --------------------------------------------------------------- blocks

  const ToLead := "\t- To: "
  const ReceivedLead := "\t- Received: "
  const UpdatedLead := "\t- Updated: "

  /** The optional To and Received lines */
  function ContactLines(recipients: string, received: Option<string>): seq<string> {
    (if recipients != [] then [ToLead + recipients] else [])
    + (if received.Some? then [ReceivedLead + received.value] else [])
  }

  /** "\n".join(lines).strip() + "\n" */
  function Finish(lines: seq<string>): string {
    Strip(Join("\n", lines)) + "\n"
  }

  /** The lines of render_initial_markdown, or the failure of a person link
      (the recipients are formatted before the sender). */
  function InitialLines(m: Message, s: Summary, dateLink: string, subject: string,
                        terms: seq<string>, domains: seq<string>): Result<seq<string>>
  {
    var labels := RecipientLabels(m.toRecipients, domains);
    var sender := FormatPersonLink(m.senderName, m.senderAddress, domains);
    if labels.Err? then Err(labels.failure)
    else if sender.Err? then Err(sender.failure)
    else Ok(InitialBody(sender.value, Join(", ", labels.value), ReceivedStamp(m), s, dateLink, subject, terms))
  }

  /** The lines of a new note once the sender's link and the recipient text
      are known */
  function InitialBody(sender: string, recipients: string, received: Option<string>, s: Summary,
                       dateLink: string, subject: string, terms: seq<string>): seq<string>
  {
    ["tags:: email", "", "- " + dateLink, "\t- Subject: " + subject, "\t- From: " + sender]
    + ContactLines(recipients, received)
    + SectionLines(s, terms)
  }

  function InitialMarkdown(m: Message, s: Summary, dateLink: string, subject: string,
                           terms: seq<string>, domains: seq<string>): Result<string>
  {
    var lines := InitialLines(m, s, dateLink, subject, terms, domains);
    if lines.Err? then Err(lines.failure) else Ok(Finish(lines.value))
  }

  /** The lines of render_update_section */
  function UpdateLines(m: Message, s: Summary, dateLink: string, subject: string, updatedAt: string,
                       terms: seq<string>, domains: seq<string>): Result<seq<string>>
  {
    var labels := RecipientLabels(m.toRecipients, domains);
    var sender := FormatPersonLink(m.senderName, m.senderAddress, domains);
    if labels.Err? then Err(labels.failure)
    else if sender.Err? then Err(sender.failure)
    else Ok(UpdateBody(sender.value, Join(", ", labels.value), ReceivedStamp(m), s, dateLink, subject, updatedAt, terms))
  }

  /** The lines of an update block once the sender's link and the recipient
      text are known */
  function UpdateBody(sender: string, recipients: string, received: Option<string>, s: Summary,
                      dateLink: string, subject: string, updatedAt: string, terms: seq<string>): seq<string>
  {
    ["- " + dateLink, "\t- Update for: " + subject, "\t- From: " + sender]
    + ContactLines(recipients, received)
    + (if updatedAt != [] then [UpdatedLead + updatedAt] else [])
    + SectionLines(s, terms)
  }

  function UpdateMarkdown(m: Message, s: Summary, dateLink: string, subject: string, updatedAt: string,
                          terms: seq<string>, domains: seq<string>): Result<string>
  {
    var lines := UpdateLines(m, s, dateLink, subject, updatedAt, terms, domains);
    if lines.Err? then Err(lines.failure) else Ok(Finish(lines.value))
  }

  /** render_initial_markdown: builds the lines by appending, then joins. */
  method RenderInitialMarkdown(m: Message, s: Summary, dateLink: string, subject: string,
                               terms: seq<string>, domains: seq<string>) returns (r: Result<string>)
    ensures r == InitialMarkdown(m, s, dateLink, subject, terms, domains)
  {
    var received := ReceivedStamp(m);
    var recipients := FormatRecipients(m.toRecipients, domains);
    if recipients.Err? {
      return Err(recipients.failure);
    }
    var sender := FormatPersonLink(m.senderName, m.senderAddress, domains);
    if sender.Err? {
      return Err(sender.failure);
    }
    var lines := ["tags:: email", "", "- " + dateLink, "\t- Subject: " + subject, "\t- From: " + sender.value];
    lines := lines + ContactLines(recipients.value, received);
    var sections := FormatSummarySections(s, terms);
    lines := lines + sections;
    return Ok(Strip(Join("\n", lines)) + "\n");
  }

  /** render_update_section: the same with the Update for and Updated lines. */
  method RenderUpdateSection(m: Message, s: Summary, dateLink: string, subject: string, updatedAt: string,
                             terms: seq<string>, domains: seq<string>) returns (r: Result<string>)
    ensures r == UpdateMarkdown(m, s, dateLink, subject, updatedAt, terms, domains)
  {
    var received := ReceivedStamp(m);
    var recipients := FormatRecipients(m.toRecipients, domains);
    if recipients.Err? {
      return Err(recipients.failure);
    }
    var sender := FormatPersonLink(m.senderName, m.senderAddress, domains);
    if sender.Err? {
      return Err(sender.failure);
    }
    var lines := ["- " + dateLink, "\t- Update for: " + subject, "\t- From: " + sender.value];
    lines := lines + ContactLines(recipients.value, received);
    if updatedAt != [] {
      lines := lines + [UpdatedLead + updatedAt];
    } else {
      assert lines + [] == lines;
    }
    var sections := FormatSummarySections(s, terms);
    lines := lines + sections;
    return Ok(Strip(Join("\n", lines)) + "\n");
  }

  /** The text ends in exactly one newline, after a visible character. */
  predicate EndsInOneNewline(r: string) {
    |r| >= 2 && r[|r| - 1] == '\n' && !IsSpace(r[|r| - 2])
  }

  /** Joining lines whose text starts with head, a visible first character,
      followed by something visible keeps head in front and ends in one
      newline. */
  lemma FinishShape(lines: seq<string>, head: string, rest: string)
    requires Join("\n", lines) == head + rest
    requires head != [] && !IsSpace(head[0]) && HasNonSpace(rest)
    ensures StartsWith(Finish(lines), head)
    ensures EndsInOneNewline(Finish(lines))
  {
    RStripAppend(head, rest);
    var t := RStrip(head + rest);
    assert t == head + RStrip(rest);
    LStripNonSpaceStart(t);
    StripFacts(head + rest);
    assert Strip(head + rest) == t;
    assert (t + "\n")[..|head|] == head;
    assert (t + "\n")[|t| - 1] == t[|t| - 1];
  }

  lemma JoinFront(front: seq<string>, back: seq<string>)
    requires front != []
    ensures Join("\n", front + back) == Join("\n", front) + JoinedTail(back)
  {
    if back == [] {
      assert front + back == front;
    } else {
      JoinConcat("\n", front, back);
    }
  }

  /** Text appended to the last part is appended to the joined text. */
  lemma {:induction false} JoinExtendLast(sep: string, parts: seq<string>, y: string)
    requires parts != []
    ensures Join(sep, parts[..|parts| - 1] + [parts[|parts| - 1] + y]) == Join(sep, parts) + y
    decreases |parts|
  {
    var ext := parts[..|parts| - 1] + [parts[|parts| - 1] + y];
    if |parts| > 1 {
      assert ext[0] == parts[0];
      assert ext[1..] == parts[1..][..|parts[1..]| - 1] + [parts[1..][|parts[1..]| - 1] + y];
      JoinExtendLast(sep, parts[1..], y);
    }
  }

  lemma JoinStart(sep: string, parts: seq<string>)
    requires parts != [] && parts[0] != []
    ensures Join(sep, parts) != [] && Join(sep, parts)[0] == parts[0][0]
  {
    if |parts| > 1 {
      JoinConcat(sep, [parts[0]], parts[1..]);
      assert [parts[0]] + parts[1..] == parts;
    }
  }

  /** The first five lines of a new note, up to the sender's link */
  function InitialHeader(dateLink: string, subject: string): seq<string> {
    ["tags:: email", "", "- " + dateLink, "\t- Subject: " + subject, "\t- From: "]
  }

  /** The first three lines of an update block, up to the sender's link */
  function UpdateHeader(dateLink: string, subject: string): seq<string> {
    ["- " + dateLink, "\t- Update for: " + subject, "\t- From: "]
  }

  /** The newline and the joined lines after a header, if any */
  function JoinedTail(back: seq<string>): string {
    if back == [] then [] else "\n" + Join("\n", back)
  }

  lemma HeaderJoinText(lines: seq<string>, header: seq<string>, sender: string)
    requires header != [] && |lines| >= |header|
    requires lines[..|header|] == header[..|header| - 1] + [header[|header| - 1] + sender]
    ensures Join("\n", lines) == (Join("\n", header) + sender) + JoinedTail(lines[|header|..])
  {
    var back := lines[|header|..];
    SplitLines(lines, |header|);
    FrontJoin(lines[..|header|], header, sender);
    JoinFront(lines[..|header|], back);
  }

  lemma ConcatAssoc(a: string, b: string, c: string)
    ensures (a + b) + c == a + (b + c)
  {
  }

  lemma SplitLines(lines: seq<string>, k: nat)
    requires k <= |lines|
    ensures lines == lines[..k] + lines[k..]
  {
  }

  lemma FrontJoin(front: seq<string>, header: seq<string>, sender: string)
    requires header != []
    requires front == header[..|header| - 1] + [header[|header| - 1] + sender]
    ensures Join("\n", front) == Join("\n", header) + sender
  {
    JoinExtendLast("\n", header, sender);
  }

  /** Lines that open with a header whose last line is completed by the
      sender's link, joined. */
  lemma HeaderJoin(lines: seq<string>, header: seq<string>, sender: string)
    requires header != [] && header[0] != [] && !IsSpace(header[0][0])
    requires sender != [] && !IsSpace(sender[0])
    requires |lines| >= |header|
    requires lines[..|header|] == header[..|header| - 1] + [header[|header| - 1] + sender]
    ensures StartsWith(Finish(lines), Join("\n", header))
    ensures EndsInOneNewline(Finish(lines))
  {
    HeaderJoinText(lines, header, sender);
    var rest := sender + JoinedTail(lines[|header|..]);
    ConcatAssoc(Join("\n", header), sender, JoinedTail(lines[|header|..]));
    JoinStart("\n", header);
    assert rest[0] == sender[0];
    FinishShape(lines, Join("\n", header), rest);
  }

  /** A new note starts with the tags line, a blank line, the date entry and
      its Subject and From lines, and ends in exactly one newline. */
  lemma InitialShape(m: Message, s: Summary, dateLink: string, subject: string,
                     terms: seq<string>, domains: seq<string>)
    requires InitialMarkdown(m, s, dateLink, subject, terms, domains).Ok?
    ensures var r := InitialMarkdown(m, s, dateLink, subject, terms, domains).value;
            StartsWith(r, Join("\n", InitialHeader(dateLink, subject))) && EndsInOneNewline(r)
  {
    var sender := FormatPersonLink(m.senderName, m.senderAddress, domains).value;
    var recipients := Join(", ", RecipientLabels(m.toRecipients, domains).value);
    PersonLinkNonEmpty(m.senderName, m.senderAddress, domains);
    InitialBodyOpen(sender, recipients, ReceivedStamp(m), s, dateLink, subject, terms);
    HeaderJoin(InitialBody(sender, recipients, ReceivedStamp(m), s, dateLink, subject, terms),
               InitialHeader(dateLink, subject), sender);
  }

  lemma InitialBodyOpen(sender: string, recipients: string, received: Option<string>, s: Summary,
                        dateLink: string, subject: string, terms: seq<string>)
    ensures var lines := InitialBody(sender, recipients, received, s, dateLink, subject, terms);
            var header := InitialHeader(dateLink, subject);
            |lines| >= 5 && lines[..5] == header[..4] + [header[4] + sender]
  {
    var first := ["tags:: email", "", "- " + dateLink, "\t- Subject: " + subject, "\t- From: " + sender];
    var header := InitialHeader(dateLink, subject);
    assert first == header[..4] + [header[4] + sender];
    OpensWith(first, ContactLines(recipients, received), SectionLines(s, terms));
  }

  /** An update block starts with the date entry and its Update for and From
      lines, and ends in exactly one newline. */
  lemma UpdateShape(m: Message, s: Summary, dateLink: string, subject: string, updatedAt: string,
                    terms: seq<string>, domains: seq<string>)
    requires UpdateMarkdown(m, s, dateLink, subject, updatedAt, terms, domains).Ok?
    ensures var r := UpdateMarkdown(m, s, dateLink, subject, updatedAt, terms, domains).value;
            StartsWith(r, Join("\n", UpdateHeader(dateLink, subject))) && EndsInOneNewline(r)
  {
    var sender := FormatPersonLink(m.senderName, m.senderAddress, domains).value;
    var recipients := Join(", ", RecipientLabels(m.toRecipients, domains).value);
    PersonLinkNonEmpty(m.senderName, m.senderAddress, domains);
    UpdateBodyOpen(sender, recipients, ReceivedStamp(m), s, dateLink, subject, updatedAt, terms);
    HeaderJoin(UpdateBody(sender, recipients, ReceivedStamp(m), s, dateLink, subject, updatedAt, terms),
               UpdateHeader(dateLink, subject), sender);
  }

  lemma UpdateBodyOpen(sender: string, recipients: string, received: Option<string>, s: Summary,
                       dateLink: string, subject: string, updatedAt: string, terms: seq<string>)
    ensures var lines := UpdateBody(sender, recipients, received, s, dateLink, subject, updatedAt, terms);
            var header := UpdateHeader(dateLink, subject);
            |lines| >= 3 && lines[..3] == header[..2] + [header[2] + sender]
  {
    var first := ["- " + dateLink, "\t- Update for: " + subject, "\t- From: " + sender];
    var header := UpdateHeader(dateLink, subject);
    assert first == header[..2] + [header[2] + sender];
    OpensWith(first, ContactLines(recipients, received) + (if updatedAt != [] then [UpdatedLead + updatedAt] else []),
              SectionLines(s, terms));
  }

  /** The lines of a block begin with its opening lines. */
  lemma OpensWith(first: seq<string>, extra: seq<string>, rest: seq<string>)
    ensures |(first + extra) + rest| >= |first| && ((first + extra) + rest)[..|first|] == first
  {
    assert ((first + extra) + rest)[..|first|] == (first + extra)[..|first|];
  }

  /** The joined header of a new note reads "tags:: email\n\n- " followed by
      the date link. */
  lemma InitialHeaderText(dateLink: string, subject: string)
    ensures StartsWith(Join("\n", InitialHeader(dateLink, subject)), "tags:: email\n\n- " + dateLink)
  {
    var h := InitialHeader(dateLink, subject);
    assert h == ["tags:: email", "", "- " + dateLink] + h[3..];
    JoinConcat("\n", ["tags:: email", "", "- " + dateLink], h[3..]);
    assert ["tags:: email", "", "- " + dateLink][1..] == ["", "- " + dateLink];
    assert ["", "- " + dateLink][1..] == ["- " + dateLink];
    var j := Join("\n", ["tags:: email", "", "- " + dateLink]);
    assert Join("\n", ["- " + dateLink]) == "- " + dateLink;
    assert Join("\n", ["", "- " + dateLink]) == "" + "\n" + ("- " + dateLink);
    assert j == "tags:: email" + "\n" + ("" + "\n" + ("- " + dateLink));
    assert j == "tags:: email\n\n- " + dateLink;
  }

  /** The joined header of an update reads "- " + date link + "\n\t- Update
      for: " + subject. */
  lemma UpdateHeaderText(dateLink: string, subject: string)
    ensures StartsWith(Join("\n", UpdateHeader(dateLink, subject)),
                       "- " + dateLink + "\n\t- Update for: " + subject)
  {
    var h := UpdateHeader(dateLink, subject);
    assert h == ["- " + dateLink, "\t- Update for: " + subject] + h[2..];
    JoinConcat("\n", ["- " + dateLink, "\t- Update for: " + subject], h[2..]);
    assert ["- " + dateLink, "\t- Update for: " + subject][1..] == ["\t- Update for: " + subject];
  }

  /** The To line is there exactly when the message has recipients, and the
      Received line carries receivedDateTime, else sentDateTime, and is left
      out when neither is set. */
  lemma ContactLinesRule(m: Message, domains: seq<string>)
    requires RecipientLabels(m.toRecipients, domains).Ok?
    ensures var c := ContactLines(Join(", ", RecipientLabels(m.toRecipients, domains).value), ReceivedStamp(m));
            && ((c != [] && StartsWith(c[0], ToLead)) <==> m.toRecipients != [])
            && (ReceivedStamp(m).Some? <==> c != [] && StartsWith(c[|c| - 1], ReceivedLead))
            && (ReceivedStamp(m).Some? ==> c[|c| - 1] == ReceivedLead + ReceivedStamp(m).value)
  {
    RecipientsEmptyIff(m.toRecipients, domains);
    ContactLinesShape(Join(", ", RecipientLabels(m.toRecipients, domains).value), ReceivedStamp(m));
  }

  lemma ContactLinesShape(recipients: string, received: Option<string>)
    ensures var c := ContactLines(recipients, received);
            && ((c != [] && StartsWith(c[0], ToLead)) <==> recipients != [])
            && (received.Some? <==> c != [] && StartsWith(c[|c| - 1], ReceivedLead))
            && (received.Some? ==> c[|c| - 1] == ReceivedLead + received.value)
  {
    if recipients != [] {
      assert (ToLead + recipients)[..|ToLead|] == ToLead;
      assert !StartsWith(ToLead + recipients, ReceivedLead) by {
        assert (ToLead + recipients)[3] == 'T' && ReceivedLead[3] == 'R';
      }
    }
    if received.Some? {
      var line := ReceivedLead + received.value;
      assert line[..|ReceivedLead|] == ReceivedLead;
      assert !StartsWith(line, ToLead) by {
        assert line[3] == 'R' && ToLead[3] == 'T';
      }
    }
  }

  /** The only failure of either block is the IndexError of a person link. */
  lemma RenderFailure(m: Message, s: Summary, dateLink: string, subject: string, updatedAt: string,
                      terms: seq<string>, domains: seq<string>)
    ensures var r := InitialMarkdown(m, s, dateLink, subject, terms, domains);
            (r.Err? <==> RecipientLabels(m.toRecipients, domains).Err?
                         || FormatPersonLink(m.senderName, m.senderAddress, domains).Err?)
            && (r.Err? ==> r.failure == IndexError)
    ensures UpdateMarkdown(m, s, dateLink, subject, updatedAt, terms, domains).Err?
            == InitialMarkdown(m, s, dateLink, subject, terms, domains).Err?
  {
    RecipientsFailure(m.toRecipients, domains);
    PersonLinkNonEmpty(m.senderName, m.senderAddress, domains);
  }

  // ---------------------------------------------------------------- merge

  /** The separator between an existing note and an appended block */
  const PackageSeparator := "\n\n"

  /** append_section: the existing note without its trailing whitespace, the
      separator and the stripped block, or the block alone on a blank note. */
  function AppendSection(existing: string, section: string, separator: string): (r: string)
    ensures |r| > |RStrip(existing)| && r[|r| - 1] == '\n'
  {
    var kept := RStrip(existing);
    var block := Strip(section);
    if kept == [] then block + "\n" else kept + separator + block + "\n"
  }

  /** The merge is append-only: what the note held, up to its trailing
      whitespace, is kept in front, and the block follows it. */
  lemma AppendKeepsHistory(existing: string, section: string, separator: string)
    ensures var r := AppendSection(existing, section, separator);
            StartsWith(r, RStrip(existing))
            && EndsWith(r, Strip(section) + "\n")
            && (RStrip(existing) == [] ==> r == Strip(section) + "\n")
            && (RStrip(existing) != [] ==> r[|RStrip(existing)|..] == separator + Strip(section) + "\n")
  {
    var r := AppendSection(existing, section, separator);
    var kept := RStrip(existing);
    var block := Strip(section);
    if kept == [] {
      FrontAndBack([], block + "\n");
    } else {
      JoinedShape(kept, separator, block, r);
    }
  }

  lemma JoinedShape(kept: string, separator: string, block: string, r: string)
    requires r == kept + separator + block + "\n"
    ensures StartsWith(r, kept) && EndsWith(r, block + "\n")
    ensures r[|kept|..] == separator + block + "\n"
  {
    assert r == kept + (separator + block + "\n");
    FrontAndBack(kept, separator + block + "\n");
    assert r == (kept + separator) + (block + "\n");
    FrontAndBack(kept + separator, block + "\n");
  }

  lemma FrontAndBack(front: string, back: string)
    ensures StartsWith(front + back, front) && EndsWith(front + back, back)
    ensures (front + back)[|front|..] == back
  {
  }

  /** Read back, a merged note is the history, the separator and the block;
      so merging again keeps every earlier block. */
  lemma MergeReadBack(existing: string, section: string, separator: string)
    requires HasNonSpace(section)
    ensures var kept := RStrip(existing);
            RStrip(AppendSection(existing, section, separator))
            == (if kept == [] then Strip(section) else kept + separator + Strip(section))
  {
    var kept := RStrip(existing);
    var block := Strip(section);
    StripFacts(section);
    var front := if kept == [] then [] else kept + separator;
    assert AppendSection(existing, section, separator) == front + (block + "\n");
    BlockLine(block);
    RStripAppend(front, block + "\n");
    if kept == [] {
      assert front + block == block;
    }
  }

  /** A stripped block and its newline: the newline is the only whitespace
      rstrip removes. */
  lemma BlockLine(block: string)
    requires block != [] && Stripped(block)
    ensures HasNonSpace(block + "\n") && RStrip(block + "\n") == block
  {
    var line := block + "\n";
    assert line[|block| - 1] == block[|block| - 1];
    assert line[..|line| - 1] == block;
  }

  /** Two merges in a row: the note after the second starts with the note
      after the first, up to its final newline. */
  lemma MergeTwice(existing: string, first: string, second: string, separator: string)
    requires HasNonSpace(first)
    ensures var once := AppendSection(existing, first, separator);
            StartsWith(AppendSection(once, second, separator), RStrip(once))
            && StartsWith(RStrip(once), RStrip(existing))
  {
    var once := AppendSection(existing, first, separator);
    MergeReadBack(existing, first, separator);
    AppendKeepsHistory(once, second, separator);
    var kept := RStrip(existing);
    if kept == [] {
      FrontAndBack([], RStrip(once));
    } else {
      HeadOfJoined(kept, separator, Strip(first));
    }
  }

  lemma HeadOfJoined(kept: string, separator: string, block: string)
    ensures StartsWith(kept + separator + block, kept)
  {
    assert kept + separator + block == kept + (separator + block);
    FrontAndBack(kept, separator + block);
  }

  /** ("Old\n", "New block") gives "Old\n\nNew block\n". */
  lemma AppendExample(existing: string, section: string)
    requires existing == "Old\n" && section == "New block"
    ensures AppendSection(existing, section, PackageSeparator) == "Old\n\nNew block\n"
  {
    assert RStrip(existing) == "Old" by {
      assert existing[..|existing| - 1] == "Old";
    }
    StripOfStripped(section);
  }
}
