# Outlook summary to Logseq: rendering and merge engine

This project models, in Dafny, the deterministic core of the Outlook-to-Logseq
summariser: the code that turns one flagged e-mail and its AI summary into a
Logseq outline note, and merges that note into the one already stored.

It models both versions of the code:

- the package `scripts/outlook_summary/`: `renderer.py`, `summary.py`,
  `graph.py` and `config.py`;
- the older single-file script `scripts/outlook_ai_summary.py`.

The two versions share almost all of their helpers, so each shared helper is
modelled once. The three places where they differ are parameters or separate
members:

- the merge separator: `Renderer.PackageSeparator` is `"\n\n"` and
  `Legacy.LegacySeparator` is `"\n\n---\n\n"`;
- the terms to link: the package links configured project names
  (`Config.ProjectNames`), while the script links the summary's own topics
  (`Legacy.FormatLegacySections`);
- topic de-duplication, which only the script has (`Legacy.Dedup`).

Modules, in dependency order:

- `Text`: ASCII string helpers with Python's meaning.
  - `IsSpace` is `str.isspace()`; `IsWordChar` is `\w`.
  - `Strip`, `LStrip` and `RStrip` are the string methods of the same names.
  - `Join` is `sep.join`.
  - `SplitWhere` is `re.split` on a one-character class.
  - `Tokens` is `re.split(r"[\s,]+")` with the empty pieces dropped.
  - `Failure` names the Python exceptions the code can raise.
- `Mail`: the fields of a Graph message the renderer reads, and the
  received/sent time fallback.
- `Subject`: subject normalisation, the file name made from it, and the
  two subject regular expressions written out as scanners.
- `People`: the internal-address test, person links and the recipient line.
- `Linker`: `link_projects` (and the script's `link_topics`) as a
  left-to-right scan. The scan keeps the look-behind, the look-ahead and
  `\b` of the compiled pattern.
- `Payload`: the decoded JSON reply as a small `Json` datatype,
  `normalize_summary_payload`, and the invalid-JSON fallback.
- `Renderer`: the summary sections, the two note blocks, `ordinal` and
  `append_section`.
- `Graph`: the category list sent back by `mark_message_processed`, and the
  local filter of `fetch_categorized_messages`.
- `Config`: secrets-file line parsing with set-if-absent loading,
  `get_auth_mode`, `delegated_scopes`, `internal_domains` and
  `project_names`.
  - The process environment is a `map<string, string>` parameter (`Env`).
  - The lines of the secrets file are a parameter. `None` means the file
    does not exist.
- `Legacy`: what only the script does: topic de-duplication, the `---`
  merge, topic linking, and category labels read from the environment.

Where the loop structure matters, the source's loops are methods. Each method
is proved equal to a specification function, and the source's promises are
proved as lemmas about that function:

- the subject prefix loop, run to a fixpoint;
- the loop over sorted terms;
- the `lines.append` builders;
- `normalize_list`;
- the category comprehension;
- the local filter;
- the secrets loop;
- the domain and project loops;
- topic de-duplication.

Failures the source raises become `Result` values:

- the `IndexError` of `format_person_link`;
- the `AttributeError` of a JSON reply that is not an object;
- the `ValueError` (a NUL character) or `OSError` (an empty name) of
  `os.environ` for a pair the process environment refuses.

Properties the code does not have, each shown by a lemma on a concrete
input:

- Normalising a subject is not idempotent:
  `Subject.NormalizedSubjectNotIdempotent` gives a subject whose normal form
  normalises again to something else.
- Linking is not idempotent: `Linker.LinkNotIdempotent` links the same terms
  twice and changes the text again.
- A "[[...]]" label does not imply an internal address: internal addresses
  always give a link (`People.InternalIsLink`), but an external sender whose
  display name is bracketed also comes out bracketed
  (`People.BracketedNameIsNotInternal`).
- `Subject.SanitizeTwice` holds only without a trailing space;
  `Subject.SanitizeTruncationLeavesSpace` shows the exception.
- `People.EmptyLocalPartLink`: "@corp.com" with no name gives "[[]]".
- `People.TrailingDotFails`: "jane.@corp.com" raises `IndexError`.
- `Linker.NestedBrackets`: the terms "Foo Bar Baz" and "Bar" nest brackets.
- A secrets line whose key or value holds a NUL character makes
  `os.environ.setdefault` raise `ValueError`; a line whose key is empty (such
  as `=x`) makes it raise `OSError`, from `setenv(3)`. The loop then stops,
  and the model returns the environment loaded so far with the failure
  (`Config.LoadFailure`).

## Model

| member | source | states |
|---|---|---|
| Subject.NormalizedSubjectShape | scripts/outlook_summary/renderer.py:39-49 | the normalised subject is never empty, has no surrounding whitespace, and is "No subject" or a substring of the raw subject |
| Subject.NormalizedSubject | scripts/outlook_summary/renderer.py:39-49 | the normalised subject is never empty |
| Subject.StripSubjectPrefixes | scripts/outlook_summary/renderer.py:39-49 | the prefix loop until a pass changes nothing, then the bracket group and strip, equals the specification and has its shape |
| Subject.StripPrefixes | scripts/outlook_summary/renderer.py:43-47 | the prefix loop's result is a suffix of the subject, no longer than it; each pass removes a non-empty prefix, so the loop ends |
| Subject.PrefixLength | scripts/outlook_ai_summary.py:26 | a match of the reply/forward prefix pattern is non-empty and lies within the text |
| Subject.TokenColon | scripts/outlook_ai_summary.py:26 | a matched re/fw/fwd/aw/wg token is followed by its colon |
| Subject.BracketLengthOf | scripts/outlook_ai_summary.py:27 | the bracket pattern takes the group up to its first ']' and the whitespace after it |
| Subject.SpaceRunIs | scripts/outlook_ai_summary.py:26-27 | `\s*` takes exactly the leading whitespace run |
| Subject.BudgetReviewExample | scripts/outlook_summary/renderer.py:39-49 | "RE: [Ext] Budget review" normalises to "Budget review" |
| Subject.BracketHidesReply | scripts/outlook_summary/renderer.py:43-48 | a reply prefix behind a bracket group survives: "[Ext] Re: x" gives "Re: x" |
| Subject.ReplyPrefixRemoved | scripts/outlook_summary/renderer.py:43-48 | "Re: x" gives "x" |
| Subject.NormalizedSubjectNotIdempotent | scripts/outlook_summary/renderer.py:39-49 | normalising "[Ext] Re: x" twice differs from normalising it once |
| Subject.ReplaceReserved | scripts/outlook_summary/renderer.py:53 | each of `\ / : * ? " < > \|` becomes '-', every other character is kept, and the length is kept |
| Subject.CollapseSpaces | scripts/outlook_summary/renderer.py:54 | every whitespace run becomes one space: no other whitespace and no two in a row, never longer, and no reserved character is introduced |
| Subject.SanitizeFilename | scripts/outlook_summary/renderer.py:52-55 | the name has no reserved character, no two whitespace characters in a row, at most 180 characters, and no leading whitespace |
| Subject.SanitizeCleanName | scripts/outlook_summary/renderer.py:52-55 | a name that is already clean is left exactly as it is |
| Subject.SanitizeTwice | scripts/outlook_summary/renderer.py:52-55 | sanitising again changes nothing unless the first pass ended in a space |
| Subject.SanitizeTruncationLeavesSpace | scripts/outlook_summary/renderer.py:55 | cutting at 180 can leave a trailing space that the next pass removes |
| Subject.FileName | scripts/outlook_summary/processor.py:82-83 | the file name ends in ".md", has a non-empty stem of at most 180 characters, and has no reserved character |
| Subject.BudgetReviewFileName | scripts/outlook_summary/processor.py:82-83 | "RE: [Ext] Budget review" is stored as "Budget review.md" |
| People.IsInternalEmail | scripts/outlook_summary/renderer.py:58-65 | the loop over the allowed domains returns exactly the internal-address predicate |
| People.InternalAddress | scripts/outlook_summary/renderer.py:58-65 | with a local part free of '@', an address is internal iff its lower-cased domain equals an allowed domain or ends with "." followed by one |
| People.NotInternalWithoutAt | scripts/outlook_summary/renderer.py:59-60 | a missing or empty address, or one without '@', is never internal |
| People.SubDomainMatches | scripts/outlook_summary/renderer.py:63 | any name followed by "." and an allowed domain matches that domain |
| People.SameDomainInternal | scripts/outlook_summary/renderer.py:61-64 | a.b@corp.com is internal for corp.com |
| People.SubDomainInternal | scripts/outlook_summary/renderer.py:61-64 | a.b@mail.corp.com is internal for corp.com |
| People.DomainCaseIgnored | scripts/outlook_summary/renderer.py:61 | the domain is compared lower-cased: an address is internal iff the same address with its domain lower-cased is |
| People.LookalikeDomainExternal | scripts/outlook_summary/renderer.py:63 | a.b@notcorp.com is not internal for corp.com |
| People.DomainExample | scripts/outlook_summary/renderer.py:58-65 | with one allowed domain, internal iff the domain matches it |
| People.InternalIsLink | scripts/outlook_summary/renderer.py:72-85 | an internal address gives a "[[...]]" link whenever the call succeeds |
| People.PersonLinkFails | scripts/outlook_summary/renderer.py:79-82 | the call fails exactly for an internal address with fewer than two display tokens whose local part ends in '.' |
| People.LocalPartFails | scripts/outlook_summary/renderer.py:80-82 | labelling the local part fails exactly when it ends with a dot |
| People.PersonLinkNonEmpty | scripts/outlook_summary/renderer.py:68-93 | every label is non-empty with a visible first character, and the only failure is IndexError |
| People.FormatPersonLink | scripts/outlook_summary/renderer.py:68-93 | the call fails only with IndexError and only for an internal address |
| People.ExternalPerson | scripts/outlook_summary/renderer.py:87-93 | an external address gives the name, with the address in parentheses iff both are present and differ ignoring case and the name alone otherwise; with no name, the address; else "Unknown" |
| People.JaneDoeLink | scripts/outlook_summary/renderer.py:73-78 | "Jane Doe" <jane.doe@corp.com> gives "[[Jane D]]" |
| People.EmptyLocalPartLink | scripts/outlook_summary/renderer.py:80-85 | "@corp.com" with no name gives "[[]]" |
| People.TrailingDotFails | scripts/outlook_summary/renderer.py:82 | "jane.@corp.com" with no name raises IndexError |
| People.NoNameTrailingDot | scripts/outlook_summary/renderer.py:79-82 | with no name, an internal address whose local part is one token ending in a dot raises IndexError |
| People.BracketedNameIsNotInternal | scripts/outlook_summary/renderer.py:87-90 | a bracketed display name of an external sender also comes out as "[[...]]" |
| People.RecipientLabels | scripts/outlook_summary/renderer.py:96-103 | one label per recipient when no link fails |
| People.FormatRecipients | scripts/outlook_summary/renderer.py:96-103 | the loop gives the first failure, else the labels joined by ", " |
| People.Collect | scripts/outlook_summary/renderer.py:96-103 | the collected labels are the links' values, one per recipient and in recipient order; a failure is the failure of one of the links |
| People.CollectAllOk | scripts/outlook_summary/renderer.py:98-102 | when every recipient's link succeeds, the result is exactly those labels in order |
| People.CollectFirstFailure | scripts/outlook_summary/renderer.py:98-102 | the exception that escapes is the one of the first recipient whose link fails, whatever follows it |
| People.RecipientsFailure | scripts/outlook_summary/renderer.py:96-103 | the recipient line fails only with IndexError |
| People.RecipientsEmptyIff | scripts/outlook_summary/renderer.py:96-103 | the recipient line is empty iff there are no recipients |
| Linker.SortByLengthSpec | scripts/outlook_summary/renderer.py:111 | terms are tried longest first, and sorting neither adds nor loses a term |
| Linker.InsertByLengthPerm | scripts/outlook_summary/renderer.py:111 | inserting a term adds exactly that term and keeps every other one |
| Linker.InsertByLengthSpec | scripts/outlook_summary/renderer.py:111 | inserting one term keeps the longest-first order and adds exactly that term |
| Linker.InsertByLengthStable | scripts/outlook_summary/renderer.py:111 | an inserted term goes ahead of the terms of its own length, and the terms of every length keep their order |
| Linker.SortByLengthStable | scripts/outlook_summary/renderer.py:111 | the sort is stable: for every length, the terms of that length keep their original order |
| Linker.LinkProjects | scripts/outlook_summary/renderer.py:106-132 | the loop over the sorted terms equals the specification of the linked text |
| Linker.LinkedText | scripts/outlook_summary/renderer.py:106-132 | the linked text read without brackets is the text |
| Linker.LinkedTextOnlyBrackets | scripts/outlook_summary/renderer.py:106-132 | only "[[" and "]]" pairs are inserted, so the text read without brackets, casing included, is unchanged; empty text or no terms leave it as it is |
| Linker.SubFromUnbracketed | scripts/outlook_summary/renderer.py:127-130 | one substitution changes nothing but brackets |
| Linker.SubFromLength | scripts/outlook_summary/renderer.py:127-130 | one substitution adds four characters per wrapped match |
| Linker.SubFromUnchanged | scripts/outlook_summary/renderer.py:115-130 | the text is unchanged iff the pattern matches nowhere, where a match is a case-insensitive occurrence not preceded by "[[", not followed by "]]", and bounded by `\b` when the term has a word character |
| Linker.SubFromCopy | scripts/outlook_summary/renderer.py:127-130 | positions where the pattern does not match are copied unchanged |
| Linker.NoMatchByFirstChar | scripts/outlook_summary/renderer.py:117-125 | no match starts at a character that differs from the term's first, ignoring case |
| Linker.LinkAllUnbracketed | scripts/outlook_summary/renderer.py:111-130 | all passes together change nothing but brackets |
| Linker.LinkAllLength | scripts/outlook_summary/renderer.py:111-130 | all passes together add four characters per wrapped match |
| Linker.BlankTermSkipped | scripts/outlook_summary/renderer.py:112-114 | a blank term leaves the text unchanged |
| Linker.WholeTextPass | scripts/outlook_summary/renderer.py:116-130 | a term equal to the whole text, between word characters, wraps the whole text |
| Linker.NestedBrackets | scripts/outlook_summary/renderer.py:106-132 | with the terms "Foo Bar Baz" and "Bar" the text "Foo Bar Baz" becomes "[[Foo [[Bar]] Baz]]" |
| Linker.BracketTermOnce | scripts/outlook_summary/renderer.py:121-125 | a term without word characters matches without `\b`: "[" becomes "[[[]]" |
| Linker.LinkNotIdempotent | scripts/outlook_summary/renderer.py:106-132 | linking that result again changes it once more |
| Payload.CleanItems | scripts/outlook_summary/summary.py:72-78 | every kept item is non-empty and stripped, and no more items are kept than were given |
| Payload.CleanedList | scripts/outlook_summary/summary.py:66-78 | every cleaned item is non-empty and stripped |
| Payload.NormalizeList | scripts/outlook_summary/summary.py:66-78 | the loop equals the specification of the cleaned list |
| Payload.CleanItemsAppend | scripts/outlook_summary/summary.py:73-77 | cleaning works item by item, so input order is kept |
| Payload.CleanItemsMember | scripts/outlook_summary/summary.py:73-77 | a string is kept iff it is non-empty and some string item strips to it; non-string items are dropped |
| Payload.CleanItemsOfClean | scripts/outlook_summary/summary.py:73-77 | a list of clean strings comes through unchanged |
| Payload.CleanItemsIdempotent | scripts/outlook_summary/summary.py:66-78 | cleaning a cleaned list changes nothing |
| Payload.BareStringList | scripts/outlook_summary/summary.py:68-69 | a bare string becomes a one-item list of itself stripped, or nothing when blank |
| Payload.NonListIsEmpty | scripts/outlook_summary/summary.py:67-71 | a missing key or a value that is neither string nor list gives [] |
| Payload.SummaryText | scripts/outlook_summary/summary.py:80-85 | the coerced summary text is stripped |
| Payload.PiecesSkipFalsy | scripts/outlook_summary/summary.py:82 | falsy items of a list-valued summary are skipped |
| Payload.PiecesIgnoreShow | scripts/outlook_summary/summary.py:82 | the rendering of nested containers matters only when the list holds one |
| Payload.NormalizeSummaryPayload | scripts/outlook_summary/summary.py:65-100 | builds the record and applies the two summary fallbacks in place, equal to the specification |
| Payload.Normalized | scripts/outlook_summary/summary.py:65-100 | the summary is never empty |
| Payload.NormalizedSummary | scripts/outlook_summary/summary.py:94-98 | the summary is never empty: the text if any, else the first one or two key points joined by "; ", else "(No summary returned)" |
| Payload.NormalizedLists | scripts/outlook_summary/summary.py:87-92 | all lists are clean, and todos fall back to follow_ups only when todos cleans to empty |
| Payload.KeyPointsSummary | scripts/outlook_summary/summary.py:94-95 | with no summary and key points a, b, ... the summary is "a; b" |
| Payload.ShipByFridaySummary | scripts/outlook_summary/summary.py:94-95 | ["Ship by Friday", "Needs sign-off"] gives "Ship by Friday; Needs sign-off" |
| Payload.InvalidJsonSummary | scripts/outlook_summary/summary.py:51-62 | invalid JSON gives the content as summary (the placeholder when it is blank) and empty lists |
| Payload.SummaryFromContent | scripts/outlook_summary/summary.py:51-62 | the call fails iff the content parses to JSON that is not an object, and then with AttributeError |
| Payload.NonObjectFails | scripts/outlook_summary/summary.py:62 | valid JSON that is not an object raises AttributeError in `payload.get` |
| Mail.ReceivedStamp | scripts/outlook_summary/renderer.py:176 | the received time if set, else the sent time, else none; never an empty value |
| Renderer.OrdinalSuffixRule | scripts/outlook_summary/renderer.py:21-26 | the suffix is "st", "nd" or "rd" after a last digit 1, 2 or 3 except in 11, 12 and 13, and "th" otherwise |
| Renderer.OrdinalTeens | scripts/outlook_summary/renderer.py:22-23 | any day with day % 100 in 10..20 takes "th" |
| Renderer.OrdinalExamples | scripts/outlook_ai_summary.py:335-340 | 1st, 2nd, 3rd, 11th, 12th, 13th, 21st, 4th |
| Renderer.Ordinal | scripts/outlook_summary/renderer.py:21-26 | the ordinal is two characters longer than the day's digits |
| Renderer.OrdinalShape | scripts/outlook_summary/renderer.py:21-26 | the ordinal is the day's digits followed by one of "st", "nd", "rd" or "th" |
| Renderer.DateLink | scripts/outlook_summary/renderer.py:29-32 | the label is a "[[...]]" link that starts with the month and a space |
| Renderer.DateLinkExample | scripts/outlook_summary/renderer.py:29-32 | 21 March 2024 gives "[[Mar 21st, 2024]]" |
| Renderer.TaskText | scripts/outlook_summary/renderer.py:158-160 | the task text is stripped |
| Renderer.TaskTextInfix | scripts/outlook_summary/renderer.py:158-160 | the task text is a piece of the task as written |
| Renderer.TaskPrefixRemoved | scripts/outlook_summary/renderer.py:159-160 | "TODO Send deck" is the task "Send deck" |
| Renderer.TaskPrefixOnce | scripts/outlook_summary/renderer.py:159-160 | only one "todo " goes: "todo todo x" is "todo x" |
| Renderer.TaskWithoutPrefix | scripts/outlook_summary/renderer.py:158-159 | a task not starting with "todo " (ignoring case) keeps its stripped text |
| Renderer.ItemLines | scripts/outlook_summary/renderer.py:145-152 | one line per item, "\t\t- " and the linked item |
| Renderer.TaskLines | scripts/outlook_summary/renderer.py:157-161 | one line per task, "\t\t- TODO " and the linked task text |
| Renderer.FormatSummarySections | scripts/outlook_summary/renderer.py:135-163 | the appending builder equals the specification of the section lines |
| Renderer.AppendListSection | scripts/outlook_summary/renderer.py:142-152 | a list section adds nothing when empty, else its heading and item lines |
| Renderer.AppendItems | scripts/outlook_summary/renderer.py:145-146 | the loop over a section's entries appends one linked item line per entry, in order |
| Renderer.AppendTaskSection | scripts/outlook_summary/renderer.py:154-161 | the Tasks section adds its heading and task lines |
| Renderer.AppendTasks | scripts/outlook_summary/renderer.py:157-161 | the loop over todos appends the task lines in order |
| Renderer.SectionOrder | scripts/outlook_summary/renderer.py:135-163 | the sections appear as Summary, Key Points, Context, Tasks, each present iff its source is non-empty |
| Renderer.SectionCount | scripts/outlook_summary/renderer.py:135-163 | one line per present summary, heading and item |
| Renderer.RenderInitialMarkdown | scripts/outlook_summary/renderer.py:166-195 | the appending builder equals the specification of the new note |
| Renderer.RenderUpdateSection | scripts/outlook_summary/renderer.py:198-228 | the appending builder equals the specification of the update block |
| Renderer.InitialShape | scripts/outlook_summary/renderer.py:181-195 | a new note starts with its tags, blank, date, Subject and From header and ends in exactly one newline after a visible character |
| Renderer.InitialHeaderText | scripts/outlook_summary/renderer.py:181-184 | the new note starts "tags:: email\n\n- " and the date link |
| Renderer.UpdateShape | scripts/outlook_summary/renderer.py:214-228 | an update block starts with its date, Update for and From header and ends in exactly one newline after a visible character |
| Renderer.UpdateHeaderText | scripts/outlook_summary/renderer.py:214-216 | the update starts "- " + date link + "\n\t- Update for: " + subject |
| Renderer.ContactLinesShape | scripts/outlook_summary/renderer.py:176-191 | the first contact line starts with the To lead iff there are recipients, and the last one is the Received line iff a time is given, carrying that time |
| Renderer.ContactLinesRule | scripts/outlook_summary/renderer.py:176-191 | the To line is present iff there are recipients, and the Received line carries the received time, else the sent time, and is absent when neither is set |
| Renderer.RenderFailure | scripts/outlook_summary/renderer.py:166-228 | a block fails iff a recipient or the sender link fails, always with IndexError, and both blocks fail alike |
| Renderer.AppendKeepsHistory | scripts/outlook_summary/renderer.py:231-236 | the merge keeps the stripped note in front, then the separator and the stripped block and a newline, or the block alone on a blank note |
| Renderer.AppendSection | scripts/outlook_summary/renderer.py:231-236 | the merged note ends in a newline and is longer than the note without its trailing whitespace |
| Renderer.MergeReadBack | scripts/outlook_summary/renderer.py:231-236 | a merged note read back is the history, the separator and the block |
| Renderer.MergeTwice | scripts/outlook_summary/renderer.py:231-236 | a second merge keeps everything the first one wrote |
| Renderer.AppendExample | scripts/outlook_summary/renderer.py:231-236 | ("Old\n", "New block") gives "Old\n\nNew block\n" |
| Graph.Without | scripts/outlook_summary/graph.py:127 | the comprehension never lengthens the list |
| Graph.MarkProcessed | scripts/outlook_summary/graph.py:127-129 | the comprehension and conditional append equal the specification of the update |
| Graph.UpdatedCategories | scripts/outlook_summary/graph.py:127-129 | the processed label is always present and at most one entry is added |
| Graph.WithoutMember | scripts/outlook_summary/graph.py:127 | an entry is kept iff it differs from the trigger |
| Graph.WithoutCount | scripts/outlook_summary/graph.py:127 | every other entry is kept as often as it occurred |
| Graph.WithoutAbsent | scripts/outlook_summary/graph.py:127 | a list without the trigger comes through unchanged |
| Graph.WithoutAppend | scripts/outlook_summary/graph.py:127 | the comprehension works entry by entry, keeping order |
| Graph.WithoutCommutes | scripts/outlook_summary/graph.py:127 | removing two labels in either order gives the same list |
| Graph.UpdateLabels | scripts/outlook_summary/graph.py:127-129 | after the update the processed label is present, the trigger is absent unless it equals the processed label, and the processed label is appended at the end exactly when it was not kept |
| Graph.UpdateKeepsOthers | scripts/outlook_summary/graph.py:127-129 | every other category keeps its order and multiplicity, and nothing else is added |
| Graph.UpdateIdempotent | scripts/outlook_summary/graph.py:127-129 | applying the update to its own output gives the same list |
| Graph.LocalMatches | scripts/outlook_summary/graph.py:68-72 | the local filter keeps at most the candidates |
| Graph.HasTrigger | scripts/outlook_summary/graph.py:71 | the any(...) loop is true iff some category equals the trigger once stripped |
| Graph.FetchCategorized | scripts/outlook_summary/graph.py:45-72 | a non-empty server result is returned as is, else the loop over the candidates equals the local filter |
| Graph.LocalMatchesAppend | scripts/outlook_summary/graph.py:68-72 | the filter keeps the candidates' order |
| Graph.LocalMatchesMember | scripts/outlook_summary/graph.py:68-72 | a message is kept iff it is a candidate with a category that equals the trigger once stripped |
| Graph.PaddedTrigger | scripts/outlook_summary/graph.py:71 | a category equal to the trigger only after stripping qualifies the message but survives the exact-match update |
| Config.StripQuotes | scripts/outlook_summary/config.py:47 | the value keeps no quote at either end and is never longer than the text |
| Config.LStripQuotes | scripts/outlook_summary/config.py:47 | the result is a suffix of the text, everything before it is a quote, and it does not start with a quote |
| Config.RStripQuotes | scripts/outlook_summary/config.py:47 | the result is a prefix of the text, everything after it is a quote, and it does not end with a quote |
| Config.StripQuotesRuns | scripts/outlook_summary/config.py:47 | the text is a run of quotes, the value, and a run of quotes: every quote at either end is removed, however many there are |
| Config.ParseKey | scripts/outlook_summary/config.py:43-45 | the key is stripped and is a piece of the text; a key that does not start with "export " is the stripped text |
| Config.ParseEnvLine | scripts/outlook_summary/config.py:35-47 | a line assigns iff it is not blank, not a '#' comment and holds '='; the key is stripped and holds no '='; the value has no quote at either end |
| Config.ParseSplit | scripts/outlook_summary/config.py:42 | the line splits at its first '=' |
| Config.ExportedKey | scripts/outlook_summary/config.py:44-45 | a key "export NAME" is NAME |
| Config.QuotedValue | scripts/outlook_summary/config.py:47 | any run of quotes in front of and behind a value that neither starts nor ends with a quote is removed, leaving exactly the value |
| Config.ExportLine | scripts/outlook_summary/config.py:35-47 | `export API_KEY = "abc"` assigns "abc" to API_KEY |
| Config.FirstEquals | scripts/outlook_summary/config.py:42 | "A=b=c" assigns "b=c" to A |
| Config.SetFailure | scripts/outlook_summary/config.py:48 | a refused pair raises ValueError or OSError, and OSError exactly when the key is empty and nothing holds a NUL |
| Config.SetDefault | scripts/outlook_summary/config.py:48 | the call fails iff the key is unset and the pair is refused; otherwise the key is set, keeping an existing value, every other variable keeps its value, and only the key is added |
| Config.LoadLines | scripts/outlook_summary/config.py:34-48 | loading the lines never removes a variable |
| Config.LoadEnvFile | scripts/outlook_summary/config.py:24-48 | the loop over the lines equals the specification of loading, a missing file changing nothing |
| Config.LoadKeepsExisting | scripts/outlook_summary/config.py:48 | a variable already set keeps its value |
| Config.LoadAppend | scripts/outlook_summary/config.py:34-48 | loading two runs of lines is loading the first, then the second |
| Config.FirstOccurrenceWins | scripts/outlook_summary/config.py:48 | for a repeated key the first assignment wins |
| Config.LoadOrigin | scripts/outlook_summary/config.py:34-48 | every variable added comes from a line assigning it exactly that value |
| Config.LoadFailure | scripts/outlook_summary/config.py:48 | loading fails only when some line assigns a pair the environment refuses, raising that line's exception: ValueError for a NUL in the key or value, else OSError for an empty key |
| Config.AuthMode | scripts/outlook_summary/config.py:58-62 | the mode is never empty |
| Config.AuthModeRule | scripts/outlook_summary/config.py:58-62 | a set mode wins, stripped and lower-cased; otherwise "client_credentials" iff a client secret is set, else "device_code" |
| Config.AuthModeNormalForm | scripts/outlook_summary/config.py:59 | setting the mode to its stripped, lower-cased form does not change the result |
| Config.DelegatedScopes | scripts/outlook_summary/config.py:89-99 | no scope is empty, and no scope split from a set variable holds whitespace or a comma |
| Config.ScopesRule | scripts/outlook_summary/config.py:89-99 | the default list when the variable is unset or empty, else the scopes concatenate to the text with every whitespace and comma removed |
| Text.TokensSplit | scripts/outlook_summary/config.py:93-95 | splitting at `[\s,]+` and dropping blank parts cuts at the first separator and splits the rest the same way |
| Text.TokensWhole | scripts/outlook_summary/config.py:93-95 | a text without whitespace or commas splits into itself, or into nothing when empty |
| Config.ScopesSplit | scripts/outlook_summary/config.py:91-96 | a set value is cut at its first whitespace or comma: the text before it, if any, is the first scope and the rest is split the same way |
| Config.ScopesWhole | scripts/outlook_summary/config.py:91-96 | a set value without whitespace or commas is the one scope |
| Config.ScopesExample | scripts/outlook_summary/config.py:92-96 | "Mail.Read, ,User.Read" gives ["Mail.Read", "User.Read"] |
| Config.InternalDomains | scripts/outlook_summary/config.py:102-109 | the loop equals the specification of the domain list |
| Config.DomainsRule | scripts/outlook_summary/config.py:102-109 | domains are non-empty, stripped, lower-case and free of commas, and a domain is listed iff some comma-separated piece strips and lower-cases to it |
| Config.CleanDomainsAppend | scripts/outlook_summary/config.py:105-108 | the pieces are handled one by one, in input order |
| Config.ProjectNames | scripts/outlook_summary/config.py:112-119 | the loop equals the specification of the name list |
| Config.NamesRule | scripts/outlook_summary/config.py:112-119 | names are non-empty, stripped, free of newlines and commas, and pieces of the raw text with their case; a name is listed iff some piece strips to it |
| Config.CleanNamesAppend | scripts/outlook_summary/config.py:115-118 | the pieces are handled one by one, in input order |
| Config.NamesExample | scripts/outlook_summary/config.py:112-119 | "Alpha, Beta\nGamma " gives ["Alpha", "Beta", "Gamma"] |
| Legacy.DedupTopics | scripts/outlook_ai_summary.py:308-317 | the loop with its seen set equals the specification of the de-duplication |
| Legacy.Dedup | scripts/outlook_ai_summary.py:308-317 | never more topics are kept than were given |
| Legacy.DedupDistinct | scripts/outlook_ai_summary.py:308-317 | no two kept topics are equal ignoring case |
| Legacy.DedupFirstOccurrence | scripts/outlook_ai_summary.py:308-317 | a topic is kept iff it is the first with its lower-cased key |
| Legacy.DedupOrder | scripts/outlook_ai_summary.py:308-317 | the kept topics are in their original order |
| Legacy.DedupExample | scripts/outlook_ai_summary.py:308-317 | ["Budget", "budget", "Q3"] gives ["Budget", "Q3"] |
| Legacy.NormalizeLegacyPayload | scripts/outlook_ai_summary.py:269-319 | the script's normalisation is the package's record plus the cleaned, de-duplicated topics |
| Legacy.LegacyTopics | scripts/outlook_ai_summary.py:296-317 | the topics are clean, distinct ignoring case, in order, and each is the first spelling of its key |
| Legacy.LegacyInvalidJson | scripts/outlook_ai_summary.py:254-266 | invalid JSON gives the package's result and no topics |
| Legacy.LegacySummaryFromContent | scripts/outlook_ai_summary.py:254-266 | the call fails iff the content parses to JSON that is not an object, and then with AttributeError |
| Legacy.FormatLegacySections | scripts/outlook_ai_summary.py:467-500 | the script's sections are the package's layout with the summary's topics as terms |
| Legacy.LegacySummaryLine | scripts/outlook_ai_summary.py:470-480 | topic linking only adds brackets to the summary line, and without topics the summary is written as it is |
| Legacy.LegacyMergeKeepsHistory | scripts/outlook_ai_summary.py:662-667 | the merge puts "\n\n---\n\n" between the stripped note and the block, and the note stays in front |
| Legacy.LegacyAppendExample | scripts/outlook_ai_summary.py:662-667 | ("Old\n", "New block") gives "Old\n\n---\n\nNew block\n" |
| Legacy.LegacyMarkProcessed | scripts/outlook_ai_summary.py:670-682 | the labels come from the environment with their defaults, and the update is the package's |
| Legacy.LegacyDefaultLabels | scripts/outlook_ai_summary.py:675-682 | with the defaults "AI Summarize" is removed, "AI Summarized" is present, and a second update changes nothing |

## Left out

- Authentication: MSAL token acquisition, the device-code flow and the token
  cache file (`auth.py`, `config.py:65-86`). These are library calls and file I/O.
- `get_required_env`: a lookup that raises when a variable is missing.
  Nothing modelled depends on it.
- HTTP and Graph requests, `debug_log_recent_categories` and logging.
  `fetch_categorized_messages` receives the results of its two requests as
  parameters. `mark_message_processed` is modelled up to the list it sends.
- Google Drive (`drive.py` and the Drive functions of the script): external
  API calls.
- The OpenAI client and the completion request. The reply content is a
  parameter, and so is the outcome of `json.loads` (`None` for invalid JSON).
- `html_to_text`: a wrapper over BeautifulSoup.
- Clock reads: `wikilink_today` and `current_run_timestamp`.
  `Renderer.DateLink` takes the month abbreviation, day and year, and the
  update time is a parameter.
- Orchestration: `processor.py` and the script's `process_messages`. They
  handle loop sequencing, error isolation and the order of the Drive write
  and the category update. Only the file-name step of `processor.py` is
  modelled (`Subject.FileName`).
- Full Unicode: `\s`, `\w`, `lower()`, `capitalize()` and `isspace()` are
  modelled on ASCII only.
- JSON numbers with a fraction, and the exact `str()` of nested lists and
  objects. The latter is a parameter `show`, used only for such items inside
  a list-valued summary.
- The package's `constants.py` is not part of this model. The subject
  patterns, the default scopes and the environment variable names are those
  of the script. The project-names variable is a parameter of
  `Config.ProjectNames`.
- Reading the secrets file: the model receives its lines.
  - The package's `Path('')` case, an empty path after stripping, is
    truthy and reaches `exists()` on the current directory. It is not
    modelled apart from a missing file.
  - File-system errors while reading are not modelled.
- A message whose `from` field is JSON `null` makes `.get` raise on `None`.
  The model's `Message` always has a sender record with optional name and
  address.
- Payload.SummaryText: `str(item)` of an integer is modelled exactly; floats
  are not part of the `Json` datatype.
- People.IsInternalEmail: the allowed domains are a parameter. In the source
  they are read from the environment on every call; `Config.InternalDomains`
  models that read.
- Config.LoadFailure: the exception class for an empty name follows CPython
  on POSIX (`OSError` from `setenv(3)`). On Windows `putenv` rejects the
  empty name itself with `ValueError`; that platform is not modelled.
