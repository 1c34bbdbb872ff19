/** Subject normalisation and the storage file name derived from it
    (strip_subject_prefixes and sanitize_filename in renderer.py, and the
    "untitled"/".md" steps processor.py adds around the latter). */
module Subject {
  import opened Text

  /** Length of the leading whitespace run of s (what a greedy \s* takes). */
  function SpaceRun(s: string): (n: nat)
    ensures n <= |s|
  {
    if s != [] && IsSpace(s[0]) then 1 + SpaceRun(s[1..]) else 0
  }

  /** Some(|token| + 1) when s starts with one of the tokens re, fw, fwd, aw,
      wg (ignoring ASCII case, tried in that order) followed by a colon. */
  function TokenColon(s: string): (r: Option<nat>)
    ensures r.Some? ==> 3 <= r.value <= 4 && r.value <= |s| && s[r.value - 1] == ':'
  {
    if TokenAt(s, "re") then Some(3)
    else if TokenAt(s, "fw") then Some(3)
    else if TokenAt(s, "fwd") then Some(4)
    else if TokenAt(s, "aw") then Some(3)
    else if TokenAt(s, "wg") then Some(3)
    else None
  }

  predicate TokenAt(s: string, token: string) {
    |token| < |s| && SameIgnoringCase(s, token) && s[|token|] == ':'
  }

  /** s starts with token, comparing characters lower-cased */
  predicate SameIgnoringCase(s: string, token: string) {
    token == [] || (s != [] && LowerChar(s[0]) == token[0] && SameIgnoringCase(s[1..], token[1..]))
  }

  /** Length of the match of ^\s*(re|fw|fwd|aw|wg):\s* (case-insensitive) at
      the start of s, if there is one. */
  function PrefixLength(s: string): (r: Option<nat>)
    ensures r.Some? ==> 0 < r.value <= |s|
  {
    if s != [] && IsSpace(s[0]) then
      match PrefixLength(s[1..])
      case None => None
      case Some(n) => Some(1 + n)
    else
      match TokenColon(s)
      case None => None
      case Some(t) => Some(t + SpaceRun(s[t..]))
  }

  /** Length of the match of ^\s*\[[^\]]*\]\s* at the start of s, or 0. */
  function BracketLength(s: string): (n: nat)
    ensures n <= |s|
  {
    if s != [] && IsSpace(s[0]) then
      var n := BracketLength(s[1..]);
      if n == 0 then 0 else 1 + n
    else if s != [] && s[0] == '[' then
      var k := IndexOf(s[1..], ']');
      if k < |s| - 1 then k + 2 + SpaceRun(s[k + 2..]) else 0
    else 0
  }

  /** The fixpoint of removing one reply/forward prefix at a time. */
  function StripPrefixes(s: string): (r: string)
    ensures |r| <= |s| && r == s[|s| - |r|..]
    decreases |s|
  {
    match PrefixLength(s)
    case None => s
    case Some(n) =>
      var r := StripPrefixes(s[n..]);
      assert s[n..][|s| - n - |r|..] == s[|s| - |r|..];
      r
  }

  const NoSubject := "No subject"

  /** What strip_subject_prefixes returns for subject. */
  function NormalizedSubject(subject: string): (r: string)
    ensures |r| > 0
  {
    if |subject| == 0 then NoSubject
    else
      var c := StripPrefixes(subject);
      var d := Strip(c[BracketLength(c)..]);
      if |d| == 0 then NoSubject else d
  }

  /** The normalised subject is never empty, has no surrounding whitespace,
      and is either the fallback or a piece of the raw subject. */
  lemma NormalizedSubjectShape(subject: string)
    ensures var r := NormalizedSubject(subject);
            r != [] && Stripped(r) && (r == NoSubject || IsInfix(r, subject))
  {
    assert Stripped(NoSubject);
    if |subject| > 0 {
      RemainderStripped(subject);
      RemainderInfix(subject);
    }
  }

  lemma RemainderStripped(subject: string)
    ensures var c := StripPrefixes(subject); Stripped(Strip(c[BracketLength(c)..]))
  {
    var c := StripPrefixes(subject);
    StripFacts(c[BracketLength(c)..]);
  }

  lemma RemainderInfix(subject: string)
    ensures var c := StripPrefixes(subject); IsInfix(Strip(c[BracketLength(c)..]), subject)
  {
    var c := StripPrefixes(subject);
    var b := c[BracketLength(c)..];
    StripFacts(b);
    SuffixInfix(c, BracketLength(c));
    InfixTrans(Strip(b), b, c);
    SuffixInfix(subject, |subject| - |c|);
    InfixTrans(Strip(b), c, subject);
  }

  /** strip_subject_prefixes: the prefix loop runs until a pass changes
      nothing, then one bracket group and the surrounding whitespace go. */
  method StripSubjectPrefixes(subject: string) returns (r: string)
    ensures r == NormalizedSubject(subject)
    ensures r != [] && Stripped(r)
    ensures r == NoSubject || IsInfix(r, subject)
  {
    NormalizedSubjectShape(subject);
    if |subject| == 0 {
      return NoSubject;
    }
    var cleaned := subject;
    while true
      invariant StripPrefixes(cleaned) == StripPrefixes(subject)
      decreases |cleaned|
    {
      var m := PrefixLength(cleaned);
      if m.None? {
        break;
      }
      cleaned := cleaned[m.value..];
    }
    cleaned := Strip(cleaned[BracketLength(cleaned)..]);
    r := if cleaned == [] then NoSubject else cleaned;
  }

  /** A bracket group at the start of s is matched up to its first ']' and
      the whitespace after it ([^\]]* cannot cross a ']'). */
  lemma BracketLengthOf(s: string, n: nat, w: nat)
    requires n + 2 + w <= |s| && s[0] == '[' && s[n + 1] == ']'
    requires forall i :: 1 <= i <= n ==> s[i] != ']'
    requires forall i :: n + 2 <= i < n + 2 + w ==> IsSpace(s[i])
    requires n + 2 + w == |s| || !IsSpace(s[n + 2 + w])
    ensures BracketLength(s) == n + 2 + w
  {
    BracketClose(s, n);
    BracketOpen(s);
    SpaceRunAt(s, n + 2, w);
  }

  /** The group opened at index 0 closes at the first ']' after it. */
  lemma BracketClose(s: string, n: nat)
    requires n + 2 <= |s| && s[n + 1] == ']'
    requires forall i :: 1 <= i <= n ==> s[i] != ']'
    ensures IndexOf(s[1..], ']') == n
  {
    forall i | 0 <= i < n ensures s[1..][i] != ']' {
      assert s[1..][i] == s[i + 1];
    }
    assert s[1..][n] == ']';
    IndexOfIs(s[1..], ']', n);
  }

  /** The whitespace run starting at index t of s. */
  lemma SpaceRunAt(s: string, t: nat, w: nat)
    requires t + w <= |s| && forall i :: t <= i < t + w ==> IsSpace(s[i])
    requires t + w == |s| || !IsSpace(s[t + w])
    ensures SpaceRun(s[t..]) == w
  {
    var x := s[t..];
    forall i | 0 <= i < w ensures IsSpace(x[i]) {
      assert x[i] == s[t + i];
    }
    if t + w < |s| {
      assert x[w] == s[t + w];
    }
    SpaceRunIs(x, w);
  }

  /** SpaceRun is n when the first n characters are whitespace and the next
      one, if any, is not. */
  lemma {:induction false} SpaceRunIs(x: string, n: nat)
    requires n <= |x| && (forall i :: 0 <= i < n ==> IsSpace(x[i]))
    requires n == |x| || !IsSpace(x[n])
    ensures SpaceRun(x) == n
    decreases n
  {
    if n > 0 {
      forall i | 0 <= i < n - 1 ensures IsSpace(x[1..][i]) {
        assert x[1..][i] == x[i + 1];
      }
      if n < |x| {
        assert x[1..][n - 1] == x[n];
      }
      SpaceRunIs(x[1..], n - 1);
    }
  }

  /** After an opening '[', the group runs to the first ']'. */
  lemma BracketOpen(s: string)
    requires s != [] && s[0] == '[' && IndexOf(s[1..], ']') < |s| - 1
    ensures BracketLength(s) == IndexOf(s[1..], ']') + 2 + SpaceRun(s[IndexOf(s[1..], ']') + 2..])
  {
    assert !IsSpace(s[0]);
  }

  /** Once the prefixes and the bracket group are known, the normalised
      subject is what follows them, when that is already stripped. */
  lemma NormalizedSubjectOf(subject: string, k: nat)
    requires |subject| > 0
    requires k == BracketLength(StripPrefixes(subject))
    requires var d := StripPrefixes(subject)[k..]; d != [] && Stripped(d)
    ensures NormalizedSubject(subject) == StripPrefixes(subject)[k..]
  {
    StripOfStripped(StripPrefixes(subject)[k..]);
  }

  /** "re:" in any case is a reply token of three characters. */
  lemma ReplyToken(s: string)
    requires |s| >= 3 && LowerChar(s[0]) == 'r' && LowerChar(s[1]) == 'e' && s[2] == ':'
    ensures TokenColon(s) == Some(3)
  {
    var t := "re";
    assert t[0] == 'r' && t[1..] == "e" && t[1..][1..] == [];
    assert s[1..][0] == s[1];
    assert SameIgnoringCase(s[1..][1..], t[1..][1..]);
    assert SameIgnoringCase(s[1..], t[1..]);
    assert SameIgnoringCase(s, t);
    assert TokenAt(s, t);
  }

  /** A token with its colon, then a whitespace run: the prefix pattern
      matches both. */
  lemma {:induction false} PrefixLengthOf(s: string, t: nat, w: nat)
    requires s != [] && !IsSpace(s[0]) && TokenColon(s) == Some(t)
    requires t + w <= |s| && forall i :: t <= i < t + w ==> IsSpace(s[i])
    requires t + w == |s| || !IsSpace(s[t + w])
    ensures PrefixLength(s) == Some(t + w)
  {
    TokenThenSpaces(s, t);
    SpaceRunAt(s, t, w);
  }

  /** Starting at a visible character, the pattern is a token, its colon and
      the whitespace run after it. */
  lemma TokenThenSpaces(s: string, t: nat)
    requires s != [] && !IsSpace(s[0]) && TokenColon(s) == Some(t)
    ensures PrefixLength(s) == Some(t + SpaceRun(s[t..]))
  {
  }

  /** A subject that starts with a visible character no token starts with
      has no prefix to remove. */
  lemma NoTokenHere(s: string)
    requires s != [] && !IsSpace(s[0])
    requires LowerChar(s[0]) != 'r' && LowerChar(s[0]) != 'f' && LowerChar(s[0]) != 'a' && LowerChar(s[0]) != 'w'
    ensures PrefixLength(s) == None && StripPrefixes(s) == s
  {
    assert TokenColon(s) == None;
  }

  lemma BudgetReviewPrefix(s: string, rest: string)
    requires rest == "[Ext] " + "Budget review" && s == "RE: " + rest
    ensures StripPrefixes(s) == rest
  {
    ReplyToken(s);
    PrefixLengthOf(s, 3, 1);
    assert s[4..] == rest;
    NoTokenHere(rest);
  }

  /** A reply to a tagged external subject: "RE: [Ext] Budget review". */
  lemma BudgetReviewExample(subject: string)
    requires subject == "RE: " + ("[Ext] " + "Budget review")
    ensures NormalizedSubject(subject) == "Budget review"
  {
    var d := "Budget review";
    var c := "[Ext] " + d;
    BudgetReviewPrefix(subject, c);
    BudgetReviewBracket(c, d);
    NormalizedSubjectOf(subject, 6);
  }

  lemma BudgetReviewBracket(c: string, d: string)
    requires d == "Budget review" && c == "[Ext] " + d
    ensures BracketLength(c) == 6 && c[6..] == d && d != [] && Stripped(d)
  {
    BracketTag(c, "Ext", d);
  }

  /** A subject "[tag] rest" with a single space before a non-blank rest:
      the bracket group and the space make up the removed length. */
  lemma BracketTag(s: string, tag: string, d: string)
    requires ']' !in tag && d != [] && !IsSpace(d[0]) && s == "[" + tag + "] " + d
    ensures BracketLength(s) == |tag| + 3 && s[|tag| + 3..] == d
  {
    var n := |tag|;
    assert s[0] == '[' && s[n + 1] == ']' && s[n + 2] == ' ' && s[n + 3] == d[0];
    forall i | 1 <= i <= n ensures s[i] != ']' { assert s[i] == tag[i - 1]; }
    BracketLengthOf(s, n, 1);
  }

  /** Normalisation is not idempotent: a reply prefix hidden behind a bracket
      group survives the first pass ... */
  lemma BracketHidesReply(subject: string)
    requires subject == "[Ext] " + "Re: x"
    ensures NormalizedSubject(subject) == "Re: x"
  {
    var d := "Re: x";
    NoTokenHere(subject);
    HiddenReplyBracket(subject, d);
    NormalizedSubjectOf(subject, 6);
  }

  lemma HiddenReplyBracket(s: string, d: string)
    requires d == "Re: x" && s == "[Ext] " + d
    ensures BracketLength(s) == 6 && s[6..] == d && d != [] && Stripped(d)
  {
    BracketTag(s, "Ext", d);
  }

  /** ... and is removed by the second. */
  lemma ReplyPrefixRemoved(subject: string)
    requires subject == "Re: x"
    ensures NormalizedSubject(subject) == "x"
  {
    var d := "x";
    ReplyPrefixX(subject, d);
    assert BracketLength(d) == 0 && d[0..] == d;
    NormalizedSubjectOf(subject, 0);
  }

  lemma ReplyPrefixX(s: string, d: string)
    requires d == "x" && s == "Re: " + d
    ensures StripPrefixes(s) == d
  {
    ReplyToken(s);
    PrefixLengthOf(s, 3, 1);
    assert s[4..] == d;
    NoTokenHere(d);
  }

  /** So normalising twice differs from normalising once. */
  lemma NormalizedSubjectNotIdempotent(subject: string)
    requires subject == "[Ext] " + "Re: x"
    ensures NormalizedSubject(NormalizedSubject(subject)) != NormalizedSubject(subject)
  {
    BracketHidesReply(subject);
    ReplyPrefixRemoved(NormalizedSubject(subject));
  }

  // ---------------------------------------------------------------------
  // File names

  const MaxNameLength := 180

  /** The characters [\\/:*?"<>|] that sanitize_filename replaces by '-'. */
  predicate IsReserved(c: char) {
    c == '\\' || c == '/' || c == ':' || c == '*' || c == '?' || c == '"' || c == '<' || c == '>' || c == '|'
  }

  function ReplaceReserved(s: string): (r: string)
    ensures |r| == |s|
    ensures forall i :: 0 <= i < |s| ==> r[i] == if IsReserved(s[i]) then '-' else s[i]
  {
    seq(|s|, i requires 0 <= i < |s| => if IsReserved(s[i]) then '-' else s[i])
  }

  /** No whitespace but single spaces, never two in a row. */
  predicate SingleSpaced(s: string) {
    (forall i :: 0 <= i < |s| && IsSpace(s[i]) ==> s[i] == ' ')
    && (forall i :: 0 <= i < |s| - 1 ==> !(IsSpace(s[i]) && IsSpace(s[i + 1])))
  }

  predicate NoReserved(s: string) {
    forall i :: 0 <= i < |s| ==> !IsReserved(s[i])
  }

  /** re.sub(r"\s+", " ", s): every maximal whitespace run becomes one space. */
  function CollapseSpaces(s: string): (r: string)
    ensures SingleSpaced(r)
    ensures NoReserved(s) ==> NoReserved(r)
    ensures |r| <= |s|
    ensures s != [] && !IsSpace(s[0]) ==> r != [] && r[0] == s[0]
    decreases |s|
  {
    if s == [] then []
    else if IsSpace(s[0]) then
      var rest := LStrip(s);
      LStripFacts(s);
      NoReservedSuffix(s, |s| - |rest|);
      var t := CollapseSpaces(rest);
      ConsKeepsSpacing(' ', t);
      " " + t
    else
      NoReservedSuffix(s, 1);
      var t := CollapseSpaces(s[1..]);
      ConsKeepsSpacing(s[0], t);
      [s[0]] + t
  }

  lemma ConsKeepsSpacing(c: char, t: string)
    requires SingleSpaced(t)
    requires !IsSpace(c) || (c == ' ' && (t == [] || !IsSpace(t[0])))
    ensures SingleSpaced([c] + t)
    ensures !IsReserved(c) && NoReserved(t) ==> NoReserved([c] + t)
  {
    var u := [c] + t;
    forall i | 1 <= i < |u| ensures u[i] == t[i - 1] { }
  }

  lemma NoReservedSuffix(s: string, k: nat)
    requires k <= |s|
    ensures NoReserved(s) ==> NoReserved(s[k..])
  {
    if NoReserved(s) {
      forall i | 0 <= i < |s| - k ensures !IsReserved(s[k..][i]) {
        assert s[k..][i] == s[k + i];
      }
    }
  }

  /** A name sanitize_filename leaves exactly as it is. */
  predicate CleanName(s: string) {
    NoReserved(s) && SingleSpaced(s) && Stripped(s) && |s| <= MaxNameLength
  }

  /** sanitize_filename */
  function SanitizeFilename(name: string): (r: string)
    ensures forall i :: 0 <= i < |r| ==> !IsReserved(r[i])
    ensures SingleSpaced(r)
    ensures |r| <= MaxNameLength
    ensures r == [] || !IsSpace(r[0])
  {
    var cleaned := Strip(CollapseSpaces(ReplaceReserved(name)));
    CleanedFacts(name);
    if |cleaned| > MaxNameLength then cleaned[..MaxNameLength] else cleaned
  }

  /** After the replacement, the collapse and the strip, no reserved
      character is left, spaces are single and the name starts visible. */
  lemma CleanedFacts(name: string)
    ensures var cleaned := Strip(CollapseSpaces(ReplaceReserved(name)));
            NoReserved(cleaned) && SingleSpaced(cleaned) && (cleaned == [] || !IsSpace(cleaned[0]))
  {
    var replaced := ReplaceReserved(name);
    var collapsed := CollapseSpaces(replaced);
    var cleaned := Strip(collapsed);
    StripFacts(collapsed);
    StripKeepsSpacing(collapsed);
    assert NoReserved(replaced);
    var j :| 0 <= j <= |collapsed| && StartsWith(collapsed[j..], cleaned);
    forall i | 0 <= i < |cleaned| ensures !IsReserved(cleaned[i]) {
      assert cleaned[i] == collapsed[j + i];
    }
  }

  lemma StripKeepsSpacing(s: string)
    requires SingleSpaced(s)
    ensures SingleSpaced(Strip(s))
  {
    var r := Strip(s);
    StripFacts(s);
    var j :| 0 <= j <= |s| && StartsWith(s[j..], r);
    forall i | 0 <= i < |r| ensures r[i] == s[j + i] { }
  }

  lemma {:induction false} CollapseSingleSpaced(s: string)
    requires SingleSpaced(s)
    ensures CollapseSpaces(s) == s
    decreases |s|
  {
    if s != [] {
      if IsSpace(s[0]) {
        assert |s| == 1 || !IsSpace(s[1]);
        assert LStrip(s) == s[1..] by {
          assert LStrip(s) == LStrip(s[1..]);
          if |s| > 1 { LStripNonSpaceStart(s[1..]); }
        }
      }
      assert SingleSpaced(s[1..]) by {
        forall i | 0 <= i < |s[1..]| - 1 ensures !(IsSpace(s[1..][i]) && IsSpace(s[1..][i + 1])) {
          assert s[1..][i] == s[i + 1] && s[1..][i + 1] == s[i + 2];
        }
      }
      CollapseSingleSpaced(s[1..]);
    }
  }

  /** A clean name is a fixpoint of sanitize_filename. */
  lemma SanitizeCleanName(s: string)
    requires CleanName(s)
    ensures SanitizeFilename(s) == s
  {
    assert ReplaceReserved(s) == s;
    CollapseSingleSpaced(s);
    StripOfStripped(s);
  }

  /** Re-sanitising is a no-op unless truncation left a trailing space. */
  lemma SanitizeTwice(name: string)
    requires var r := SanitizeFilename(name); r == [] || r[|r| - 1] != ' '
    ensures SanitizeFilename(SanitizeFilename(name)) == SanitizeFilename(name)
  {
    SanitizeCleanName(SanitizeFilename(name));
  }

  /** ... and that exception is real: 179 letters, a space and one more letter
      are cut to a name ending in a space, which the next pass trims. */
  lemma SanitizeTruncationLeavesSpace()
    ensures var name := seq(179, _ => 'a') + " b";
            SanitizeFilename(name) == seq(179, _ => 'a') + " "
            && SanitizeFilename(SanitizeFilename(name)) == seq(179, _ => 'a')
  {
    var a := seq(179, _ => 'a');
    TruncatedAtSpace(a, a + " b");
    TrailingSpaceTrimmed(a, a + " ");
  }

  lemma TruncatedAtSpace(a: string, name: string)
    requires a == seq(179, _ => 'a') && name == a + " b"
    ensures SanitizeFilename(name) == a + " "
  {
    assert ReplaceReserved(name) == name;
    assert SingleSpaced(name);
    CollapseSingleSpaced(name);
    StripOfStripped(name);
    assert name[..MaxNameLength] == a + " ";
  }

  lemma TrailingSpaceTrimmed(a: string, once: string)
    requires a == seq(179, _ => 'a') && once == a + " "
    ensures SanitizeFilename(once) == a
  {
    assert ReplaceReserved(once) == once;
    assert SingleSpaced(once);
    CollapseSingleSpaced(once);
    assert RStrip(once) == a by {
      assert once[..|once| - 1] == a;
    }
    LStripNonSpaceStart(a);
  }

  const Untitled := "untitled"
  const Extension := ".md"

  /** processor.py: sanitize_filename(subject) or "untitled", plus ".md". */
  function FileName(subject: string): (r: string)
    ensures EndsWith(r, Extension)
    ensures |Extension| < |r| <= MaxNameLength + |Extension|
    ensures forall i :: 0 <= i < |r| ==> !IsReserved(r[i])
  {
    var safe := SanitizeFilename(subject);
    (if safe == [] then Untitled else safe) + Extension
  }

  /** "RE: [Ext] Budget review" is stored as
      "Budget review.md". */
  lemma BudgetReviewFileName(subject: string)
    requires subject == "RE: " + ("[Ext] " + "Budget review")
    ensures FileName(NormalizedSubject(subject)) == "Budget review.md"
  {
    BudgetReviewExample(subject);
    CleanNameFile(NormalizedSubject(subject));
  }

  lemma CleanNameFile(name: string)
    requires name == "Budget review"
    ensures FileName(name) == "Budget review.md"
  {
    BudgetReviewClean(name);
    SanitizeCleanName(name);
  }

  lemma BudgetReviewClean(name: string)
    requires name == "Budget review"
    ensures CleanName(name)
  {
  }
}
