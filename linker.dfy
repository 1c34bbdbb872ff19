/** Term linking: link_projects in renderer.py (link_topics in the monolith
    is the same code). Each term becomes the regular expression
    (?<!\[\[)\b(term)\b(?!\]\]) with IGNORECASE, or the same without the two
    \b when the term has no word character, and re.sub wraps every match in
    [[ ]]. The pattern is a literal of fixed length, so re.sub is a
    left-to-right scan over the original text: at each position either a
    match is wrapped and the scan jumps past it, or one character is copied. */
module Linker {
  import opened Text

  /** Position k of t holds a word character (outside t counts as not). */
  predicate WordAt(t: string, k: int) {
    0 <= k < |t| && IsWordChar(t[k])
  }

  /** \b at position k */
  predicate Boundary(t: string, k: int) {
    WordAt(t, k - 1) != WordAt(t, k)
  }

  /** re.search(r"\w", term) */
  predicate HasWordChar(s: string) {
    exists i :: 0 <= i < |s| && IsWordChar(s[i])
  }

  /** Equal under re.IGNORECASE (on ASCII: after lower-casing) */
  predicate EqualIgnoringCase(a: string, b: string) {
    |a| == |b| && forall k :: 0 <= k < |a| ==> LowerChar(a[k]) == LowerChar(b[k])
  }

  /** The pattern for term matches t at position i. */
  predicate MatchAt(t: string, i: nat, term: string, bounded: bool) {
    i + |term| <= |t|
    && EqualIgnoringCase(t[i..i + |term|], term)
    && !(i >= 2 && t[i - 2..i] == "[[")
    && !(i + |term| + 2 <= |t| && t[i + |term|..i + |term| + 2] == "]]")
    && (bounded ==> Boundary(t, i) && Boundary(t, i + |term|))
  }

  /** No match starts at position i or later. */
  predicate NoMatchFrom(t: string, i: nat, term: string, bounded: bool) {
    forall j :: i <= j < |t| ==> !MatchAt(t, j, term, bounded)
  }

  /** re.sub(pattern, "[[" + group(0) + "]]", t[i..]) with the look-behind
      and \b still seeing the characters of t before i. */
  function SubFrom(t: string, i: nat, term: string, bounded: bool): (r: string)
    requires i <= |t| && term != []
    decreases |t| - i
  {
    if i == |t| then []
    else if MatchAt(t, i, term, bounded) then
      "[[" + t[i..i + |term|] + "]]" + SubFrom(t, i + |term|, term, bounded)
    else [t[i]] + SubFrom(t, i + 1, term, bounded)
  }

  predicate NotBracket(c: char) {
    c != '[' && c != ']'
  }

  /** The text without its square brackets. */
  function Unbracketed(s: string): string {
    Filter(s, NotBracket)
  }

  /** One substitution only inserts brackets: the text without brackets is
      unchanged, so every matched word keeps its casing ... */
  lemma {:induction false} SubFromUnbracketed(t: string, i: nat, term: string, bounded: bool)
    requires i <= |t| && term != []
    ensures Unbracketed(SubFrom(t, i, term, bounded)) == Unbracketed(t[i..])
    decreases |t| - i
  {
    if i < |t| {
      if MatchAt(t, i, term, bounded) {
        SubFromUnbracketed(t, i + |term|, term, bounded);
        var m := t[i..i + |term|];
        assert t[i..] == m + t[i + |term|..];
        PieceUnbracketed("[[" + m + "]]", m, SubFrom(t, i + |term|, term, bounded), t[i + |term|..]);
      } else {
        SubFromUnbracketed(t, i + 1, term, bounded);
        assert t[i..] == [t[i]] + t[i + 1..];
        PieceUnbracketed([t[i]], [t[i]], SubFrom(t, i + 1, term, bounded), t[i + 1..]);
      }
    }
  }

  /** Gluing pieces with equal unbracketed text. */
  lemma PieceUnbracketed(out: string, orig: string, outRest: string, origRest: string)
    requires out == orig || out == "[[" + orig + "]]"
    requires Unbracketed(outRest) == Unbracketed(origRest)
    ensures Unbracketed(out + outRest) == Unbracketed(orig + origRest)
  {
    FilterAppend(out, outRest, NotBracket);
    FilterAppend(orig, origRest, NotBracket);
    if out != orig {
      WrapUnbracketed(orig);
    }
  }

  lemma WrapUnbracketed(m: string)
    ensures Unbracketed("[[" + m + "]]") == Unbracketed(m)
  {
    FilterAppend("[[" + m, "]]", NotBracket);
    FilterAppend("[[", m, NotBracket);
    assert Unbracketed("[[") == [] && Unbracketed("]]") == [];
  }

  /** The number of matches SubFrom wraps. */
  function Wraps(t: string, i: nat, term: string, bounded: bool): nat
    requires i <= |t| && term != []
    decreases |t| - i
  {
    if i == |t| then 0
    else if MatchAt(t, i, term, bounded) then 1 + Wraps(t, i + |term|, term, bounded)
    else Wraps(t, i + 1, term, bounded)
  }

  /** ... the text grows by four characters per wrapped match ... */
  lemma {:induction false} SubFromLength(t: string, i: nat, term: string, bounded: bool)
    requires i <= |t| && term != []
    ensures |SubFrom(t, i, term, bounded)| == |t| - i + 4 * Wraps(t, i, term, bounded)
    decreases |t| - i
  {
    if i < |t| {
      if MatchAt(t, i, term, bounded) {
        SubFromLength(t, i + |term|, term, bounded);
      } else {
        SubFromLength(t, i + 1, term, bounded);
      }
    }
  }

  /** ... and it is unchanged exactly when the pattern matches nowhere. */
  lemma {:induction false} SubFromUnchanged(t: string, i: nat, term: string, bounded: bool)
    requires i <= |t| && term != []
    ensures SubFrom(t, i, term, bounded) == t[i..] <==> NoMatchFrom(t, i, term, bounded)
    decreases |t| - i
  {
    if i < |t| {
      if MatchAt(t, i, term, bounded) {
        ChangedAtMatch(t, i, term, bounded);
      } else {
        SubFromUnchanged(t, i + 1, term, bounded);
        UnchangedStep(t, i, term, bounded);
      }
    }
  }

  lemma ChangedAtMatch(t: string, i: nat, term: string, bounded: bool)
    requires i < |t| && term != [] && MatchAt(t, i, term, bounded)
    ensures SubFrom(t, i, term, bounded) != t[i..] && !NoMatchFrom(t, i, term, bounded)
  {
    SubFromLength(t, i, term, bounded);
    assert Wraps(t, i, term, bounded) >= 1;
  }

  lemma UnchangedStep(t: string, i: nat, term: string, bounded: bool)
    requires i < |t| && term != [] && !MatchAt(t, i, term, bounded)
    requires SubFrom(t, i + 1, term, bounded) == t[i + 1..] <==> NoMatchFrom(t, i + 1, term, bounded)
    ensures SubFrom(t, i, term, bounded) == t[i..] <==> NoMatchFrom(t, i, term, bounded)
  {
    SubFromSkip(t, i, term, bounded);
    NoMatchStep(t, i, term, bounded);
    assert t[i..] == [t[i]] + t[i + 1..];
    EqualAfterCons(t[i], SubFrom(t, i, term, bounded), t[i..], SubFrom(t, i + 1, term, bounded), t[i + 1..]);
  }

  lemma EqualAfterCons(c: char, x: string, y: string, a: string, b: string)
    requires x == [c] + a && y == [c] + b
    ensures x == y <==> a == b
  {
    ConsInjective(c, a, b);
  }

  /** Where the pattern does not match, one character is copied. */
  lemma SubFromSkip(t: string, i: nat, term: string, bounded: bool)
    requires i < |t| && term != [] && !MatchAt(t, i, term, bounded)
    ensures SubFrom(t, i, term, bounded) == [t[i]] + SubFrom(t, i + 1, term, bounded)
  {
  }

  lemma NoMatchStep(t: string, i: nat, term: string, bounded: bool)
    requires i < |t| && !MatchAt(t, i, term, bounded)
    ensures NoMatchFrom(t, i, term, bounded) <==> NoMatchFrom(t, i + 1, term, bounded)
  {
  }

  lemma ConsInjective(c: char, a: string, b: string)
    ensures [c] + a == [c] + b <==> a == b
  {
    if [c] + a == [c] + b {
      assert a == ([c] + a)[1..];
    }
  }

  /** One iteration of the loop in link_projects: strip the term, skip it when
      blank, use word boundaries only when it has a word character. */
  function LinkPass(t: string, term: string): string {
    var clean := Strip(term);
    if clean == [] then t else SubFrom(t, 0, clean, HasWordChar(clean))
  }

  /** The passes for terms, in order. */
  function LinkAll(t: string, terms: seq<string>): string
    decreases |terms|
  {
    if terms == [] then t else LinkAll(LinkPass(t, terms[0]), terms[1..])
  }

  /** sorted(terms, key=len, reverse=True): longest first, and terms of equal
      length in their original order. */
  function SortByLength(terms: seq<string>): (r: seq<string>)
    ensures |r| == |terms|
  {
    if terms == [] then [] else InsertByLength(terms[0], SortByLength(terms[1..]))
  }

  /** Insert x before the first element that is no longer than x, so that
      x goes ahead of the terms of its own length. */
  function InsertByLength(x: string, s: seq<string>): (r: seq<string>)
    ensures |r| == |s| + 1
  {
    if s == [] || |x| >= |s[0]| then [x] + s else [s[0]] + InsertByLength(x, s[1..])
  }

  predicate LongestFirst(s: seq<string>) {
    forall i, j :: 0 <= i < j < |s| ==> |s[i]| >= |s[j]|
  }

  lemma {:induction false} InsertByLengthSpec(x: string, s: seq<string>)
    requires LongestFirst(s)
    ensures LongestFirst(InsertByLength(x, s))
    ensures multiset(InsertByLength(x, s)) == multiset(s) + multiset{x}
  {
    InsertByLengthPerm(x, s);
    if s != [] && |x| < |s[0]| {
      InsertByLengthSpec(x, s[1..]);
      var t := InsertByLength(x, s[1..]);
      BoundedByHead(x, s, t);
      ConsLongestFirst(s[0], t);
    } else {
      forall k | 0 <= k < |s| ensures |s[k]| <= |x| {
        assert |s[0]| >= |s[k]|;
      }
      ConsLongestFirst(x, s);
    }
  }

  /** Inserting neither adds nor loses a term. */
  lemma {:induction false} InsertByLengthPerm(x: string, s: seq<string>)
    ensures multiset(InsertByLength(x, s)) == multiset(s) + multiset{x}
  {
    if s != [] && |x| < |s[0]| {
      InsertByLengthPerm(x, s[1..]);
      assert s == [s[0]] + s[1..];
    }
  }

  /** Past a longer head, every term inserted into the rest is no longer
      than the head. */
  lemma BoundedByHead(x: string, s: seq<string>, t: seq<string>)
    requires s != [] && |x| < |s[0]| && LongestFirst(s)
    requires multiset(t) == multiset(s[1..]) + multiset{x}
    ensures forall k :: 0 <= k < |t| ==> |t[k]| <= |s[0]|
  {
    forall k | 0 <= k < |t| ensures |t[k]| <= |s[0]| {
      assert t[k] in multiset(t);
      if t[k] != x {
        assert t[k] in multiset(s[1..]);
        var m :| 0 <= m < |s[1..]| && s[1..][m] == t[k];
        assert s[m + 1] == t[k];
      }
    }
  }

  lemma ConsLongestFirst(h: string, t: seq<string>)
    requires LongestFirst(t) && forall k :: 0 <= k < |t| ==> |t[k]| <= |h|
    ensures LongestFirst([h] + t)
  {
    var r := [h] + t;
    forall i, j | 0 <= i < j < |r| ensures |r[i]| >= |r[j]| {
      assert r[j] == t[j - 1];
      if i > 0 {
        assert r[i] == t[i - 1];
      }
    }
  }

  /** The terms of length n, in their order. */
  function OfLength(s: seq<string>, n: nat): (r: seq<string>)
    ensures |r| <= |s|
  {
    if s == [] then []
    else (if |s[0]| == n then [s[0]] else []) + OfLength(s[1..], n)
  }

  /** Inserting x puts it ahead of every term of its own length and leaves
      the terms of every other length as they were. */
  lemma {:induction false} InsertByLengthStable(x: string, s: seq<string>, n: nat)
    ensures OfLength(InsertByLength(x, s), n)
            == (if |x| == n then [x] else []) + OfLength(s, n)
  {
    var r := InsertByLength(x, s);
    var own := if |x| == n then [x] else [];
    if s == [] || |x| >= |s[0]| {
      assert r[0] == x && r[1..] == s;
      assert OfLength(r, n) == own + OfLength(s, n);
    } else {
      var t := InsertByLength(x, s[1..]);
      var head := if |s[0]| == n then [s[0]] else [];
      InsertByLengthStable(x, s[1..], n);
      assert r[0] == s[0] && r[1..] == t;
      assert OfLength(r, n) == head + OfLength(t, n);
      assert OfLength(s, n) == head + OfLength(s[1..], n);
      assert head == [] || own == [];
    }
  }

  /** The sort is stable: for every length, the terms of that length keep
      their relative order. */
  lemma {:induction false} SortByLengthStable(terms: seq<string>, n: nat)
    ensures OfLength(SortByLength(terms), n) == OfLength(terms, n)
  {
    if terms != [] {
      SortByLengthStable(terms[1..], n);
      InsertByLengthStable(terms[0], SortByLength(terms[1..]), n);
    }
  }

  /** The terms are tried longest first, and sorting neither adds nor loses a
      term. */
  lemma {:induction false} SortByLengthSpec(terms: seq<string>)
    ensures LongestFirst(SortByLength(terms))
    ensures multiset(SortByLength(terms)) == multiset(terms)
  {
    if terms != [] {
      SortByLengthSpec(terms[1..]);
      SortStep(terms, SortByLength(terms[1..]));
    }
  }

  /** Inserting the first term into the sorted rest sorts the whole list. */
  lemma SortStep(terms: seq<string>, t: seq<string>)
    requires terms != [] && LongestFirst(t) && multiset(t) == multiset(terms[1..])
    ensures LongestFirst(InsertByLength(terms[0], t))
    ensures multiset(InsertByLength(terms[0], t)) == multiset(terms)
  {
    InsertByLengthSpec(terms[0], t);
    assert terms == [terms[0]] + terms[1..];
  }

  /** What link_projects returns. */
  function LinkedText(text: string, terms: seq<string>): (r: string)
    ensures Unbracketed(r) == Unbracketed(text)
  {
    if text == [] || terms == [] then text
    else LinkAllUnbracketed(text, SortByLength(terms)); LinkAll(text, SortByLength(terms))
  }

  /** link_projects: the loop over the sorted terms reassigning linked. */
  method LinkProjects(text: string, terms: seq<string>) returns (linked: string)
    ensures linked == LinkedText(text, terms)
  {
    if text == [] || terms == [] {
      return text;
    }
    var sorted := SortByLength(terms);
    linked := text;
    for k := 0 to |sorted|
      invariant LinkAll(linked, sorted[k..]) == LinkAll(text, sorted)
    {
      assert sorted[k..][1..] == sorted[k + 1..];
      var clean := Strip(sorted[k]);
      if clean != [] {
        linked := SubFrom(linked, 0, clean, HasWordChar(clean));
      }
    }
  }

  /** Only brackets are inserted, however many terms: every other character
      of the text, with its casing, survives in order ... */
  lemma {:induction false} LinkAllUnbracketed(t: string, terms: seq<string>)
    ensures Unbracketed(LinkAll(t, terms)) == Unbracketed(t)
    decreases |terms|
  {
    if terms != [] {
      var clean := Strip(terms[0]);
      if clean != [] {
        SubFromUnbracketed(t, 0, clean, HasWordChar(clean));
      }
      LinkAllUnbracketed(LinkPass(t, terms[0]), terms[1..]);
    }
  }

  /** The number of matches wrapped by all the passes. */
  function LinkWraps(t: string, terms: seq<string>): nat
    decreases |terms|
  {
    if terms == [] then 0
    else
      var clean := Strip(terms[0]);
      (if clean == [] then 0 else Wraps(t, 0, clean, HasWordChar(clean)))
      + LinkWraps(LinkPass(t, terms[0]), terms[1..])
  }

  /** ... and they come four characters per wrapped match. */
  lemma {:induction false} LinkAllLength(t: string, terms: seq<string>)
    ensures |LinkAll(t, terms)| == |t| + 4 * LinkWraps(t, terms)
    decreases |terms|
  {
    if terms != [] {
      var clean := Strip(terms[0]);
      if clean != [] {
        SubFromLength(t, 0, clean, HasWordChar(clean));
      }
      LinkAllLength(LinkPass(t, terms[0]), terms[1..]);
    }
  }

  /** link_projects only inserts "[[" and "]]" pairs. */
  lemma LinkedTextOnlyBrackets(text: string, terms: seq<string>)
    ensures Unbracketed(LinkedText(text, terms)) == Unbracketed(text)
    ensures |LinkedText(text, terms)| % 4 == |text| % 4 && |LinkedText(text, terms)| >= |text|
    ensures text == [] || terms == [] ==> LinkedText(text, terms) == text
  {
    if text != [] && terms != [] {
      LinkAllUnbracketed(text, SortByLength(terms));
      LinkAllLength(text, SortByLength(terms));
      FourMore(|text|, LinkWraps(text, SortByLength(terms)));
    }
  }

  lemma FourMore(n: nat, w: nat)
    ensures (n + 4 * w) % 4 == n % 4 && n + 4 * w >= n
  {
  }

  /** Blank terms are skipped. */
  lemma BlankTermSkipped(t: string, term: string)
    requires AllSpace(term)
    ensures LinkPass(t, term) == t
  {
    StripFacts(term);
  }

  /** Positions where the pattern does not match are copied unchanged. */
  lemma {:induction false} SubFromCopy(t: string, i: nat, j: nat, term: string, bounded: bool)
    requires i <= j <= |t| && term != []
    requires forall k :: i <= k < j ==> !MatchAt(t, k, term, bounded)
    ensures SubFrom(t, i, term, bounded) == t[i..j] + SubFrom(t, j, term, bounded)
    decreases j - i
  {
    if i < j {
      SubFromSkip(t, i, term, bounded);
      SubFromCopy(t, i + 1, j, term, bounded);
      ConsSlice(t, i, j, SubFrom(t, j, term, bounded));
    }
  }

  lemma ConsSlice(t: string, i: nat, j: nat, rest: string)
    requires i < j <= |t|
    ensures [t[i]] + (t[i + 1..j] + rest) == t[i..j] + rest
  {
    assert t[i..j] == [t[i]] + t[i + 1..j];
  }

  /** A position whose character differs from the term's first one, ignoring
      case, is not a match. */
  lemma NoMatchByFirstChar(t: string, k: nat, term: string, bounded: bool)
    requires k < |t| && term != [] && LowerChar(t[k]) != LowerChar(term[0])
    ensures !MatchAt(t, k, term, bounded)
  {
    if k + |term| <= |t| {
      assert t[k..k + |term|][0] == t[k];
    }
  }

  /** A term that is the whole text and starts and ends with a word
      character wraps the whole text. */
  lemma WholeTextPass(t: string)
    requires Stripped(t) && t != [] && IsWordChar(t[0]) && IsWordChar(t[|t| - 1])
    ensures LinkPass(t, t) == "[[" + t + "]]"
  {
    StripOfStripped(t);
    assert HasWordChar(t) by { assert IsWordChar(t[0]); }
    assert MatchAt(t, 0, t, true) by {
      assert t[0..|t|] == t;
    }
    assert SubFrom(t, |t|, t, true) == [];
    assert t[0..|t|] == t;
  }

  lemma NestedSecondPass(u: string)
    requires u == "[[Foo Bar Baz]]"
    ensures LinkPass(u, "Bar") == "[[Foo [[Bar]] Baz]]"
  {
    var b := "Bar";
    StripOfStripped(b);
    assert HasWordChar(b) by { assert IsWordChar(b[0]); }
    NestedBefore(u, b);
    SubFromCopy(u, 0, 6, b, true);
    NestedAt(u, b);
    NestedAfter(u, b);
    SubFromCopy(u, 9, 15, b, true);
    assert SubFrom(u, 15, b, true) == [];
    NestedGlue(u, b);
  }

  lemma NestedBefore(u: string, b: string)
    requires u == "[[Foo Bar Baz]]" && b == "Bar"
    ensures forall k :: 0 <= k < 6 ==> !MatchAt(u, k, b, true)
  {
    forall k | 0 <= k < 6 ensures !MatchAt(u, k, b, true) {
      NoMatchByFirstChar(u, k, b, true);
    }
  }

  lemma NestedAt(u: string, b: string)
    requires u == "[[Foo Bar Baz]]" && b == "Bar"
    ensures MatchAt(u, 6, b, true)
  {
    assert u[6..9] == b;
    assert u[4..6] == "o ";
    assert u[9..11] == " B";
  }

  lemma NestedAfter(u: string, b: string)
    requires u == "[[Foo Bar Baz]]" && b == "Bar"
    ensures forall k :: 9 <= k < 15 ==> !MatchAt(u, k, b, true)
  {
    assert !MatchAt(u, 10, b, true) by {
      assert u[10..13][2] == 'z';
    }
    forall k | 9 <= k < 15 ensures !MatchAt(u, k, b, true) {
      if k != 10 {
        NoMatchByFirstChar(u, k, b, true);
      }
    }
  }

  lemma NestedGlue(u: string, b: string)
    requires u == "[[Foo Bar Baz]]" && b == "Bar"
    ensures u[0..6] + ("[[" + u[6..9] + "]]") + (u[9..15] + []) == "[[Foo [[Bar]] Baz]]"
  {
    assert u[0..6] == "[[Foo ";
    assert u[6..9] == "Bar";
    assert u[9..15] + [] == " Baz]]";
  }

  /** Only the characters right beside a match are checked, so a shorter term
      inside an already linked longer one is linked again:
      "Foo Bar Baz" with the terms "Foo Bar Baz" and "Bar" gives nested
      brackets. */
  lemma {:induction false} NestedBrackets(text: string, terms: seq<string>)
    requires text == "Foo Bar Baz" && terms == ["Foo Bar Baz", "Bar"]
    ensures LinkedText(text, terms) == "[[Foo [[Bar]] Baz]]"
  {
    NestedSorted(terms);
    WholeTextPass(text);
    WrappedLiteral(text, "[[" + text + "]]");
    NestedSecondPass("[[" + text + "]]");
    LinkAllPair(text, terms[0], terms[1]);
    assert terms == [terms[0], terms[1]];
  }

  lemma WrappedLiteral(text: string, u: string)
    requires text == "Foo Bar Baz" && u == "[[" + text + "]]"
    ensures u == "[[Foo Bar Baz]]"
  {
  }

  lemma NestedSorted(terms: seq<string>)
    requires terms == ["Foo Bar Baz", "Bar"]
    ensures SortByLength(terms) == terms
  {
    assert SortByLength(terms[1..]) == ["Bar"];
  }

  /** Two terms are linked one pass after the other. */
  lemma LinkAllPair(t: string, a: string, b: string)
    ensures LinkAll(t, [a, b]) == LinkPass(LinkPass(t, a), b)
  {
    assert [a, b][1..] == [b];
    assert [b][1..] == [];
    assert LinkAll(t, [a, b]) == LinkAll(LinkPass(t, a), [b]);
    assert LinkAll(LinkPass(t, a), [b]) == LinkAll(LinkPass(LinkPass(t, a), b), []);
  }

  /** A term without word characters is matched anywhere not flanked by
      brackets: "[" linked in "[" gives "[[[]]" ... */
  lemma BracketTermOnce(t: string)
    requires t == "["
    ensures LinkedText(t, [t]) == "[[[]]"
  {
    BracketPass(t);
    assert SortByLength([t]) == [t];
    assert [t][1..] == [];
    assert LinkAll(t, [t]) == LinkAll(LinkPass(t, t), []);
  }

  lemma BracketPass(t: string)
    requires t == "["
    ensures LinkPass(t, t) == "[[[]]"
  {
    StripOfStripped(t);
    assert !HasWordChar(t);
    assert MatchAt(t, 0, t, false) by {
      assert t[0..1] == t;
    }
    assert SubFrom(t, 1, t, false) == [];
    assert t[0..1] == t;
    assert SubFrom(t, 0, t, false) == "[[" + t + "]]" + [];
  }

  /** ... and linking that result again changes it once more, so
      link_projects is not idempotent. */
  lemma LinkNotIdempotent(t: string)
    requires t == "["
    ensures LinkedText(LinkedText(t, [t]), [t]) != LinkedText(t, [t])
  {
    BracketTermOnce(t);
    var u := "[[[]]";
    StripOfStripped(t);
    assert !HasWordChar(t);
    assert MatchAt(u, 0, t, false) by {
      assert u[0..1] == t;
      assert u[1..3] == "[[";
    }
    SubFromUnchanged(u, 0, t, false);
    assert !NoMatchFrom(u, 0, t, false);
    assert SortByLength([t]) == [t];
    assert [t][1..] == [];
    assert LinkAll(u, [t]) == LinkAll(LinkPass(u, t), []);
    assert u[0..] == u;
  }
}
