/** ASCII string helpers with the meaning Python's str methods and the
    regular-expression classes \s and \w give them on ASCII text. */
module Text {

  datatype Option<+T> = None | Some(value: T)

  /** The Python exceptions the modelled code can raise on its own inputs. */
  datatype Failure = IndexError | AttributeError | ValueError | OSError

  datatype Result<+T> = Ok(value: T) | Err(failure: Failure)

  /** Python's `x or ""` for an optional string */
  function OrEmpty(s: Option<string>): string {
    if s.Some? then s.value else []
  }

  /** Python's str.isspace() (and the regex class \s) on ASCII: space, \t, \n,
      \r, \v, \f and the four separators \x1c-\x1f. */
  predicate IsSpace(c: char) {
    c == ' ' || c == '\t' || c == '\n' || c == '\r' || c == '\U{B}' || c == '\U{C}'
    || ('\U{1C}' <= c <= '\U{1F}')
  }

  /** The regex class \w on ASCII: letters, digits and underscore. */
  predicate IsWordChar(c: char) {
    ('a' <= c <= 'z') || ('A' <= c <= 'Z') || ('0' <= c <= '9') || c == '_'
  }

  function LowerChar(c: char): (r: char)
    ensures IsWordChar(r) == IsWordChar(c) && IsSpace(r) == IsSpace(c)
  {
    if 'A' <= c <= 'Z' then (c as int + 32) as char else c
  }

  function UpperChar(c: char): (r: char)
    ensures IsWordChar(r) == IsWordChar(c) && IsSpace(r) == IsSpace(c)
  {
    if 'a' <= c <= 'z' then (c as int - 32) as char else c
  }

  /** str.lower() */
  function Lower(s: string): (r: string)
    ensures |r| == |s|
    ensures forall i :: 0 <= i < |s| ==> r[i] == LowerChar(s[i])
  {
    seq(|s|, i requires 0 <= i < |s| => LowerChar(s[i]))
  }

  /** str.capitalize(): first character upper-cased, the rest lower-cased */
  function Capitalize(s: string): (r: string)
    ensures |r| == |s|
  {
    if s == [] then [] else [UpperChar(s[0])] + Lower(s[1..])
  }

  predicate StartsWith(s: string, p: string) {
    |p| <= |s| && s[..|p|] == p
  }

  predicate EndsWith(s: string, p: string) {
    |p| <= |s| && s[|s| - |p|..] == p
  }

  predicate AllSpace(s: string) {
    forall i :: 0 <= i < |s| ==> IsSpace(s[i])
  }

  predicate HasNonSpace(s: string) {
    exists i :: 0 <= i < |s| && !IsSpace(s[i])
  }

  /** Neither end of s is whitespace (s may be empty). */
  predicate Stripped(s: string) {
    s == [] || (!IsSpace(s[0]) && !IsSpace(s[|s| - 1]))
  }

  /** s occurs as a contiguous piece of t */
  predicate IsInfix(s: string, t: string) {
    exists i :: 0 <= i <= |t| && StartsWith(t[i..], s)
  }

  /** A suffix is a piece of its string. */
  lemma SuffixInfix(s: string, k: nat)
    requires k <= |s|
    ensures IsInfix(s[k..], s)
  {
    assert StartsWith(s[k..], s[k..]);
  }

  /** Being a piece of is transitive. */
  lemma InfixTrans(a: string, b: string, c: string)
    requires IsInfix(a, b) && IsInfix(b, c)
    ensures IsInfix(a, c)
  {
    var i :| 0 <= i <= |b| && StartsWith(b[i..], a);
    var j :| 0 <= j <= |c| && StartsWith(c[j..], b);
    forall m | 0 <= m < |a| ensures c[j + i + m] == a[m] {
      assert b[i..][..|a|][m] == b[i + m];
      assert c[j..][..|b|][i + m] == c[j + i + m];
    }
    assert c[j + i..][..|a|] == a;
  }

  /** Every character of a piece is a character of the whole. */
  lemma InfixChars(a: string, b: string)
    requires IsInfix(a, b)
    ensures forall m :: 0 <= m < |a| ==> a[m] in b
  {
    var i :| 0 <= i <= |b| && StartsWith(b[i..], a);
    forall m | 0 <= m < |a| ensures a[m] in b {
      assert a[m] == b[i + m];
    }
  }

  /** str.lstrip() */
  function LStrip(s: string): (r: string)
    ensures |r| <= |s|
  {
    if |s| > 0 && IsSpace(s[0]) then LStrip(s[1..]) else s
  }

  /** str.rstrip() */
  function RStrip(s: string): (r: string)
    ensures |r| <= |s|
  {
    if |s| > 0 && IsSpace(s[|s| - 1]) then RStrip(s[..|s| - 1]) else s
  }

  /** str.strip() */
  function Strip(s: string): (r: string)
    ensures |r| <= |s|
  {
    LStrip(RStrip(s))
  }

  /** LStrip removes exactly the leading whitespace run. */
  lemma {:induction false} LStripFacts(s: string)
    ensures var r := LStrip(s);
            r == s[|s| - |r|..] && AllSpace(s[..|s| - |r|]) && (r == [] || !IsSpace(r[0]))
  {
    if |s| > 0 && IsSpace(s[0]) {
      LStripFacts(s[1..]);
      var r := LStrip(s);
      assert s[1..][|s| - 1 - |r|..] == s[|s| - |r|..];
      forall i | 0 <= i < |s| - |r| ensures IsSpace(s[i]) {
        if i > 0 { assert s[1..][..|s| - 1 - |r|][i - 1] == s[i]; }
      }
    }
  }

  /** RStrip removes exactly the trailing whitespace run. */
  lemma {:induction false} RStripFacts(s: string)
    ensures var r := RStrip(s);
            r == s[..|r|] && AllSpace(s[|r|..]) && (r == [] || !IsSpace(r[|r| - 1]))
  {
    if |s| > 0 && IsSpace(s[|s| - 1]) {
      var t := s[..|s| - 1];
      RStripFacts(t);
      var r := RStrip(s);
      assert t[..|r|] == s[..|r|];
      forall i | |r| <= i < |s| ensures IsSpace(s[i]) {
        if i < |s| - 1 { assert t[|r|..][i - |r|] == s[i]; }
      }
    }
  }

  /** Strip leaves a piece of s with no whitespace at either end, and it is
      empty exactly when s is all whitespace. */
  lemma StripFacts(s: string)
    ensures Stripped(Strip(s))
    ensures IsInfix(Strip(s), s)
    ensures Strip(s) == [] <==> AllSpace(s)
  {
    var t := RStrip(s);
    var r := LStrip(t);
    RStripFacts(s);
    LStripFacts(t);
    var i := |t| - |r|;
    assert r == s[i..][..|r|];
    assert StartsWith(s[i..], r);
    if r == [] {
      assert t[..|t|] == t;
      assert t == [];
      assert s[|t|..] == s;
    }
    if r != [] {
      assert r[|r| - 1] == t[|t| - 1];
    }
  }

  lemma StripOfStripped(s: string)
    requires Stripped(s)
    ensures Strip(s) == s
  {
  }

  /** RStrip only reaches into the last piece when that piece has a
      non-whitespace character. */
  lemma {:induction false} RStripAppend(a: string, b: string)
    requires HasNonSpace(b)
    ensures RStrip(a + b) == a + RStrip(b)
    decreases |b|
  {
    var k :| 0 <= k < |b| && !IsSpace(b[k]);
    if IsSpace(b[|b| - 1]) {
      assert (a + b)[..|a + b| - 1] == a + b[..|b| - 1];
      assert b[..|b| - 1][k] == b[k];
      RStripAppend(a, b[..|b| - 1]);
    }
  }

  /** LStrip leaves a string that starts with a non-whitespace character alone. */
  lemma LStripNonSpaceStart(s: string)
    requires |s| > 0 && !IsSpace(s[0])
    ensures LStrip(s) == s
  {
  }

  /** Python's sep.join(parts) */
  function Join(sep: string, parts: seq<string>): (r: string)
  {
    if |parts| == 0 then []
    else if |parts| == 1 then parts[0]
    else parts[0] + sep + Join(sep, parts[1..])
  }

  lemma JoinAppend(sep: string, parts: seq<string>, x: string)
    requires |parts| > 0
    ensures Join(sep, parts + [x]) == Join(sep, parts) + sep + x
  {
    if |parts| > 1 {
      assert (parts + [x])[1..] == parts[1..] + [x];
    }
  }

  lemma {:induction false} JoinConcat(sep: string, a: seq<string>, b: seq<string>)
    requires |a| > 0 && |b| > 0
    ensures Join(sep, a + b) == Join(sep, a) + sep + Join(sep, b)
  {
    var ab := a + b;
    assert ab[0] == a[0];
    if |a| == 1 {
      assert ab[1..] == b;
      assert Join(sep, ab) == a[0] + sep + Join(sep, b);
    } else {
      assert ab[1..] == a[1..] + b;
      JoinConcat(sep, a[1..], b);
      assert Join(sep, ab) == a[0] + sep + Join(sep, a[1..] + b);
      assert Join(sep, a) == a[0] + sep + Join(sep, a[1..]);
    }
  }

  /** Python's s.split(c) for a single character: the pieces between
      occurrences of any character satisfying isSep (always at least one). */
  function SplitWhere(s: string, isSep: char -> bool): (r: seq<string>)
    ensures |r| >= 1
  {
    if s == [] then [[]]
    else
      var rest := SplitWhere(s[1..], isSep);
      if isSep(s[0]) then [[]] + rest else [[s[0]] + rest[0]] + rest[1..]
  }

  /** Pieces of SplitWhere contain no separator, and joined together they
      are s with its separators removed. Where the cuts fall is stated by
      SplitWhereAt and SplitWhereNoSep. */
  lemma {:induction false} SplitWhereSpec(s: string, isSep: char -> bool)
    ensures forall k, i :: 0 <= k < |SplitWhere(s, isSep)| && 0 <= i < |SplitWhere(s, isSep)[k]|
                ==> !isSep(SplitWhere(s, isSep)[k][i])
    ensures Concat(SplitWhere(s, isSep)) == Remove(s, isSep)
  {
    if s != [] {
      var rest := SplitWhere(s[1..], isSep);
      SplitWhereSpec(s[1..], isSep);
      if !isSep(s[0]) {
        ConcatCons([s[0]] + rest[0], rest[1..]);
        ConcatCons(rest[0], rest[1..]);
        assert rest == [rest[0]] + rest[1..];
      } else {
        ConcatCons([], rest);
      }
    }
  }

  /** The pieces of SplitWhere are the maximal runs without a separator: there
      is more than one exactly when s has a separator, and the last piece is
      empty exactly when s is empty or ends with a separator. */
  lemma SplitWhereEnds(s: string, isSep: char -> bool)
    ensures |SplitWhere(s, isSep)| > 1 <==> exists i :: 0 <= i < |s| && isSep(s[i])
    ensures var r := SplitWhere(s, isSep);
            r[|r| - 1] == [] <==> (s == [] || isSep(s[|s| - 1]))
  {
    SplitWhereMany(s, isSep);
    SplitWhereLast(s, isSep);
  }

  /** There is more than one piece exactly when s holds a separator. */
  lemma {:induction false} SplitWhereMany(s: string, isSep: char -> bool)
    ensures |SplitWhere(s, isSep)| > 1 <==> exists i :: 0 <= i < |s| && isSep(s[i])
  {
    if s != [] {
      SplitWhereMany(s[1..], isSep);
      if exists i :: 0 <= i < |s[1..]| && isSep(s[1..][i]) {
        var i :| 0 <= i < |s[1..]| && isSep(s[1..][i]);
        assert isSep(s[i + 1]);
      }
      if exists i :: 0 <= i < |s| && isSep(s[i]) {
        var i :| 0 <= i < |s| && isSep(s[i]);
        if i > 0 { assert isSep(s[1..][i - 1]); }
      }
    }
  }

  /** The last piece is empty exactly when s is empty or ends with a
      separator. */
  lemma {:induction false} SplitWhereLast(s: string, isSep: char -> bool)
    ensures var r := SplitWhere(s, isSep);
            r[|r| - 1] == [] <==> (s == [] || isSep(s[|s| - 1]))
  {
    if s != [] {
      SplitWhereLast(s[1..], isSep);
      if |s| > 1 { assert s[1..][|s| - 2] == s[|s| - 1]; }
    }
  }

  lemma {:induction false} SplitWhereNoSep(s: string, isSep: char -> bool)
    requires forall i :: 0 <= i < |s| ==> !isSep(s[i])
    ensures SplitWhere(s, isSep) == [s]
  {
    if s != [] {
      assert forall i :: 0 <= i < |s[1..]| ==> !isSep(s[1..][i]) by {
        forall i | 0 <= i < |s[1..]| ensures !isSep(s[1..][i]) {
          assert s[1..][i] == s[i + 1];
        }
      }
      SplitWhereNoSep(s[1..], isSep);
      var rest := SplitWhere(s[1..], isSep);
      assert !isSep(s[0]);
      assert rest[0] == s[1..] && rest[1..] == [];
      assert [s[0]] + s[1..] == s;
    }
  }

  /** Splitting at the first separator. */
  lemma {:induction false} SplitWhereAt(p: string, c: char, q: string, isSep: char -> bool)
    requires forall i :: 0 <= i < |p| ==> !isSep(p[i])
    requires isSep(c)
    ensures SplitWhere(p + [c] + q, isSep) == [p] + SplitWhere(q, isSep)
  {
    if p == [] {
      assert (p + [c] + q)[1..] == q;
    } else {
      assert (p + [c] + q)[0] == p[0];
      assert (p + [c] + q)[1..] == p[1..] + [c] + q;
      assert forall i :: 0 <= i < |p[1..]| ==> !isSep(p[1..][i]) by {
        forall i | 0 <= i < |p[1..]| ensures !isSep(p[1..][i]) {
          assert p[1..][i] == p[i + 1];
        }
      }
      SplitWhereAt(p[1..], c, q, isSep);
      var rest := SplitWhere(p[1..] + [c] + q, isSep);
      assert rest == [p[1..]] + SplitWhere(q, isSep);
      assert !isSep(p[0]);
      assert SplitWhere(p + [c] + q, isSep) == [[p[0]] + rest[0]] + rest[1..];
      assert [p[0]] + p[1..] == p;
    }
  }

  /** The non-empty members of parts, in order. */
  function NonEmpty(parts: seq<string>): (r: seq<string>)
    ensures |r| <= |parts|
    ensures forall k :: 0 <= k < |r| ==> r[k] != []
  {
    if parts == [] then []
    else if parts[0] == [] then NonEmpty(parts[1..])
    else [parts[0]] + NonEmpty(parts[1..])
  }

  /** The characters of the class [\s,] */
  predicate IsSpaceOrComma(c: char) {
    IsSpace(c) || c == ','
  }

  /** [p for p in re.split(r"[\s,]+", s) if p]: splitting on single separator
      characters and dropping the empty pieces gives the same list as splitting
      on separator runs. */
  function Tokens(s: string): (r: seq<string>)
    ensures forall k :: 0 <= k < |r| ==> r[k] != []
  {
    NonEmpty(SplitWhere(s, IsSpaceOrComma))
  }

  /** Where one token ends and the next begins: a separator-free p before a
      separator is a token of its own (none when p is empty), and the tokens
      of the rest follow it ... */
  lemma TokensSplit(p: string, c: char, q: string)
    requires forall i :: 0 <= i < |p| ==> !IsSpaceOrComma(p[i])
    requires IsSpaceOrComma(c)
    ensures Tokens(p + [c] + q) == (if p == [] then [] else [p]) + Tokens(q)
  {
    SplitWhereAt(p, c, q, IsSpaceOrComma);
    var rest := SplitWhere(q, IsSpaceOrComma);
    assert ([p] + rest)[0] == p && ([p] + rest)[1..] == rest;
    if p == [] {
      assert [] + NonEmpty(rest) == NonEmpty(rest);
    }
  }

  /** ... and a text without separators is one token, or none when empty. */
  lemma TokensWhole(p: string)
    requires forall i :: 0 <= i < |p| ==> !IsSpaceOrComma(p[i])
    ensures Tokens(p) == if p == [] then [] else [p]
  {
    SplitWhereNoSep(p, IsSpaceOrComma);
    assert [p][1..] == [];
  }

  function Concat(parts: seq<string>): string {
    if parts == [] then [] else parts[0] + Concat(parts[1..])
  }

  lemma ConcatCons(x: string, xs: seq<string>)
    ensures Concat([x] + xs) == x + Concat(xs)
  {
    assert ([x] + xs)[1..] == xs;
  }

  /** s with every character satisfying drop removed */
  function Remove(s: string, drop: char -> bool): string {
    if s == [] then [] else (if drop(s[0]) then [] else [s[0]]) + Remove(s[1..], drop)
  }

  function Filter(s: string, keep: char -> bool): string {
    if s == [] then [] else (if keep(s[0]) then [s[0]] else []) + Filter(s[1..], keep)
  }

  lemma {:induction false} FilterAppend(a: string, b: string, keep: char -> bool)
    ensures Filter(a + b, keep) == Filter(a, keep) + Filter(b, keep)
  {
    if a != [] {
      assert (a + b)[0] == a[0];
      assert (a + b)[1..] == a[1..] + b;
      FilterAppend(a[1..], b, keep);
      var h := if keep(a[0]) then [a[0]] else [];
      assert Filter(a + b, keep) == h + Filter(a[1..] + b, keep);
      assert h + (Filter(a[1..], keep) + Filter(b, keep)) == (h + Filter(a[1..], keep)) + Filter(b, keep);
    } else {
      assert a + b == b;
    }
  }

  /** Index of the first occurrence of c in s, or |s| when there is none. */
  function IndexOf(s: string, c: char): (r: nat)
    ensures r <= |s|
    ensures r < |s| ==> s[r] == c
    ensures forall i :: 0 <= i < r ==> s[i] != c
  {
    if s == [] then 0 else if s[0] == c then 0 else 1 + IndexOf(s[1..], c)
  }

  /** IndexOf finds the first occurrence. */
  lemma {:induction false} IndexOfPast(p: string, c: char, q: string)
    requires forall i :: 0 <= i < |p| ==> p[i] != c
    ensures IndexOf(p + [c] + q, c) == |p|
    decreases |p|
  {
    if p != [] {
      assert (p + [c] + q)[1..] == p[1..] + [c] + q;
      IndexOfPast(p[1..], c, q);
    }
  }

  /** Lower-casing twice is lower-casing once. */
  lemma LowerIdempotent(s: string)
    ensures Lower(Lower(s)) == Lower(s)
  {
    forall i | 0 <= i < |s| ensures LowerChar(LowerChar(s[i])) == LowerChar(s[i]) {
    }
  }

  /** Text without capitals is its own lower-case form. */
  lemma LowerOfLower(s: string)
    requires forall i :: 0 <= i < |s| ==> !('A' <= s[i] <= 'Z')
    ensures Lower(s) == s
  {
  }

  /** IndexOf is the position of the first occurrence. */
  lemma IndexOfIs(s: string, c: char, k: nat)
    requires k < |s| && s[k] == c && forall i :: 0 <= i < k ==> s[i] != c
    ensures IndexOf(s, c) == k
  {
  }

  function DigitChar(d: nat): char
    requires d < 10
  {
    "0123456789"[d]
  }

  /** Python's str() of a non-negative int */
  function NatToString(n: nat): (r: string)
    ensures |r| >= 1
  {
    if n < 10 then [DigitChar(n)] else NatToString(n / 10) + [DigitChar(n % 10)]
  }

  /** Python's str() of an int */
  function IntToString(i: int): (r: string)
    ensures |r| >= 1
  {
    if i < 0 then "-" + NatToString(-i) else NatToString(i)
  }
}
