/** Person labels: is_internal_email, format_person_link and
    format_recipients (renderer.py; the monolith has identical copies). The
    allowed domains are a parameter: the code reads them from
    INTERNAL_EMAIL_DOMAINS through internal_domains(), modelled in Config. */
module People {
  import opened Text
  import opened Mail

  /** The text before the first '@' (all of s when there is none):
      s.split("@", 1)[0] */
  function LocalPart(s: string): (r: string)
    ensures |r| <= |s|
  {
    s[..IndexOf(s, '@')]
  }

  /** The lower-cased text after the first '@': s.split("@", 1)[1].lower() */
  function DomainPart(s: string): string
    requires IndexOf(s, '@') < |s|
  {
    Lower(s[IndexOf(s, '@') + 1..])
  }

  /** domain == allowed or domain.endswith("." + allowed) */
  predicate DomainMatches(domain: string, allowed: string) {
    domain == allowed || EndsWith(domain, "." + allowed)
  }

  /** The meaning of is_internal_email: a non-empty address with an '@' whose
      domain is one of the allowed domains or a sub-domain of one. */
  predicate Internal(address: Option<string>, domains: seq<string>) {
    var a := OrEmpty(address);
    a != [] && IndexOf(a, '@') < |a|
    && exists k :: 0 <= k < |domains| && DomainMatches(DomainPart(a), domains[k])
  }

  /** is_internal_email: the loop over the allowed domains, returning at the
      first one that matches. */
  method IsInternalEmail(address: Option<string>, domains: seq<string>) returns (internal: bool)
    ensures internal == Internal(address, domains)
  {
    var a := OrEmpty(address);
    if a == [] || IndexOf(a, '@') == |a| {
      return false;
    }
    var domain := DomainPart(a);
    for k := 0 to |domains|
      invariant forall j :: 0 <= j < k ==> !DomainMatches(domain, domains[j])
    {
      if domain == domains[k] || EndsWith(domain, "." + domains[k]) {
        return true;
      }
    }
    return false;
  }

  /** An address local + "@" + domain, with no '@' in local, is internal
      exactly when its lower-cased domain matches an allowed one. */
  lemma InternalAddress(local: string, domain: string, domains: seq<string>)
    requires forall i :: 0 <= i < |local| ==> local[i] != '@'
    ensures Internal(Some(local + "@" + domain), domains)
            <==> exists k :: 0 <= k < |domains| && DomainMatches(Lower(domain), domains[k])
  {
    IndexOfPast(local, '@', domain);
    var a := local + "@" + domain;
    assert a[|local| + 1..] == domain;
  }

  /** An allowed domain admits itself ... */
  lemma SameDomainInternal(a: string, domains: seq<string>)
    requires a == "a.b@corp.com" && domains == ["corp.com"]
    ensures Internal(Some(a), domains)
  {
    DomainExample("a.b", "corp.com", a, domains);
    assert Lower("corp.com") == "corp.com";
  }

  /** ... and its sub-domains ... */
  lemma SubDomainInternal(b: string, domains: seq<string>)
    requires b == "a.b" + "@" + ("mail" + "." + "corp.com") && domains == ["corp.com"]
    ensures Internal(Some(b), domains)
  {
    var sub := "mail" + "." + "corp.com";
    LowerOfLower(sub);
    SubDomainMatches("mail", "corp.com");
    DomainExample("a.b", sub, b, domains);
  }

  /** Any name followed by a dot and an allowed domain is a sub-domain of it. */
  lemma SubDomainMatches(name: string, allowed: string)
    ensures DomainMatches(name + "." + allowed, allowed)
  {
    var d := name + "." + allowed;
    forall i | 0 <= i <= |allowed| ensures d[|name| + i] == ("." + allowed)[i] {
      if i > 0 {
        assert d[|name| + i] == allowed[i - 1];
      }
    }
    assert d[|d| - |allowed| - 1..] == "." + allowed;
  }

  /** ... whatever the case of the domain: an address is internal exactly
      when its lower-cased form is ... */
  lemma DomainCaseIgnored(local: string, domain: string, domains: seq<string>)
    requires forall i :: 0 <= i < |local| ==> local[i] != '@'
    ensures Internal(Some(local + "@" + domain), domains)
            <==> Internal(Some(local + "@" + Lower(domain)), domains)
  {
    InternalAddress(local, domain, domains);
    InternalAddress(local, Lower(domain), domains);
    LowerIdempotent(domain);
  }

  /** ... but not a domain that merely ends with the same letters. */
  lemma LookalikeDomainExternal(d: string, domains: seq<string>)
    requires d == "a.b" + "@" + ("not" + "corp.com") && domains == ["corp.com"]
    ensures !Internal(Some(d), domains)
  {
    var lookalike := "not" + "corp.com";
    LowerOfLower(lookalike);
    NoDotBefore("not", "corp.com");
    DomainExample("a.b", lookalike, d, domains);
  }

  /** A domain that ends with an allowed one without a dot before it does
      not match it. */
  lemma NoDotBefore(name: string, allowed: string)
    requires name != [] && name[|name| - 1] != '.'
    ensures !DomainMatches(name + allowed, allowed)
  {
    var d := name + allowed;
    assert d[|d| - |allowed| - 1..][0] == d[|name| - 1] == name[|name| - 1];
  }

  lemma DomainExample(local: string, domain: string, address: string, domains: seq<string>)
    requires forall i :: 0 <= i < |local| ==> local[i] != '@'
    requires address == local + "@" + domain && |domains| == 1
    ensures Internal(Some(address), domains) <==> DomainMatches(Lower(domain), domains[0])
  {
    InternalAddress(local, domain, domains);
  }

  /** A missing address, an empty one and one without '@' are never internal. */
  lemma NotInternalWithoutAt(address: Option<string>, domains: seq<string>)
    requires forall i :: 0 <= i < |OrEmpty(address)| ==> OrEmpty(address)[i] != '@'
    ensures !Internal(address, domains)
  {
  }

  predicate IsDot(c: char) {
    c == '.'
  }

  /** The label format_person_link builds for an internal address whose
      display text has fewer than two tokens, or IndexError when the local
      part has a dot and ends with one. */
  function LocalPartLabel(local: string): (r: Result<string>)
  {
    var pieces := SplitWhere(local, IsDot);
    if |pieces| > 1 && pieces[|pieces| - 1] == [] then Err(IndexError)
    else
      var initial := if |pieces| > 1 then [UpperChar(pieces[|pieces| - 1][0])] else [];
      Ok(Strip(Capitalize(pieces[0]) + " " + initial))
  }

  /** The link format_person_link builds for an internal address e, the
      stripped name being n. */
  function InternalLink(n: string, e: string): (r: Result<string>)
  {
    var local := LocalPart(e);
    var display := if n != [] then n else local;
    var parts := Tokens(display);
    if |parts| >= 2 then
      Ok("[[" + Capitalize(parts[0]) + " " + [UpperChar(parts[|parts| - 1][0])] + "]]")
    else
      match LocalPartLabel(local)
      case Err(f) => Err(f)
      case Ok(text) => Ok("[[" + (if text != [] then text else local) + "]]")
  }

  /** The text format_person_link returns for an address that is not internal. */
  function ExternalLabel(n: string, e: string): string {
    if n != [] && e != [] && Lower(n) != Lower(e) then n + " (" + e + ")"
    else if n != [] then n
    else if e != [] then e
    else "Unknown"
  }

  /** format_person_link */
  function FormatPersonLink(name: Option<string>, email: Option<string>, domains: seq<string>): (r: Result<string>)
    ensures r.Err? ==> r.failure == IndexError && Internal(Some(Strip(OrEmpty(email))), domains)
  {
    var n := Strip(OrEmpty(name));
    var e := Strip(OrEmpty(email));
    if Internal(Some(e), domains) then InternalLink(n, e) else Ok(ExternalLabel(n, e))
  }

  /** An internal address gives a [[...]] link whenever the call succeeds. */
  lemma InternalIsLink(name: Option<string>, email: Option<string>, domains: seq<string>)
    requires Internal(Some(Strip(OrEmpty(email))), domains)
    requires FormatPersonLink(name, email, domains).Ok?
    ensures var v := FormatPersonLink(name, email, domains).value;
            StartsWith(v, "[[") && EndsWith(v, "]]")
  {
  }

  /** The only failure: an internal address whose display text has fewer than
      two tokens and whose local part ends with a dot ("jane.@corp.com"), where
      parts[-1][0] indexes an empty string. */
  lemma PersonLinkFails(name: Option<string>, email: Option<string>, domains: seq<string>)
    ensures var n := Strip(OrEmpty(name));
            var e := Strip(OrEmpty(email));
            var local := LocalPart(e);
            FormatPersonLink(name, email, domains).Err?
            <==> Internal(Some(e), domains)
                 && |Tokens(if n != [] then n else local)| < 2
                 && local != [] && local[|local| - 1] == '.'
  {
    LocalPartFails(LocalPart(Strip(OrEmpty(email))));
  }

  /** The local part's label fails exactly when the local part ends with a
      dot. */
  lemma LocalPartFails(local: string)
    ensures LocalPartLabel(local).Err? <==> local != [] && local[|local| - 1] == '.'
  {
    SplitWhereEnds(local, IsDot);
    if local != [] && local[|local| - 1] == '.' {
      assert IsDot(local[|local| - 1]);
      assert exists i :: 0 <= i < |local| && IsDot(local[i]);
    }
  }

  /** An address that is not internal gets the plain rule: the name first
      (with the address in parentheses exactly when both are present and differ
      ignoring case), else the address, else "Unknown". */
  lemma ExternalPerson(name: Option<string>, email: Option<string>, domains: seq<string>)
    requires !Internal(Some(Strip(OrEmpty(email))), domains)
    ensures var n := Strip(OrEmpty(name));
            var e := Strip(OrEmpty(email));
            var r := FormatPersonLink(name, email, domains);
            r.Ok? && r.value != []
            && (n != [] ==> StartsWith(r.value, n))
            && (n != [] && !(e != [] && Lower(n) != Lower(e)) ==> r.value == n)
            && (n == [] ==> r.value == if e != [] then e else "Unknown")
            && (r.value == n + " (" + e + ")" <==> n != [] && e != [] && Lower(n) != Lower(e))
  {
  }

  /** An address at corp.com is internal when corp.com is the allowed
      domain, and its local part is the text before the '@'. */
  lemma CorpAddress(local: string)
    requires forall i :: 0 <= i < |local| ==> local[i] != '@'
    ensures var e := local + "@" + "corp.com";
            Internal(Some(e), ["corp.com"]) && LocalPart(e) == local
            && (local != [] && !IsSpace(local[0]) ==> Strip(e) == e)
  {
    var e := local + "@" + "corp.com";
    IndexOfPast(local, '@', "corp.com");
    LowerOfLower("corp.com");
    InternalAddress(local, "corp.com", ["corp.com"]);
    assert DomainMatches("corp.com", ["corp.com"][0]);
    assert e[..|local|] == local;
    if local != [] && !IsSpace(local[0]) {
      assert e[0] == local[0] && e[|e| - 1] == 'm';
      StripOfStripped(e);
    }
  }

  /** "Jane Doe" <jane.doe@corp.com> is linked as [[Jane D]]. */
  lemma JaneDoeLink(name: string, email: string)
    requires name == "Jane Doe" && email == "jane.doe" + "@" + "corp.com"
    ensures FormatPersonLink(Some(name), Some(email), ["corp.com"]) == Ok("[[Jane D]]")
  {
    CorpAddress("jane.doe");
    StripOfStripped(name);
    JaneDoeTokens(name);
    JaneDoeLabel(name, email);
  }

  lemma JaneDoeLabel(name: string, email: string)
    requires name == "Jane Doe" && Tokens(name) == ["Jane", "Doe"]
    ensures InternalLink(name, email) == Ok("[[Jane D]]")
  {
    assert Capitalize("Jane") == "Jane";
    assert UpperChar("Doe"[0]) == 'D';
    assert "[[" + "Jane" + " " + ['D'] + "]]" == "[[Jane D]]";
  }

  lemma JaneDoeTokens(name: string)
    requires name == "Jane Doe"
    ensures Tokens(name) == ["Jane", "Doe"]
  {
    assert name == "Jane" + [' '] + "Doe";
    SplitWhereAt("Jane", ' ', "Doe", IsSpaceOrComma);
    SplitWhereNoSep("Doe", IsSpaceOrComma);
    assert NonEmpty(["Jane", "Doe"]) == ["Jane", "Doe"] by {
      assert ["Jane", "Doe"][1..] == ["Doe"];
    }
  }

  /** With no name and an empty local part the label is empty: "@corp.com"
      becomes "[[]]". */
  lemma EmptyLocalPartLink(email: string)
    requires email == [] + "@" + "corp.com"
    ensures FormatPersonLink(None, Some(email), ["corp.com"]) == Ok("[[]]")
  {
    CorpAddress([]);
    assert email[0] == '@' && email[|email| - 1] == 'm';
    StripOfStripped(email);
    EmptyLocalLabel(email);
  }

  lemma EmptyLocalLabel(email: string)
    requires LocalPart(email) == []
    ensures InternalLink([], email) == Ok("[[]]")
  {
    assert Tokens([]) == [];
    assert SplitWhere([], IsDot) == [[]];
    assert Strip(Capitalize([]) + " " + []) == [];
    assert LocalPartLabel([]) == Ok([]);
    assert "[[" + [] + "]]" == "[[]]";
  }

  /** "jane.@corp.com" without a name raises IndexError. */
  lemma TrailingDotFails(email: string)
    requires email == "jane." + "@" + "corp.com"
    ensures FormatPersonLink(None, Some(email), ["corp.com"]) == Err(IndexError)
  {
    var local := "jane.";
    assert email == local + "@" + "corp.com";
    assert local[0] == 'j' && local[|local| - 1] == '.';
    assert forall i :: 0 <= i < |local| ==> local[i] != '@' && !IsSpaceOrComma(local[i]);
    NoNameTrailingDot(local);
  }

  /** An internal address without a name, whose local part is one token
      ending with a dot, raises IndexError. */
  lemma NoNameTrailingDot(local: string)
    requires local != [] && !IsSpace(local[0]) && local[|local| - 1] == '.'
    requires forall i :: 0 <= i < |local| ==> local[i] != '@' && !IsSpaceOrComma(local[i])
    ensures FormatPersonLink(None, Some(local + "@" + "corp.com"), ["corp.com"]) == Err(IndexError)
  {
    var email := local + "@" + "corp.com";
    CorpAddress(local);
    TokensWhole(local);
    PersonLinkFails(None, Some(email), ["corp.com"]);
  }

  /** A "[[...]]" result does not mean the address was internal: an external
      sender whose display name is itself bracketed keeps that name. */
  lemma BracketedNameIsNotInternal(name: string)
    requires name == "[[Boss]]"
    ensures !Internal(Some(Strip(OrEmpty(None))), ["corp.com"])
    ensures FormatPersonLink(Some(name), None, ["corp.com"]) == Ok("[[Boss]]")
  {
    StripOfStripped(name);
  }

  /** The link of one recipient, from its stripped name and address. */
  function RecipientLink(rec: Recipient, domains: seq<string>): Result<string> {
    FormatPersonLink(Some(Strip(OrEmpty(rec.name))), Some(Strip(OrEmpty(rec.address))), domains)
  }

  /** The value of every result, or the failure of the first that failed. */
  function Collect(links: seq<Result<string>>): (r: Result<seq<string>>)
    ensures r.Ok? ==> |r.value| == |links| && forall k :: 0 <= k < |links| ==> links[k] == Ok(r.value[k])
    ensures r.Err? ==> exists k :: 0 <= k < |links| && links[k] == Err(r.failure)
  {
    if links == [] then Ok([])
    else
      match links[0]
      case Err(f) => Err(f)
      case Ok(first) =>
        var rest := Collect(links[1..]);
        match rest
        case Err(f) =>
          var k :| 0 <= k < |links[1..]| && links[1..][k] == Err(f);
          assert links[k + 1] == Err(f);
          Err(f)
        case Ok(values) => Ok([first] + values)
  }

  /** Results that all succeed collect to their values ... */
  lemma {:induction false} CollectAllOk(links: seq<Result<string>>, values: seq<string>)
    requires |values| == |links| && forall k :: 0 <= k < |links| ==> links[k] == Ok(values[k])
    ensures Collect(links) == Ok(values)
  {
    if links != [] {
      CollectAllOk(links[1..], values[1..]);
      assert values == [values[0]] + values[1..];
    }
  }

  /** One more successful result extends the values collected so far. */
  lemma OkPrefixExtend(links: seq<Result<string>>, values: seq<string>, v: string)
    requires |values| < |links| && links[|values|] == Ok(v)
    requires forall j :: 0 <= j < |values| ==> links[j] == Ok(values[j])
    ensures forall j :: 0 <= j < |values| + 1 ==> links[j] == Ok((values + [v])[j])
  {
  }

  /** ... and otherwise to the failure of the first that fails. */
  lemma {:induction false} CollectFirstFailure(links: seq<Result<string>>, k: nat)
    requires k < |links| && links[k].Err?
    requires forall j :: 0 <= j < k ==> links[j].Ok?
    ensures Collect(links) == Err(links[k].failure)
  {
    if k > 0 {
      CollectFirstFailure(links[1..], k - 1);
    }
  }

  /** The links of the recipients, in order */
  function Links(recipients: seq<Recipient>, domains: seq<string>): (r: seq<Result<string>>)
    ensures |r| == |recipients| && forall k :: 0 <= k < |recipients| ==> r[k] == RecipientLink(recipients[k], domains)
  {
    seq(|recipients|, k requires 0 <= k < |recipients| => RecipientLink(recipients[k], domains))
  }

  /** format_recipients without the final join: one label per recipient, in
      order, or the first failure. */
  function RecipientLabels(recipients: seq<Recipient>, domains: seq<string>): (r: Result<seq<string>>)
    ensures r.Ok? ==> |r.value| == |recipients|
                      && forall k :: 0 <= k < |recipients| ==> RecipientLink(recipients[k], domains) == Ok(r.value[k])
    ensures r.Err? ==> exists k :: 0 <= k < |recipients| && RecipientLink(recipients[k], domains) == Err(r.failure)
  {
    Collect(Links(recipients, domains))
  }

  /** Every link format_person_link returns is non-empty and starts with a
      visible character; its only failure is IndexError. */
  lemma PersonLinkNonEmpty(name: Option<string>, email: Option<string>, domains: seq<string>)
    ensures var r := FormatPersonLink(name, email, domains);
            (r.Ok? ==> r.value != [] && !IsSpace(r.value[0]))
            && (r.Err? ==> r.failure == IndexError)
  {
    var n := Strip(OrEmpty(name));
    var e := Strip(OrEmpty(email));
    if Internal(Some(e), domains) {
      InternalLinkShape(n, e);
    } else {
      StripFacts(OrEmpty(name));
      StripFacts(OrEmpty(email));
      ExternalLabelShape(n, e);
    }
  }

  lemma InternalLinkShape(n: string, e: string)
    ensures var r := InternalLink(n, e);
            (r.Ok? ==> |r.value| >= 2 && r.value[0] == '[') && (r.Err? ==> r.failure == IndexError)
  {
  }

  lemma ExternalLabelShape(n: string, e: string)
    requires Stripped(n) && Stripped(e)
    ensures ExternalLabel(n, e) != [] && !IsSpace(ExternalLabel(n, e)[0])
  {
    if n != [] {
      assert ExternalLabel(n, e)[0] == n[0];
    } else if e != [] {
      assert ExternalLabel(n, e)[0] == e[0];
    }
  }

  /** format_recipients fails only with IndexError. */
  lemma RecipientsFailure(recipients: seq<Recipient>, domains: seq<string>)
    ensures RecipientLabels(recipients, domains).Err? ==> RecipientLabels(recipients, domains).failure == IndexError
  {
    var r := RecipientLabels(recipients, domains);
    if r.Err? {
      var k :| 0 <= k < |recipients| && Links(recipients, domains)[k] == Err(r.failure);
      var rec := recipients[k];
      PersonLinkNonEmpty(Some(Strip(OrEmpty(rec.name))), Some(Strip(OrEmpty(rec.address))), domains);
    }
  }

  /** format_recipients: the loop appending one link per recipient, then
      ", ".join. */
  method FormatRecipients(recipients: seq<Recipient>, domains: seq<string>) returns (r: Result<string>)
    ensures RecipientLabels(recipients, domains).Err? ==> r == Err(RecipientLabels(recipients, domains).failure)
    ensures RecipientLabels(recipients, domains).Ok? ==> r == Ok(Join(", ", RecipientLabels(recipients, domains).value))
  {
    var parts: seq<string> := [];
    for k := 0 to |recipients|
      invariant |parts| == k
      invariant forall j :: 0 <= j < k ==> Links(recipients, domains)[j] == Ok(parts[j])
    {
      var rec := recipients[k];
      var link := FormatPersonLink(Some(Strip(OrEmpty(rec.name))), Some(Strip(OrEmpty(rec.address))), domains);
      assert link == Links(recipients, domains)[k];
      if link.Err? {
        CollectFirstFailure(Links(recipients, domains), k);
        return Err(link.failure);
      }
      OkPrefixExtend(Links(recipients, domains), parts, link.value);
      parts := parts + [link.value];
    }
    CollectAllOk(Links(recipients, domains), parts);
    return Ok(Join(", ", parts));
  }

  /** The recipient line is empty exactly when there are no recipients: every
      link is non-empty, so the join of a non-empty list is too. */
  lemma RecipientsEmptyIff(recipients: seq<Recipient>, domains: seq<string>)
    requires RecipientLabels(recipients, domains).Ok?
    ensures Join(", ", RecipientLabels(recipients, domains).value) == [] <==> recipients == []
  {
    if recipients != [] {
      var rec := recipients[0];
      var values := RecipientLabels(recipients, domains).value;
      assert Links(recipients, domains)[0] == Ok(values[0]);
      PersonLinkNonEmpty(Some(Strip(OrEmpty(rec.name))), Some(Strip(OrEmpty(rec.address))), domains);
      assert values[0] != [];
    }
  }
}
