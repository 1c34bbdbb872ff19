/** The category bookkeeping of graph.py: which messages carry the trigger
    category (the local filter of fetch_categorized_messages) and the
    category list mark_message_processed sends back. */
module Graph {
  import opened Text
  import opened Mail

  const DefaultTrigger := "AI Summarize"
  const DefaultProcessed := "AI Summarized"

  // --------------------------------------------------------- label update

  /** [c for c in categories if c != drop] */
  function Without(categories: seq<string>, drop: string): (r: seq<string>)
    ensures |r| <= |categories|
  {
    if categories == [] then []
    else if categories[0] != drop then [categories[0]] + Without(categories[1..], drop)
    else Without(categories[1..], drop)
  }

  /** The category list mark_message_processed sends: the trigger removed,
      the processed drop appended unless it is already there. */
  function UpdatedCategories(categories: seq<string>, trigger: string, processed: string): (r: seq<string>)
    ensures processed in r && |r| <= |categories| + 1
  {
    var kept := Without(categories, trigger);
    if processed in kept then kept else kept + [processed]
  }

  /** mark_message_processed: the comprehension, then the conditional append. */
  method MarkProcessed(categories: seq<string>, trigger: string, processed: string)
    returns (updated: seq<string>)
    ensures updated == UpdatedCategories(categories, trigger, processed)
  {
    updated := [];
    for k := 0 to |categories|
      invariant updated == Without(categories[..k], trigger)
    {
      WithoutAppend(categories[..k], [categories[k]], trigger);
      assert categories[..k + 1] == categories[..k] + [categories[k]];
      if categories[k] != trigger {
        updated := updated + [categories[k]];
      }
    }
    assert categories[..|categories|] == categories;
    if processed !in updated {
      updated := updated + [processed];
    }
  }

  lemma {:induction false} WithoutAppend(a: seq<string>, b: seq<string>, drop: string)
    ensures Without(a + b, drop) == Without(a, drop) + Without(b, drop)
  {
    if a != [] {
      assert (a + b)[0] == a[0];
      assert (a + b)[1..] == a[1..] + b;
      WithoutAppend(a[1..], b, drop);
    } else {
      assert a + b == b;
    }
  }

  /** Without keeps exactly the entries that differ from the drop ... */
  lemma {:induction false} WithoutMember(categories: seq<string>, drop: string, x: string)
    ensures x in Without(categories, drop) <==> x in categories && x != drop
  {
    if categories != [] {
      WithoutMember(categories[1..], drop, x);
      assert categories == [categories[0]] + categories[1..];
    }
  }

  /** ... each as often as before ... */
  lemma {:induction false} WithoutCount(categories: seq<string>, drop: string, x: string)
    requires x != drop
    ensures multiset(Without(categories, drop))[x] == multiset(categories)[x]
  {
    if categories != [] {
      WithoutCount(categories[1..], drop, x);
      assert categories == [categories[0]] + categories[1..];
    }
  }

  /** ... and a list without the drop comes through unchanged. */
  lemma {:induction false} WithoutAbsent(categories: seq<string>, drop: string)
    requires drop !in categories
    ensures Without(categories, drop) == categories
  {
    if categories != [] {
      assert categories == [categories[0]] + categories[1..];
      WithoutAbsent(categories[1..], drop);
    }
  }

  /** Removing two labels in either order gives the same list. */
  lemma {:induction false} WithoutCommutes(categories: seq<string>, a: string, b: string)
    ensures Without(Without(categories, a), b) == Without(Without(categories, b), a)
  {
    if categories != [] {
      WithoutCommutes(categories[1..], a, b);
    }
  }

  /** After the update the trigger is gone (unless it is the processed drop
      itself) and the processed drop is there, appended at the end exactly
      when it was not already kept. */
  lemma UpdateLabels(categories: seq<string>, trigger: string, processed: string)
    ensures var r := UpdatedCategories(categories, trigger, processed);
            && processed in r
            && (trigger != processed ==> trigger !in r)
            && (processed in categories && processed != trigger ==> r == Without(categories, trigger))
            && ((processed !in categories || processed == trigger) ==>
                  r == Without(categories, trigger) + [processed])
  {
    WithoutMember(categories, trigger, processed);
    WithoutMember(categories, trigger, trigger);
    var kept := Without(categories, trigger);
    if processed !in kept {
      assert (kept + [processed])[|kept|] == processed;
    }
  }

  /** Nothing else changes: every other category keeps its place in the
      order and its number of occurrences, and nothing else is added. */
  lemma UpdateKeepsOthers(categories: seq<string>, trigger: string, processed: string)
    ensures Without(UpdatedCategories(categories, trigger, processed), processed)
            == Without(Without(categories, trigger), processed)
    ensures forall x :: x != trigger && x != processed ==>
              multiset(UpdatedCategories(categories, trigger, processed))[x] == multiset(categories)[x]
  {
    var kept := Without(categories, trigger);
    if processed !in kept {
      WithoutAppend(kept, [processed], processed);
      assert Without([processed], processed) == [];
      assert kept + [] == kept;
    }
    forall x | x != trigger && x != processed
      ensures multiset(UpdatedCategories(categories, trigger, processed))[x] == multiset(categories)[x]
    {
      WithoutCount(categories, trigger, x);
    }
  }

  /** Marking a message twice sends the same list as marking it once. */
  lemma UpdateIdempotent(categories: seq<string>, trigger: string, processed: string)
    ensures UpdatedCategories(UpdatedCategories(categories, trigger, processed), trigger, processed)
            == UpdatedCategories(categories, trigger, processed)
  {
    var r := UpdatedCategories(categories, trigger, processed);
    var kept := Without(categories, trigger);
    UpdateLabels(categories, trigger, processed);
    if trigger != processed {
      WithoutAbsent(r, trigger);
    } else {
      WithoutMember(categories, trigger, trigger);
      assert r == kept + [trigger];
      WithoutAppend(kept, [trigger], trigger);
      WithoutAbsent(kept, trigger);
      assert Without([trigger], trigger) == [];
      assert kept + [] == kept;
    }
  }

  // --------------------------------------------------------- local filter

  /** any(cat.strip() == trigger for cat in categories) */
  predicate Tagged(categories: seq<string>, trigger: string) {
    exists k :: 0 <= k < |categories| && Strip(categories[k]) == trigger
  }

  /** The candidates that carry the trigger category, in order */
  function LocalMatches(candidates: seq<Message>, trigger: string): (r: seq<Message>)
    ensures |r| <= |candidates|
  {
    if candidates == [] then []
    else if Tagged(candidates[0].categories, trigger) then
      [candidates[0]] + LocalMatches(candidates[1..], trigger)
    else LocalMatches(candidates[1..], trigger)
  }

  /** What fetch_categorized_messages returns, given the messages the
      filtered request found and the recent messages the second request
      returned. */
  function Fetched(serverMatches: seq<Message>, candidates: seq<Message>, trigger: string): seq<Message> {
    if serverMatches != [] then serverMatches else LocalMatches(candidates, trigger)
  }

  /** The any(...) generator: stops at the first category that matches. */
  method HasTrigger(categories: seq<string>, trigger: string) returns (found: bool)
    ensures found == Tagged(categories, trigger)
  {
    for k := 0 to |categories|
      invariant forall j :: 0 <= j < k ==> Strip(categories[j]) != trigger
    {
      if Strip(categories[k]) == trigger {
        return true;
      }
    }
    return false;
  }

  /** fetch_categorized_messages after the two requests: the server's
      matches when there are any, else the loop appending every tagged
      candidate to matched. */
  method FetchCategorized(serverMatches: seq<Message>, candidates: seq<Message>, trigger: string)
    returns (messages: seq<Message>)
    ensures messages == Fetched(serverMatches, candidates, trigger)
  {
    if serverMatches != [] {
      return serverMatches;
    }
    var matched: seq<Message> := [];
    for k := 0 to |candidates|
      invariant matched == LocalMatches(candidates[..k], trigger)
    {
      LocalMatchesAppend(candidates[..k], [candidates[k]], trigger);
      assert candidates[..k + 1] == candidates[..k] + [candidates[k]];
      var tagged := HasTrigger(candidates[k].categories, trigger);
      if tagged {
        matched := matched + [candidates[k]];
      }
    }
    assert candidates[..|candidates|] == candidates;
    return matched;
  }

  /** The filter works message by message, so the matches keep the order of
      the candidates ... */
  lemma {:induction false} LocalMatchesAppend(a: seq<Message>, b: seq<Message>, trigger: string)
    ensures LocalMatches(a + b, trigger) == LocalMatches(a, trigger) + LocalMatches(b, trigger)
  {
    if a != [] {
      assert (a + b)[0] == a[0];
      assert (a + b)[1..] == a[1..] + b;
      LocalMatchesAppend(a[1..], b, trigger);
    } else {
      assert a + b == b;
    }
  }

  /** ... and a message is among them exactly when it is a candidate with a
      category that equals the trigger once stripped. */
  lemma {:induction false} LocalMatchesMember(candidates: seq<Message>, trigger: string, m: Message)
    ensures m in LocalMatches(candidates, trigger) <==> m in candidates && Tagged(m.categories, trigger)
  {
    if candidates != [] {
      LocalMatchesMember(candidates[1..], trigger, m);
      assert candidates == [candidates[0]] + candidates[1..];
    }
  }

  /** A category that equals the trigger only after stripping (" AI
      Summarize") makes the message qualify in the local filter, but the
      exact comparison of the update leaves it in place. */
  lemma PaddedTrigger(categories: seq<string>, k: nat, trigger: string, processed: string)
    requires k < |categories| && Strip(categories[k]) == trigger && categories[k] != trigger
    ensures Tagged(categories, trigger)
    ensures categories[k] in UpdatedCategories(categories, trigger, processed)
  {
    WithoutMember(categories, trigger, categories[k]);
  }
}
