/**
  The search aggregator (`SearchSystem`): it turns the query into terms,
  decides whether the new terms refine the previous ones, asks the
  registered providers (or only those that answered last time) for result
  sets, and keeps the non-empty ones in provider order.

  Providers are named by their registration number; what a provider answers
  is a function-typed parameter, and a provider that throws answers `Threw`.
 */
module Search {
  import opened Common

  /** What one provider call gives back: a list of result ids, or an exception. */
  datatype Answer = Returned(ids: seq<string>) | Threw

  /** One kept entry of the results: the provider and its result ids. */
  datatype ResultSet = ResultSet(provider: nat, ids: seq<string>)

  datatype SearchSystem = SearchSystem(providers: seq<nat>, previousTerms: seq<string>, previousResults: seq<ResultSet>)

  /** A provider asked for a result set, with what it answered. */
  datatype Call = Call(provider: nat, answer: Answer)

  /** `reset`: forget the previous terms and results; the providers stay. */
  function Reset(sys: SearchSystem): (r: SearchSystem)
    ensures r.providers == sys.providers
    ensures r.previousTerms == [] && r.previousResults == []
  {
    sys.(previousTerms := [], previousResults := [])
  }

  /** A new system: no providers and nothing searched yet. */
  const Fresh: SearchSystem := Reset(SearchSystem([], [], []))

  /** `registerProvider`: the provider is appended, after all earlier ones. */
  function RegisterProvider(sys: SearchSystem, p: nat): (r: SearchSystem)
    ensures |r.providers| == |sys.providers| + 1
    ensures r.providers[..|sys.providers|] == sys.providers && r.providers[|sys.providers|] == p
    ensures r.previousTerms == sys.previousTerms && r.previousResults == sys.previousResults
  {
    assert (sys.providers + [p])[..|sys.providers|] == sys.providers;
    sys.(providers := sys.providers + [p])
  }

  /**
    The query's terms: the query trimmed, then split on whitespace runs; none
    when nothing but whitespace is left. The terms are non-empty words that,
    joined by single spaces, give the trimmed query with each whitespace run
    collapsed to one space, so they are cut exactly at the whitespace runs
    (`WordsJoinInjective`).
   */
  function SearchTerms(query: string): (r: Option<seq<string>>)
    ensures r.None? <==> AllWhitespace(query)
    ensures r.Some? ==> Words(r.value)
    ensures r.Some? ==> Join(r.value, " ") == Collapse(Trim(query))
    ensures r.Some? ==> Concat(r.value) == DropWhitespace(query)
  {
    var trimmed := Trim(query);
    if trimmed == "" then None
    else
      var terms := SplitWhitespace(trimmed);
      TrimKeepsText(query);
      SplitWhitespaceWords(trimmed);
      Some(terms)
  }

  /** Words joined by single spaces are read back as the same terms. */
  lemma SearchTermsOfJoin(terms: seq<string>)
    requires Words(terms)
    ensures SearchTerms(Join(terms, " ")) == Some(terms)
  {
    var q := Join(terms, " ");
    JoinEnds(terms, " ");
    var last := terms[|terms| - 1];
    assert !IsWhitespace(q[0]) by {
      assert q[0] == terms[0][0];
    }
    assert !IsWhitespace(q[|q| - 1]) by {
      assert q[|q| - 1] == last[|last| - 1];
    }
    TrimUntrimmed(q);
    SplitWhitespaceJoin(terms);
  }

  /**
    The subsearch test: as many terms as before, and each new term has the
    previous term at the same position at its start (`indexOf(...) == 0`).
   */
  predicate IsSubsearch(terms: seq<string>, previous: seq<string>) {
    |terms| == |previous| && forall i :: 0 <= i < |terms| ==> Find(terms[i], previous[i]) == Some(0)
  }

  /** The subsearch test is a term-by-term prefix test. */
  lemma {:induction false} SubsearchIsPrefix(terms: seq<string>, previous: seq<string>)
    ensures IsSubsearch(terms, previous) <==>
      |terms| == |previous| && forall i :: 0 <= i < |terms| ==> IsPrefix(previous[i], terms[i])
  {
    forall i | 0 <= i < |terms| && i < |previous|
      ensures Find(terms[i], previous[i]) == Some(0) <==> IsPrefix(previous[i], terms[i])
    {
      FindZeroIsPrefix(terms[i], previous[i]);
    }
  }

  /** Every query refines itself: the same terms again are a subsearch. */
  lemma SubsearchReflexive(terms: seq<string>)
    ensures IsSubsearch(terms, terms)
  {
    SubsearchIsPrefix(terms, terms);
  }

  /** The providers named along a list of result sets or calls, in order. */
  function Providers<T>(s: seq<T>, provider: T -> nat): (r: seq<nat>)
    ensures |r| == |s| && forall i :: 0 <= i < |s| ==> r[i] == provider(s[i])
  {
    if |s| == 0 then [] else [provider(s[0])] + Providers(s[1..], provider)
  }

  function ResultProvider(r: ResultSet): nat {
    r.provider
  }

  function CallProvider(c: Call): nat {
    c.provider
  }

  function ProvidersOf(results: seq<ResultSet>): (r: seq<nat>)
    ensures |r| == |results| && forall i :: 0 <= i < |results| ==> r[i] == results[i].provider
  {
    Providers(results, ResultProvider)
  }

  /** The result set a call contributes, if any: a non-empty returned list. */
  function Kept(c: Call): (r: seq<ResultSet>)
  {
    if c.answer.Returned? && |c.answer.ids| > 0 then [ResultSet(c.provider, c.answer.ids)] else []
  }

  /** The kept sets of the calls, one call after another. */
  function Gather(calls: seq<Call>): seq<ResultSet>
    decreases |calls|
  {
    if |calls| == 0 then [] else Kept(calls[0]) + Gather(calls[1..])
  }

  /**
    The results loop: calls that returned a non-empty list are kept, in call
    order; calls that threw or returned nothing are skipped and the loop
    goes on.
   */
  function Collect(calls: seq<Call>): (r: seq<ResultSet>)
    ensures forall i :: 0 <= i < |r| ==> |r[i].ids| > 0
    ensures forall p, ids :: ResultSet(p, ids) in r <==> Call(p, Returned(ids)) in calls && |ids| > 0
    ensures IsSubsequence(ProvidersOf(r), Providers(calls, CallProvider))
  {
    GatherKeeps(calls);
    Gather(calls)
  }

  lemma {:induction false} GatherKeeps(calls: seq<Call>)
    ensures var r := Gather(calls);
      && (forall i :: 0 <= i < |r| ==> |r[i].ids| > 0)
      && (forall p, ids :: ResultSet(p, ids) in r <==> Call(p, Returned(ids)) in calls && |ids| > 0)
      && IsSubsequence(ProvidersOf(r), Providers(calls, CallProvider))
    decreases |calls|
  {
    if |calls| > 0 {
      GatherKeeps(calls[1..]);
      var rest := Gather(calls[1..]);
      var c := calls[0];
      assert calls == [c] + calls[1..];
      assert Providers(calls, CallProvider)[1..] == Providers(calls[1..], CallProvider);
      var g := Gather(calls);
      var pc := Providers(calls, CallProvider);
      if Kept(c) != [] {
        assert g == [ResultSet(c.provider, c.answer.ids)] + rest;
        assert ProvidersOf(g)[1..] == ProvidersOf(rest);
        SubsequenceStep(ProvidersOf(g), pc);
      } else {
        assert g == rest;
        assert IsSubsequence(ProvidersOf(g), pc[1..]);
      }
    }
  }

  /** Collecting over two runs of calls one after the other keeps the first run's sets, then the second's. */
  lemma {:induction false} CollectAppend(a: seq<Call>, b: seq<Call>)
    ensures Collect(a + b) == Collect(a) + Collect(b)
    decreases |a|
  {
    GatherAppend(a, b);
  }

  lemma {:induction false} GatherAppend(a: seq<Call>, b: seq<Call>)
    ensures Gather(a + b) == Gather(a) + Gather(b)
    decreases |a|
  {
    if |a| == 0 {
      assert a + b == b;
    } else {
      GatherAppend(a[1..], b);
      assert (a + b)[1..] == a[1..] + b;
      assert (a + b)[0] == a[0];
    }
  }

  /** Every registered provider is asked for its initial result set. */
  function InitialCalls(providers: seq<nat>, terms: seq<string>, initial: (nat, seq<string>) -> Answer): (r: seq<Call>)
    ensures |r| == |providers|
    ensures forall i :: 0 <= i < |r| ==> r[i] == Call(providers[i], initial(providers[i], terms))
  {
    if |providers| == 0 then []
    else [Call(providers[0], initial(providers[0], terms))] + InitialCalls(providers[1..], terms, initial)
  }

  /** Each provider of the previous results is asked to refine its own previous result set. */
  function SubsearchCalls(previous: seq<ResultSet>, terms: seq<string>,
                          subsearch: (nat, seq<string>, seq<string>) -> Answer): (r: seq<Call>)
    ensures |r| == |previous|
    ensures forall i :: 0 <= i < |r| ==>
      r[i] == Call(previous[i].provider, subsearch(previous[i].provider, previous[i].ids, terms))
  {
    if |previous| == 0 then []
    else
      [Call(previous[0].provider, subsearch(previous[0].provider, previous[0].ids, terms))] +
      SubsearchCalls(previous[1..], terms, subsearch)
  }

  /**
    `updateSearch`: none for a blank query, with the system untouched;
    otherwise the kept result sets, which the system then remembers along
    with the terms.
   */
  function UpdateSearch(sys: SearchSystem, query: string, initial: (nat, seq<string>) -> Answer,
                        subsearch: (nat, seq<string>, seq<string>) -> Answer): (r: (SearchSystem, Option<seq<ResultSet>>))
    ensures r.1.None? <==> AllWhitespace(query)
    ensures r.1.None? ==> r.0 == sys
    ensures r.1.Some? ==> r.0 == SearchSystem(sys.providers, SearchTerms(query).value, r.1.value)
    ensures r.1.Some? ==> forall i :: 0 <= i < |r.1.value| ==> |r.1.value[i].ids| > 0
    ensures r.1.Some? ==> IsSubsequence(ProvidersOf(r.1.value),
      if IsSubsearch(SearchTerms(query).value, sys.previousTerms) then ProvidersOf(sys.previousResults) else sys.providers)
  {
    match SearchTerms(query)
    case None => (sys, None)
    case Some(terms) =>
      var calls := if IsSubsearch(terms, sys.previousTerms) then SubsearchCalls(sys.previousResults, terms, subsearch)
                   else InitialCalls(sys.providers, terms, initial);
      var results := Collect(calls);
      assert Providers(calls, CallProvider) == (if IsSubsearch(terms, sys.previousTerms) then ProvidersOf(sys.previousResults) else sys.providers);
      (SearchSystem(sys.providers, terms, results), Some(results))
  }

  /**
    A search that does not refine the previous one asks every provider: a
    provider's answer is kept exactly when it returned a non-empty list.
   */
  lemma InitialSearchResults(sys: SearchSystem, query: string, initial: (nat, seq<string>) -> Answer,
                             subsearch: (nat, seq<string>, seq<string>) -> Answer, p: nat, ids: seq<string>)
    requires !AllWhitespace(query) && !IsSubsearch(SearchTerms(query).value, sys.previousTerms)
    ensures ResultSet(p, ids) in UpdateSearch(sys, query, initial, subsearch).1.value <==>
      p in sys.providers && initial(p, SearchTerms(query).value) == Returned(ids) && |ids| > 0
  {
    var terms := SearchTerms(query).value;
    var calls := InitialCalls(sys.providers, terms, initial);
    if Call(p, Returned(ids)) in calls {
      var i :| 0 <= i < |calls| && calls[i] == Call(p, Returned(ids));
      assert sys.providers[i] == p;
    }
    if p in sys.providers && initial(p, terms) == Returned(ids) {
      var i :| 0 <= i < |sys.providers| && sys.providers[i] == p;
      assert calls[i] == Call(p, Returned(ids));
    }
  }

  /**
    A subsearch asks only the providers of the previous results, each with
    its own previous result set.
   */
  lemma SubsearchResults(sys: SearchSystem, query: string, initial: (nat, seq<string>) -> Answer,
                         subsearch: (nat, seq<string>, seq<string>) -> Answer, p: nat, ids: seq<string>)
    requires !AllWhitespace(query) && IsSubsearch(SearchTerms(query).value, sys.previousTerms)
    ensures ResultSet(p, ids) in UpdateSearch(sys, query, initial, subsearch).1.value <==>
      |ids| > 0 && (exists prior :: ResultSet(p, prior) in sys.previousResults &&
                                  subsearch(p, prior, SearchTerms(query).value) == Returned(ids))
  {
    var terms := SearchTerms(query).value;
    var calls := SubsearchCalls(sys.previousResults, terms, subsearch);
    if Call(p, Returned(ids)) in calls {
      var i :| 0 <= i < |calls| && calls[i] == Call(p, Returned(ids));
      assert sys.previousResults[i] == ResultSet(p, sys.previousResults[i].ids);
    }
    if exists prior :: ResultSet(p, prior) in sys.previousResults && subsearch(p, prior, terms) == Returned(ids) {
      var prior :| ResultSet(p, prior) in sys.previousResults && subsearch(p, prior, terms) == Returned(ids);
      var i :| 0 <= i < |sys.previousResults| && sys.previousResults[i] == ResultSet(p, prior);
      assert calls[i] == Call(p, Returned(ids));
    }
  }

  /**
    The first search after `reset` is never a subsearch, since there are no
    previous terms: every provider is asked for its initial result set.
   */
  lemma FirstSearchAfterReset(sys: SearchSystem, query: string, initial: (nat, seq<string>) -> Answer,
                              subsearch: (nat, seq<string>, seq<string>) -> Answer)
    requires !AllWhitespace(query)
    ensures !IsSubsearch(SearchTerms(query).value, Reset(sys).previousTerms)
    ensures forall p, ids :: ResultSet(p, ids) in UpdateSearch(Reset(sys), query, initial, subsearch).1.value <==>
      p in sys.providers && initial(p, SearchTerms(query).value) == Returned(ids) && |ids| > 0
  {
    forall p, ids {
      InitialSearchResults(Reset(sys), query, initial, subsearch, p, ids);
    }
  }

  /** Searching the same query twice refines the first search: only its providers are asked again. */
  lemma RepeatedSearchIsSubsearch(sys: SearchSystem, query: string, initial: (nat, seq<string>) -> Answer,
                                  subsearch: (nat, seq<string>, seq<string>) -> Answer)
    requires !AllWhitespace(query)
    ensures var after := UpdateSearch(sys, query, initial, subsearch).0;
      IsSubsearch(SearchTerms(query).value, after.previousTerms)
  {
    SubsearchReflexive(SearchTerms(query).value);
  }

  /**
    A provider registered after the others is asked last by a search that
    does not refine the previous one: the results are those without it,
    followed by its own set when it returns a non-empty list.
   */
  lemma RegisteredProviderComesLast(sys: SearchSystem, p: nat, query: string, initial: (nat, seq<string>) -> Answer,
                                    subsearch: (nat, seq<string>, seq<string>) -> Answer)
    requires !AllWhitespace(query) && !IsSubsearch(SearchTerms(query).value, sys.previousTerms)
    ensures UpdateSearch(RegisterProvider(sys, p), query, initial, subsearch).1.value ==
      UpdateSearch(sys, query, initial, subsearch).1.value + Kept(Call(p, initial(p, SearchTerms(query).value)))
  {
    var terms := SearchTerms(query).value;
    var before := InitialCalls(sys.providers, terms, initial);
    var last := Call(p, initial(p, terms));
    assert InitialCalls(sys.providers + [p], terms, initial) == before + [last];
    CollectAppend(before, [last]);
    assert Gather([last]) == Kept(last) by {
      assert [last][1..] == [];
    }
  }
}
