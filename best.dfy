/**
 * best_calls: per reference, the pool with the largest `perfect` display
 * value, else the one with the largest `almost` display value, else none.
 */
module Best {
  import opened Wrappers
  import opened PyStr
  import opened Display
  import opened Merge

  /** `int(d['display'])` raised ValueError. */
  datatype SelectError = NotAnInteger

  const Perfect := "perfect"
  const Almost := "almost"

  /** Every entry has a `call` (else: KeyError on line 66 or 70). */
  predicate HasCalls(calls: map<string, DisplayRecord>) {
    forall p :: p in calls ==> "call" in calls[p]
  }

  /** The pools whose entry has the given call. */
  function Candidates(calls: map<string, DisplayRecord>, category: string): set<string>
    requires HasCalls(calls)
  {
    set p | p in calls && calls[p]["call"] == category
  }

  /** Every candidate of the category has a `display` (else: KeyError). */
  predicate HasDisplays(calls: map<string, DisplayRecord>, category: string)
    requires HasCalls(calls)
  {
    forall p :: p in Candidates(calls, category) ==> "display" in calls[p]
  }

  /** Every candidate's display parses as an integer (else: ValueError in the sort key). */
  predicate AllNumeric(calls: map<string, DisplayRecord>, category: string)
    requires HasCalls(calls) && HasDisplays(calls, category)
  {
    forall p :: p in Candidates(calls, category) ==> IntOf(calls[p]["display"]).Some?
  }

  /** `p` is a candidate whose integer display is at least every other candidate's. */
  ghost predicate IsMaximal(calls: map<string, DisplayRecord>, category: string, p: string)
    requires HasCalls(calls) && HasDisplays(calls, category)
  {
    && p in Candidates(calls, category)
    && IntOf(calls[p]["display"]).Some?
    && forall q :: q in Candidates(calls, category) ==>
         IntOf(calls[q]["display"]).Some? && IntOf(calls[q]["display"]).value <= IntOf(calls[p]["display"]).value
  }

  /** Every lookup best_calls makes on one reference's entries succeeds. */
  predicate Selectable(calls: map<string, DisplayRecord>) {
    && HasCalls(calls)
    && HasDisplays(calls, Perfect)
    && (Candidates(calls, Perfect) == {} ==> HasDisplays(calls, Almost))
  }

  /** No ValueError: the displays of the category that gets sorted are all integers. */
  predicate SelectsCleanly(calls: map<string, DisplayRecord>)
    requires Selectable(calls)
  {
    && AllNumeric(calls, Perfect)
    && (Candidates(calls, Perfect) == {} ==> AllNumeric(calls, Almost))
  }

  /**
   * The choice best_calls may make for one reference: a maximal `perfect`
   * pool if there is any `perfect` entry, else a maximal `almost` pool if
   * there is any `almost` entry, else none.
   */
  ghost predicate IsBestChoice(calls: map<string, DisplayRecord>, choice: Option<string>)
    requires Selectable(calls)
  {
    if Candidates(calls, Perfect) != {} then choice.Some? && IsMaximal(calls, Perfect, choice.value)
    else if Candidates(calls, Almost) != {} then choice.Some? && IsMaximal(calls, Almost, choice.value)
    else choice == None
  }

  /**
   * `sorted(cands, key=lambda x: int(x[1]), reverse=True)[0][0]` over the
   * entries of one category (lines 66-68 and 70-72); None for no candidates.
   * The pools are visited in an unspecified order, as a dict's are.
   */
  method SelectMax(calls: map<string, DisplayRecord>, category: string) returns (r: Result<Option<string>, SelectError>)
    requires HasCalls(calls) && HasDisplays(calls, category)
    ensures r.Failure? <==> !AllNumeric(calls, category)
    ensures r == Success(None) <==> AllNumeric(calls, category) && Candidates(calls, category) == {}
    ensures r.Success? && r.value.Some? ==> IsMaximal(calls, category, r.value.value)
  {
    var rest := calls.Keys;
    var best: Option<(string, int)> := None;
    while rest != {}
      invariant rest <= calls.Keys
      invariant forall q :: q in Candidates(calls, category) && q !in rest ==> IntOf(calls[q]["display"]).Some?
      invariant best.None? ==> Candidates(calls, category) <= rest
      invariant best.Some? ==>
        && best.value.0 in Candidates(calls, category) && best.value.0 !in rest
        && IntOf(calls[best.value.0]["display"]) == Some(best.value.1)
        && forall q :: q in Candidates(calls, category) && q !in rest ==> IntOf(calls[q]["display"]).value <= best.value.1
      decreases rest
    {
      var p :| p in rest;
      rest := rest - {p};
      if calls[p]["call"] == category {
        assert p in Candidates(calls, category);
        var n := IntOf(calls[p]["display"]);
        if n.None? {
          return Failure(NotAnInteger);
        }
        if best.None? || n.value > best.value.1 {
          best := Some((p, n.value));
        }
      }
    }
    r := Success(if best.None? then None else Some(best.value.0));
  }

  /** The choice for one reference (lines 66-74). */
  method BestPool(calls: map<string, DisplayRecord>) returns (r: Result<Option<string>, SelectError>)
    requires Selectable(calls)
    ensures r.Failure? <==> !SelectsCleanly(calls)
    ensures r.Success? ==> IsBestChoice(calls, r.value)
  {
    r := SelectMax(calls, Perfect);
    if r.Success? && r.value.None? {
      r := SelectMax(calls, Almost);
    }
  }

  /** best_calls (lines 63-75). */
  method BestCalls(calltable: CallTable) returns (r: Result<map<string, Option<string>>, SelectError>)
    requires forall ref :: ref in calltable ==> Selectable(calltable[ref])
    ensures r.Failure? <==> exists ref :: ref in calltable && !SelectsCleanly(calltable[ref])
    ensures r.Success? ==> r.value.Keys == calltable.Keys
    ensures r.Success? ==> forall ref :: ref in r.value ==> IsBestChoice(calltable[ref], r.value[ref])
  {
    var ret: map<string, Option<string>> := map[];
    var rest := calltable.Keys;
    while rest != {}
      invariant rest <= calltable.Keys
      invariant ret.Keys == calltable.Keys - rest
      invariant forall ref :: ref in ret ==> IsBestChoice(calltable[ref], ret[ref])
      invariant forall ref :: ref in ret ==> SelectsCleanly(calltable[ref])
      decreases rest
    {
      var ref :| ref in rest;
      var choice :- BestPool(calltable[ref]);
      ret := ret[ref := choice];
      rest := rest - {ref};
    }
    return Success(ret);
  }

  /**
   * The choice is determined up to ties: two admissible choices agree on
   * whether there is one, on its call, and on its integer display value.
   */
  lemma BestChoiceUpToTies(calls: map<string, DisplayRecord>, c1: Option<string>, c2: Option<string>)
    requires Selectable(calls)
    requires IsBestChoice(calls, c1) && IsBestChoice(calls, c2)
    ensures c1.None? <==> c2.None?
    ensures c1.Some? ==>
      && calls[c1.value]["call"] == calls[c2.value]["call"]
      && IntOf(calls[c1.value]["display"]) == IntOf(calls[c2.value]["display"])
  {
  }

  /** The display values of the example below, read by `int`. */
  lemma ReadsEighty()
    ensures IntOf("80") == Some(80)
  {
    assert DecimalDigits(8) == "8";
    assert IntToString(80) == "80";
  }

  lemma ReadsNinetyFive()
    ensures IntOf("95") == Some(95)
  {
    assert DecimalDigits(9) == "9";
    assert IntToString(95) == "95";
  }

  /** Two perfect pools showing 80 and 95: the one showing 95 is chosen. */
  lemma BestChoiceExample(calls: map<string, DisplayRecord>, choice: Option<string>)
    requires calls == map["p1" := map["call" := "perfect", "display" := "80"],
                          "p2" := map["call" := "perfect", "display" := "95"]]
    requires Selectable(calls) && IsBestChoice(calls, choice)
    ensures choice == Some("p2")
  {
    assert calls["p1"]["call"] == Perfect && calls["p2"]["call"] == Perfect;
    assert "p1" in Candidates(calls, Perfect);
    assert "p2" in Candidates(calls, Perfect);
    ReadsEighty();
    ReadsNinetyFive();
    var p := choice.value;
    assert p in calls.Keys;
    assert calls.Keys == {"p1", "p2"};
  }

  /**
   * A table built by the merge never makes the selection fail when `ff`
   * always renders an integer, as `str(int(...))` does: every entry has its
   * `call` and `display`, and only `ff` produces `perfect` and `almost`
   * displays.
   */
  lemma MergedTableSelectsCleanly(acalls: Loaded, reflens: seq<(string, int)>, poollist: seq<string>,
                                  useProtocol: string, ff: string -> string, calltable: CallTable)
    requires Mergeable(acalls, reflens, poollist, useProtocol)
    requires IsMergedTable(acalls, reflens, poollist, useProtocol, ff, calltable)
    requires forall v :: IntOf(ff(v)).Some?
    ensures forall ref :: ref in calltable ==> Selectable(calltable[ref]) && SelectsCleanly(calltable[ref])
  {
    forall ref | ref in calltable
      ensures Selectable(calltable[ref]) && SelectsCleanly(calltable[ref])
    {
      var calls := calltable[ref];
      assert IsMergedRow(acalls, ref, poollist, useProtocol, ff, calls);
      forall p | p in calls
        ensures "call" in calls[p] && "display" in calls[p]
        ensures calls[p]["call"] in {Perfect, Almost} ==> IntOf(calls[p]["display"]).Some?
      {
        var d := acalls[p][ChosenProtocol(acalls[p], useProtocol).value][ref];
        assert calls[p] == CallDisplay(d, ff);
        CallDisplayMeaning(d, ff);
        VocabularyFaithful(d["call"], d["call"]);
      }
    }
  }
}
