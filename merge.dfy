/**
 * merge_calls: for every reference and every listed pool, the display record
 * of the requested protocol's call, falling back to the default protocol.
 */
module Merge {
  import opened Wrappers
  import opened PyStr
  import opened Summary
  import opened Display

  /** What load_calls returns: pool name to protocol name to that job's summaries. */
  type Loaded = map<string, map<string, Summaries>>

  /** Reference id to pool name to display record. */
  type CallTable = map<string, map<string, DisplayRecord>>

  const DefaultProtocol := "bwa_dir"

  /** The protocol whose summary a pool contributes: the requested one, else the default, else none. */
  function ChosenProtocol(protocols: map<string, Summaries>, useProtocol: string): (r: Option<string>)
    ensures r.Some? ==> r.value in protocols
    ensures r == None <==> useProtocol !in protocols && DefaultProtocol !in protocols
    ensures useProtocol in protocols ==> r == Some(useProtocol)
    ensures r.Some? && r.value != useProtocol ==> r.value == DefaultProtocol
  {
    if useProtocol in protocols then Some(useProtocol)
    else if DefaultProtocol in protocols then Some(DefaultProtocol)
    else None
  }

  /** The reference ids of `reflens`. */
  function RefIds(reflens: seq<(string, int)>): set<string> {
    set i | 0 <= i < |reflens| :: reflens[i].0
  }

  /** The listed pools that contribute an entry. */
  function PoolsWithData(acalls: Loaded, poollist: seq<string>, useProtocol: string): set<string> {
    set p | p in poollist && p in acalls && ChosenProtocol(acalls[p], useProtocol).Some?
  }

  /**
   * Every lookup the inner loop of merge_calls makes for reference `ref`
   * succeeds: each listed pool was loaded, and the chosen protocol's summary
   * has a displayable record for `ref`.
   */
  predicate RowMergeable(acalls: Loaded, ref: string, poollist: seq<string>, useProtocol: string) {
    forall p :: p in poollist ==>
      && p in acalls
      && (ChosenProtocol(acalls[p], useProtocol).Some? ==>
           var protocol := ChosenProtocol(acalls[p], useProtocol).value;
           ref in acalls[p][protocol] && Displayable(acalls[p][protocol][ref]))
  }

  /** Every lookup merge_calls makes succeeds, for every reference. */
  predicate Mergeable(acalls: Loaded, reflens: seq<(string, int)>, poollist: seq<string>, useProtocol: string) {
    forall ref :: ref in RefIds(reflens) ==> RowMergeable(acalls, ref, poollist, useProtocol)
  }

  /**
   * One row of the call table: an entry exactly for the pools with data, each
   * the display of the chosen protocol's record for `ref`.
   */
  ghost predicate IsMergedRow(acalls: Loaded, ref: string, poollist: seq<string>,
                              useProtocol: string, ff: string -> string, calls: map<string, DisplayRecord>)
    requires RowMergeable(acalls, ref, poollist, useProtocol)
  {
    && calls.Keys == PoolsWithData(acalls, poollist, useProtocol)
    && (forall p :: p in calls ==>
         calls[p] == CallDisplay(acalls[p][ChosenProtocol(acalls[p], useProtocol).value][ref], ff))
  }

  /**
   * The call table merge_calls builds: one (possibly empty) row per reference,
   * an entry exactly for the pools with data, and each entry the display of
   * the chosen protocol's record for that reference.
   */
  ghost predicate IsMergedTable(acalls: Loaded, reflens: seq<(string, int)>, poollist: seq<string>,
                                useProtocol: string, ff: string -> string, calltable: CallTable)
    requires Mergeable(acalls, reflens, poollist, useProtocol)
  {
    && calltable.Keys == RefIds(reflens)
    && (forall ref :: ref in calltable ==> IsMergedRow(acalls, ref, poollist, useProtocol, ff, calltable[ref]))
  }

  /** The inner loop of merge_calls (lines 54-59): the row for one reference. */
  method MergeRow(acalls: Loaded, ref: string, poollist: seq<string>,
                  useProtocol: string, ff: string -> string)
    returns (calls: map<string, DisplayRecord>)
    requires RowMergeable(acalls, ref, poollist, useProtocol)
    ensures IsMergedRow(acalls, ref, poollist, useProtocol, ff, calls)
  {
    calls := map[];
    for j := 0 to |poollist|
      invariant calls.Keys == PoolsWithData(acalls, poollist[..j], useProtocol)
      invariant forall p :: p in calls ==>
        calls[p] == CallDisplay(acalls[p][ChosenProtocol(acalls[p], useProtocol).value][ref], ff)
    {
      var pname := poollist[j];
      assert pname in poollist;
      if useProtocol in acalls[pname] {
        calls := calls[pname := CallDisplay(acalls[pname][useProtocol][ref], ff)];
      } else if DefaultProtocol in acalls[pname] {
        calls := calls[pname := CallDisplay(acalls[pname][DefaultProtocol][ref], ff)];
      }
      PrefixExtend(poollist, j);
    }
    PrefixAll(poollist);
  }

  /** merge_calls (lines 49-61), given what load_calls returned. */
  method MergeCalls(acalls: Loaded, reflens: seq<(string, int)>, poollist: seq<string>,
                    useProtocol: string, ff: string -> string)
    returns (calltable: CallTable)
    requires Mergeable(acalls, reflens, poollist, useProtocol)
    ensures IsMergedTable(acalls, reflens, poollist, useProtocol, ff, calltable)
  {
    calltable := map[];
    for i := 0 to |reflens|
      invariant calltable.Keys == RefIds(reflens[..i]) <= RefIds(reflens)
      invariant forall ref :: ref in calltable ==>
        IsMergedRow(acalls, ref, poollist, useProtocol, ff, calltable[ref])
    {
      var (ref, _) := reflens[i];
      assert ref in RefIds(reflens);
      var calls := MergeRow(acalls, ref, poollist, useProtocol, ff);
      calltable := calltable[ref := calls];
      PrefixExtend(reflens, i);
    }
    PrefixAll(reflens);
  }

  /**
   * The table is determined by the inputs: running the merge twice on the
   * same loaded calls gives equal tables.
   */
  lemma MergedTableUnique(acalls: Loaded, reflens: seq<(string, int)>, poollist: seq<string>,
                          useProtocol: string, ff: string -> string, t1: CallTable, t2: CallTable)
    requires Mergeable(acalls, reflens, poollist, useProtocol)
    requires IsMergedTable(acalls, reflens, poollist, useProtocol, ff, t1)
    requires IsMergedTable(acalls, reflens, poollist, useProtocol, ff, t2)
    ensures t1 == t2
  {
    forall ref | ref in t1
      ensures t1[ref] == t2[ref]
    {
      var row1, row2 := t1[ref], t2[ref];
      assert IsMergedRow(acalls, ref, poollist, useProtocol, ff, row1);
      assert IsMergedRow(acalls, ref, poollist, useProtocol, ff, row2);
      forall p | p in row1
        ensures row1[p] == row2[p]
      {
        var protocol := ChosenProtocol(acalls[p], useProtocol).value;
        assert row1[p] == CallDisplay(acalls[p][protocol][ref], ff);
      }
      MapsEqual(row1, row2);
    }
    MapsEqual(t1, t2);
  }

  /** Map extensionality, stated for any value type. */
  lemma MapsEqual<K, V>(m1: map<K, V>, m2: map<K, V>)
    requires m1.Keys == m2.Keys
    requires forall k :: k in m1 ==> m1[k] == m2[k]
    ensures m1 == m2
  {
  }
}
