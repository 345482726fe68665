/**
 * call_display: a raw call record becomes a small display record with a
 * `call` out of a fixed vocabulary and a `display` value.
 */
module Display {
  import opened Summary

  /** The display record: `call`, `display`, and for `almost` also `p1` and `p2`. */
  type DisplayRecord = map<string, string>

  /** The six raw calls with a display name of their own. */
  const Vocabulary: map<string, string> := map[
    "Pass" := "perfect",
    "Fixable" := "almost",
    "Errors" := "errors",
    "Dips" := "dips",
    "Incomplete" := "incomplete",
    "Low coverage" := "lowcov"]

  /** The display call of every other raw call. */
  const Unknown := "?"

  /** Every display call there is. */
  const DisplayCalls: set<string> := {"perfect", "almost", "errors", "dips", "incomplete", "lowcov", "?"}

  /** The raw calls whose display value is a raw field copied verbatim, and that field. */
  const VerbatimField: map<string, string> := map[
    "Errors" := "nvars",
    "Dips" := "ndips",
    "Incomplete" := "pct_cov"]

  /** The display name of a raw call, by the vocabulary table. */
  function DisplayCall(raw: string): string {
    if raw in Vocabulary then Vocabulary[raw] else Unknown
  }

  /** The record holds every field call_display reads for its call (else: KeyError). */
  predicate Displayable(d: RawRecord) {
    && "call" in d
    && (d["call"] in VerbatimField ==> VerbatimField[d["call"]] in d)
    && (d["call"] !in VerbatimField ==> "mean_cov" in d)
    && (d["call"] == "Fixable" ==> "p1" in d && "p2" in d)
  }

  /**
   * call_display (lines 39-47). `ff` is the rounding helper of line 32,
   * taken as given.
   */
  function CallDisplay(d: RawRecord, ff: string -> string): DisplayRecord
    requires Displayable(d)
  {
    var call := d["call"];
    if call == "Pass" then map["call" := "perfect", "display" := ff(d["mean_cov"])]
    else if call == "Fixable" then
      map["call" := "almost", "display" := ff(d["mean_cov"]), "p1" := d["p1"], "p2" := d["p2"]]
    else if call == "Errors" then map["call" := "errors", "display" := d["nvars"]]
    else if call == "Dips" then map["call" := "dips", "display" := d["ndips"]]
    else if call == "Incomplete" then map["call" := "incomplete", "display" := d["pct_cov"]]
    else if call == "Low coverage" then map["call" := "lowcov", "display" := ff(d["mean_cov"])]
    else map["call" := "?", "display" := ff(d["mean_cov"])]
  }

  /**
   * call_display is total on the records holding the fields it reads. Its
   * output has `call` and `display`, and `p1`, `p2` (copied unchanged) only
   * for `almost`; `call` is the vocabulary's name for the raw call; `display`
   * is the raw field of a verbatim category, else `ff(mean_cov)`.
   */
  lemma CallDisplayMeaning(d: RawRecord, ff: string -> string)
    requires Displayable(d)
    ensures var r := CallDisplay(d, ff);
      && "call" in r && "display" in r
      && r["call"] == DisplayCall(d["call"]) && r["call"] in DisplayCalls
      && r.Keys == {"call", "display"} + (if r["call"] == "almost" then {"p1", "p2"} else {})
      && (r["call"] == "almost" ==> r["p1"] == d["p1"] && r["p2"] == d["p2"])
      && r["display"] == if d["call"] in VerbatimField then d[VerbatimField[d["call"]]] else ff(d["mean_cov"])
  {
  }

  /**
   * The vocabulary loses nothing: distinct named raw calls get distinct
   * display calls, none of them `?`, and only the verbatim categories show
   * a display call of `errors`, `dips` or `incomplete`.
   */
  lemma VocabularyFaithful(a: string, b: string)
    ensures a in Vocabulary && b in Vocabulary && a != b ==> DisplayCall(a) != DisplayCall(b)
    ensures DisplayCall(a) == Unknown <==> a !in Vocabulary
    ensures DisplayCall(a) in {"errors", "dips", "incomplete"} <==> a in VerbatimField
  {
  }
}
