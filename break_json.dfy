/** The test helper that undoes the sanitiser (scripts/break_json.js): every
    `: null` becomes `: NaN` and every `:null` becomes `:NaN`, by the same kind
    of textual rewrite, and only when the text contains `null` at all. */
module BreakJson {
  import opened Wrappers
  import opened Text
  import opened FixJson

  const TightNull := ":null"

  /** `raw.replace(/: null/g, ': NaN').replace(/:null/g, ':NaN')`. */
  function Break(raw: string): string {
    ReplaceAll(ReplaceAll(raw, SpacedNull, SpacedNaN), TightNull, TightNaN)
  }

  /** What the script writes back: `None` when the text has no `null` and the file is left
      alone. */
  function BreakFile(raw: string): (r: Option<string>)
    ensures r.Some? <==> Occurs(raw, "null")
    ensures r.Some? ==> r.value == Break(raw)
    ensures r.Some? ==> !Occurs(r.value, SpacedNull) && !Occurs(r.value, TightNull)
  {
    BreakRemovesNull(raw);
    if Occurs(raw, "null") then Some(Break(raw)) else None
  }

  /** After the rewrite, no colon-adjacent `null` is left. */
  lemma BreakRemovesNull(raw: string)
    ensures !Occurs(Break(raw), SpacedNull)
    ensures !Occurs(Break(raw), TightNull)
  {
    NoOverlapFromHead(SpacedNaN, SpacedNull, 2);
    NoOverlapFromHead(TightNaN, TightNull, 1);
    NoOverlapFromHead(TightNaN, SpacedNull, 1);
    var u := ReplaceAll(raw, SpacedNull, SpacedNaN);
    ReplaceAllAvoids(raw, SpacedNull, SpacedNaN, SpacedNull);
    ReplaceAllAvoids(u, TightNull, TightNaN, TightNull);
    ReplaceAllAvoids(u, TightNull, TightNaN, SpacedNull);
  }

  /** Text without a colon-adjacent `null` comes back unchanged. */
  lemma BreakUnchanged(raw: string)
    requires !Occurs(raw, SpacedNull) && !Occurs(raw, TightNull)
    ensures Break(raw) == raw
  {
    ReplaceAllAbsent(raw, SpacedNull, SpacedNaN);
    ReplaceAllAbsent(raw, TightNull, TightNaN);
  }

  /** Breaking twice is breaking once. */
  lemma BreakIdempotent(raw: string)
    ensures Break(Break(raw)) == Break(raw)
  {
    BreakRemovesNull(raw);
    BreakUnchanged(Break(raw));
  }

  /** The `includes('null')` guard changes nothing. */
  lemma BreakGuardHarmless(raw: string)
    requires !Occurs(raw, "null")
    ensures Break(raw) == raw
  {
    assert SpacedNull[2..] == "null" && TightNull[1..] == "null";
    OccursSuffixOfPattern(raw, SpacedNull, 2);
    OccursSuffixOfPattern(raw, TightNull, 1);
    BreakUnchanged(raw);
  }

  /** Text without a tight `:null` is only touched by the first replacement. */
  lemma BreakSpacedOnly(raw: string)
    requires !Occurs(raw, TightNull)
    ensures Break(raw) == ReplaceAll(raw, SpacedNull, SpacedNaN)
  {
    NoOverlapFromHead(SpacedNaN, TightNull, 1);
    var u := ReplaceAll(raw, SpacedNull, SpacedNaN);
    ReplaceAllAvoids(raw, SpacedNull, SpacedNaN, TightNull);
    ReplaceAllAbsent(u, TightNull, TightNaN);
  }

  /** The sanitiser undoes this rewrite on text that has no colon-adjacent `NaN` and
      writes every colon-adjacent `null` as `: null`. */
  lemma FixUndoesBreak(raw: string)
    requires !Occurs(raw, SpacedNaN) && !Occurs(raw, TightNaN) && !Occurs(raw, TightNull)
    ensures Fix(Break(raw)) == raw
  {
    BreakSpacedOnly(raw);
    assert forall i :: 1 <= i < |SpacedNaN| ==> SpacedNaN[i] != SpacedNaN[0];
    ReplaceAllInverse(raw, SpacedNull, SpacedNaN);
    ReplaceAllAbsent(raw, TightNaN, SpacedNull);
  }

  /** A tight `:null` does not come back as it was: it returns with a space. */
  lemma TightNullComesBackSpaced()
    ensures Break(TightNull) == TightNaN
    ensures Fix(Break(TightNull)) == SpacedNull
  {
    StartsWithMismatch(TightNull, SpacedNull, 1);
    AbsentPastHead(TightNull, SpacedNull, 0);
    ReplaceAllAbsent(TightNull, SpacedNull, SpacedNaN);
    assert ReplaceAll(TightNull, TightNull, TightNaN) == TightNaN;
    FixRewritesBoth();
  }
}
