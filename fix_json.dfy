/** The database sanitiser (scripts/fix_json.js): a data file written with the
    non-standard number `NaN` is made valid JSON by a purely textual rewrite of
    every `: NaN` and every `:NaN` into `: null`. The file is rewritten only
    when its text contains `NaN` at all. */
module FixJson {
  import opened Wrappers
  import opened Text

  const SpacedNaN := ": NaN"
  const TightNaN := ":NaN"
  const SpacedNull := ": null"

  /** `raw.replace(/: NaN/g, ': null').replace(/:NaN/g, ': null')`. */
  function Fix(raw: string): string {
    ReplaceAll(ReplaceAll(raw, SpacedNaN, SpacedNull), TightNaN, SpacedNull)
  }

  /** What the script writes back: `None` when the text has no `NaN` and the file is left
      alone. */
  function FixFile(raw: string): (r: Option<string>)
    ensures r.Some? <==> Occurs(raw, "NaN")
    ensures r.Some? ==> r.value == Fix(raw)
    ensures r.Some? ==> !Occurs(r.value, SpacedNaN) && !Occurs(r.value, TightNaN)
  {
    FixRemovesNaN(raw);
    if Occurs(raw, "NaN") then Some(Fix(raw)) else None
  }

  /** After sanitising, no colon-adjacent `NaN` is left. */
  lemma FixRemovesNaN(raw: string)
    ensures !Occurs(Fix(raw), SpacedNaN)
    ensures !Occurs(Fix(raw), TightNaN)
  {
    NoOverlapFromHead(SpacedNull, SpacedNaN, 2);
    NoOverlapFromHead(SpacedNull, TightNaN, 1);
    var u := ReplaceAll(raw, SpacedNaN, SpacedNull);
    ReplaceAllAvoids(raw, SpacedNaN, SpacedNull, SpacedNaN);
    ReplaceAllAvoids(u, TightNaN, SpacedNull, TightNaN);
    ReplaceAllAvoids(u, TightNaN, SpacedNull, SpacedNaN);
  }

  /** Text without a colon-adjacent `NaN` comes back unchanged. */
  lemma FixUnchanged(raw: string)
    requires !Occurs(raw, SpacedNaN) && !Occurs(raw, TightNaN)
    ensures Fix(raw) == raw
  {
    ReplaceAllAbsent(raw, SpacedNaN, SpacedNull);
    ReplaceAllAbsent(raw, TightNaN, SpacedNull);
  }

  /** Sanitising twice is sanitising once. */
  lemma FixIdempotent(raw: string)
    ensures Fix(Fix(raw)) == Fix(raw)
  {
    FixRemovesNaN(raw);
    FixUnchanged(Fix(raw));
  }

  /** The `includes('NaN')` guard changes nothing: text without `NaN` is a fixed point of
      the rewrite, so skipping it and rewriting it agree. */
  lemma FixGuardHarmless(raw: string)
    requires !Occurs(raw, "NaN")
    ensures Fix(raw) == raw
  {
    assert SpacedNaN[2..] == "NaN" && TightNaN[1..] == "NaN";
    OccursSuffixOfPattern(raw, SpacedNaN, 2);
    OccursSuffixOfPattern(raw, TightNaN, 1);
    FixUnchanged(raw);
  }

  /** The tight spelling occurs neither in `: null` nor in the spaced spelling, nor the
      spaced one in the tight one. */
  lemma SpellingsApart()
    ensures !Occurs(SpacedNull, TightNaN)
    ensures !Occurs(TightNaN, SpacedNaN)
  {
    StartsWithMismatch(SpacedNull, TightNaN, 1);
    AbsentPastHead(SpacedNull, TightNaN, 0);
    StartsWithMismatch(TightNaN, SpacedNaN, 1);
    AbsentPastHead(TightNaN, SpacedNaN, 0);
  }

  /** Both spellings become `: null`; the tight one gains a space. */
  lemma FixRewritesBoth()
    ensures Fix(SpacedNaN) == SpacedNull
    ensures Fix(TightNaN) == SpacedNull
  {
    SpellingsApart();
    assert ReplaceAll(SpacedNaN, SpacedNaN, SpacedNull) == SpacedNull;
    ReplaceAllAbsent(SpacedNull, TightNaN, SpacedNull);
    ReplaceAllAbsent(TightNaN, SpacedNaN, SpacedNull);
    assert ReplaceAll(TightNaN, TightNaN, SpacedNull) == SpacedNull;
  }

  /** The rewrite is textual: `NaN` after two spaces or with no colon before it stays. */
  lemma FixLeavesOtherSpellings()
    ensures Fix(":  NaN") == ":  NaN"
    ensures Fix("[NaN]") == "[NaN]"
  {
    StartsWithMismatch(":  NaN", SpacedNaN, 2);
    AbsentPastHead(":  NaN", SpacedNaN, 0);
    StartsWithMismatch(":  NaN", TightNaN, 1);
    AbsentPastHead(":  NaN", TightNaN, 0);
    FixUnchanged(":  NaN");
    AbsentWithout("[NaN]", SpacedNaN, 0);
    AbsentWithout("[NaN]", TightNaN, 0);
    FixUnchanged("[NaN]");
  }
}
