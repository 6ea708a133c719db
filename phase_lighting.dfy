/** PhaseLighting.jsx: two full-screen gradients whose colour follows the
    current phase of the talk. */
module PhaseLighting {
  import opened Options
  import opened PhaseSelection

  /** `phases`: the top vignette of each phase. */
  const Phases: map<int, string> := map[
    1 := "from-red-600/5 via-transparent to-transparent",
    2 := "from-purple-600/5 via-transparent to-transparent",
    3 := "from-emerald-600/5 via-transparent to-transparent",
    4 := "from-blue-600/5 via-transparent to-transparent"]

  /** `bottomPhases`: the bottom glow of each phase. */
  const BottomPhases: map<int, string> := map[
    1 := "from-transparent via-transparent to-orange-900/10",
    2 := "from-transparent via-transparent to-pink-900/10",
    3 := "from-transparent via-transparent to-teal-900/10",
    4 := "from-transparent via-transparent to-indigo-900/10"]

  /** `table[activePhase] || table[1]`. Every entry is a non-empty string,
      so `||` falls back exactly where the lookup is `undefined`. */
  function Lookup(table: map<int, string>, phase: Option<int>): string
    requires 1 in table
  {
    if phase.Some? && phase.value in table && table[phase.value] != "" then table[phase.value] else table[1]
  }

  function TopGradient(phase: Option<int>): string {
    Lookup(Phases, phase)
  }

  function BottomGradient(phase: Option<int>): string {
    Lookup(BottomPhases, phase)
  }

  /** Both tables have exactly the keys 1..4 and no empty entry. */
  lemma TablesShape()
    ensures Phases.Keys == {1, 2, 3, 4} && BottomPhases.Keys == {1, 2, 3, 4}
    ensures forall p :: p in Phases ==> Phases[p] != ""
    ensures forall p :: p in BottomPhases ==> BottomPhases[p] != ""
  {
  }

  /** For the phases 1..4 the gradients are the table entries; for NaN or
      any other number both fall back to phase 1's. */
  lemma GradientFallback(phase: Option<int>)
    ensures phase.Some? && 1 <= phase.value <= 4 ==>
      TopGradient(phase) == Phases[phase.value] && BottomGradient(phase) == BottomPhases[phase.value]
    ensures !(phase.Some? && 1 <= phase.value <= 4) ==>
      TopGradient(phase) == Phases[1] && BottomGradient(phase) == BottomPhases[1]
  {
    TablesShape();
  }

  class Lighting {
    var activePhase: Option<int>

    /** `useState(1)`, then the effect's `handleScroll()` on mount. */
    constructor (h: int, secs: seq<Section>)
      ensures activePhase == SelectedPhase(secs, h)
    {
      activePhase := Some(1);
      new;
      HandleScroll(h, secs);
    }

    /** `handleScroll` for the viewport `h` high and the sections as they lie. */
    method HandleScroll(h: int, secs: seq<Section>)
      modifies this
      ensures activePhase == SelectedPhase(secs, h)
    {
      var current := SelectPhase(secs, h);
      activePhase := current;
    }

    /** The class names of the two gradients now shown. */
    function Gradients(): (string, string)
      reads this
    {
      (TopGradient(activePhase), BottomGradient(activePhase))
    }
  }
}
