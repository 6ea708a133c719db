/** PhaseIndicator.jsx: a badge that appears once the page has scrolled past
    most of the hero and names the current phase of the talk. */
module PhaseIndicator {
  import opened Options
  import opened PhaseSelection

  /** `phaseMap`: section id to phase. */
  const PhaseMap: map<string, int> := map[
    "hero" := 1, "overview" := 1, "problem" := 1, "solution" := 2, "impact" := 3,
    "agnostic" := 4, "backend" := 4, "ecosystem" := 4, "conclusion" := 4]

  /** `phaseTitles`: phase to its title. */
  const PhaseTitles: map<int, string> := map[
    1 := "The Problem", 2 := "The Solution", 3 := "Real World Impact", 4 := "Ecosystem & Scale"]

  /** `phaseTitles[activePhase]`; `None` where the lookup is `undefined`. */
  function Title(phase: Option<int>): Option<string> {
    if phase.Some? && phase.value in PhaseTitles then Some(PhaseTitles[phase.value]) else None
  }

  /** `scrollY > innerHeight * 0.8`, strictly. */
  predicate PastHero(scrollY: int, h: int) {
    5 * scrollY > 4 * h
  }

  /** The titles cover exactly the phases 1..4, and every phase of the map
      is one of them. */
  lemma TablesAgree()
    ensures PhaseTitles.Keys == {1, 2, 3, 4}
    ensures forall id :: id in PhaseMap ==> PhaseMap[id] in PhaseTitles
  {
  }

  /** A title is shown exactly for the phases 1..4; NaN and any other
      number show none. */
  lemma TitleDefined(phase: Option<int>)
    ensures Title(phase).Some? <==> phase.Some? && 1 <= phase.value <= 4
  {
    TablesAgree();
  }

  /** Sections tagged with phases 1..4 always yield a titled phase. */
  lemma TitledWhenTagged(secs: seq<Section>, h: int)
    requires forall k :: 0 <= k < |secs| ==> secs[k].phase.Some? && 1 <= secs[k].phase.value <= 4
    ensures Title(SelectedPhase(secs, h)).Some?
  {
    PhaseInRange(secs, h);
    TitleDefined(SelectedPhase(secs, h));
  }

  /** Visibility switches on strictly after 80% of the viewport height and
      stays on further down. */
  lemma PastHeroThreshold(scrollY: int, further: int, h: int)
    ensures 5 * scrollY == 4 * h ==> !PastHero(scrollY, h)
    ensures PastHero(scrollY, h) && scrollY <= further ==> PastHero(further, h)
  {
  }

  class Indicator {
    var activePhase: Option<int>
    var isVisible: bool

    /** Phase 1, hidden; nothing is computed until the first scroll event. */
    constructor ()
      ensures activePhase == Some(1) && !isVisible
    {
      activePhase := Some(1);
      isVisible := false;
    }

    /** `handleScroll` for the page scrolled to `scrollY`, the viewport `h`
        high and the `[data-phase]` sections as they lie. */
    method HandleScroll(scrollY: int, h: int, secs: seq<Section>)
      modifies this
      ensures isVisible <==> PastHero(scrollY, h)
      ensures activePhase == SelectedPhase(secs, h)
    {
      if 5 * scrollY > 4 * h {
        isVisible := true;
      } else {
        isVisible := false;
      }
      var current := SelectPhase(secs, h);
      activePhase := current;
    }

    /** What the badge displays: nothing while hidden, else the title. */
    function Shown(): Option<Option<string>>
      reads this
    {
      if isVisible then Some(Title(activePhase)) else None
    }
  }
}
