/** The scroll-phase rule shared by PhaseIndicator.jsx and PhaseLighting.jsx:
    walk the `[data-phase]` sections in document order and keep the phase of
    the last one that straddles the middle of the viewport, 1 when none
    does. Geometry is in whole pixels and the viewport height is `h`. */
module PhaseSelection {
  import opened Options

  /** A `[data-phase]` element: its bounding rectangle's top and bottom, and
      `parseInt` of its attribute (`None` for NaN). */
  datatype Section = Section(top: int, bottom: int, phase: Option<int>)

  /** `rect.top <= h * 0.5 && rect.bottom >= h * 0.5`, both bounds inclusive. */
  predicate Straddles(s: Section, h: int) {
    2 * s.top <= h && h <= 2 * s.bottom
  }

  /** The phase the scan ends with: the last straddling section's, or 1. */
  function SelectedPhase(secs: seq<Section>, h: int): Option<int> {
    if secs == [] then Some(1)
    else if Straddles(secs[|secs| - 1], h) then secs[|secs| - 1].phase
    else SelectedPhase(secs[..|secs| - 1], h)
  }

  /** The `forEach` over the sections with its accumulator `current`. */
  method SelectPhase(secs: seq<Section>, h: int) returns (current: Option<int>)
    ensures current == SelectedPhase(secs, h)
  {
    current := Some(1);
    for i := 0 to |secs|
      invariant current == SelectedPhase(secs[..i], h)
    {
      assert secs[..i + 1][..i] == secs[..i];
      if 2 * secs[i].top <= h && h <= 2 * secs[i].bottom {
        current := secs[i].phase;
      }
    }
    assert secs[..|secs|] == secs;
  }

  /** With no section on the midline the phase is 1. */
  lemma {:induction false} NoneStraddlesDefault(secs: seq<Section>, h: int)
    requires forall k :: 0 <= k < |secs| ==> !Straddles(secs[k], h)
    ensures SelectedPhase(secs, h) == Some(1)
  {
    if secs != [] {
      NoneStraddlesDefault(secs[..|secs| - 1], h);
    }
  }

  /** The last straddling section decides, whatever comes before it. */
  lemma {:induction false} LastStraddlerWins(secs: seq<Section>, h: int, j: nat)
    requires j < |secs| && Straddles(secs[j], h)
    requires forall k :: j < k < |secs| ==> !Straddles(secs[k], h)
    ensures SelectedPhase(secs, h) == secs[j].phase
    decreases |secs|
  {
    if j < |secs| - 1 {
      LastStraddlerWins(secs[..|secs| - 1], h, j);
    }
  }

  /** The phase is 1 or the phase of some straddling section. */
  lemma {:induction false} SelectedComesFromAStraddler(secs: seq<Section>, h: int)
    ensures SelectedPhase(secs, h) == Some(1) ||
      exists k :: 0 <= k < |secs| && Straddles(secs[k], h) && secs[k].phase == SelectedPhase(secs, h)
  {
    if secs != [] && !Straddles(secs[|secs| - 1], h) {
      var init := secs[..|secs| - 1];
      SelectedComesFromAStraddler(init, h);
      if SelectedPhase(init, h) != Some(1) {
        var k :| 0 <= k < |init| && Straddles(init[k], h) && init[k].phase == SelectedPhase(init, h);
        assert secs[k] == init[k];
      }
    }
  }

  /** A section off the midline can be added anywhere without changing the
      selected phase. */
  lemma {:induction false} OffMidlineIrrelevant(a: seq<Section>, s: Section, b: seq<Section>, h: int)
    requires !Straddles(s, h)
    ensures SelectedPhase(a + [s] + b, h) == SelectedPhase(a + b, h)
    decreases |b|
  {
    if b == [] {
      assert (a + [s] + b)[..|a + [s] + b| - 1] == a;
      assert a + b == a;
    } else {
      var b' := b[..|b| - 1];
      assert (a + [s] + b)[..|a + [s] + b| - 1] == a + [s] + b';
      assert (a + b)[..|a + b| - 1] == a + b';
      OffMidlineIrrelevant(a, s, b', h);
    }
  }

  /** When every section carries one of the phases 1..4, so does the result. */
  lemma PhaseInRange(secs: seq<Section>, h: int)
    requires forall k :: 0 <= k < |secs| ==> secs[k].phase.Some? && 1 <= secs[k].phase.value <= 4
    ensures SelectedPhase(secs, h).Some? && 1 <= SelectedPhase(secs, h).value <= 4
  {
    SelectedComesFromAStraddler(secs, h);
  }
}
