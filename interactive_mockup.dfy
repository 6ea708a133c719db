/** InteractiveMockup.jsx: a page of five blocks, shown either as a single
    page application where every block ships JavaScript, or as Astro
    islands where only the interactive blocks do. */
module InteractiveMockup {

  /** The `mode` cell: 'monolith' or 'astro'. */
  datatype Mode = Monolith | Astro

  /** An entry of the `components` table (icon and sizes left out). */
  datatype Block = Block(id: int, name: string, kind: string)

  const Components: seq<Block> := [
    Block(1, "Header", "static"),
    Block(2, "Article Content", "static"),
    Block(3, "Share Button", "interactive"),
    Block(4, "Comments", "interactive"),
    Block(5, "Footer", "static")
  ]

  /** `isJsActive(type)`. */
  predicate IsJsActive(mode: Mode, kind: string) {
    if mode == Monolith then true else kind == "interactive"
  }

  /** `getJsLoad()`: the estimated bundle size in KB. */
  function JsLoad(mode: Mode): int {
    if mode == Monolith then 100 else 15
  }

  /** `mode === 'astro' && comp.type === 'interactive'`. */
  predicate IsIsland(mode: Mode, kind: string) {
    mode == Astro && kind == "interactive"
  }

  /** The status badge of a block. */
  function Badge(mode: Mode, kind: string): string {
    if IsJsActive(mode, kind) then "JS HYDRATED" else "STATIC HTML"
  }

  /** The three looks a block can take. */
  datatype Look = IslandLook | MonolithLook | StaticLook

  function LookOf(mode: Mode, kind: string): Look {
    if IsJsActive(mode, kind) then (if IsIsland(mode, kind) then IslandLook else MonolithLook)
    else StaticLook
  }

  /** The ids of the blocks that ship JavaScript, in page order. */
  function ActiveIds(mode: Mode, blocks: seq<Block>): (ids: seq<int>)
    ensures |ids| <= |blocks|
  {
    if blocks == [] then []
    else (if IsJsActive(mode, blocks[0].kind) then [blocks[0].id] else []) + ActiveIds(mode, blocks[1..])
  }

  /** Monolith hydrates everything; Astro exactly the interactive blocks. */
  lemma ActivityRule(kind: string)
    ensures IsJsActive(Monolith, kind)
    ensures IsJsActive(Astro, kind) <==> kind == "interactive"
  {
  }

  /** 100 KB for the monolith, 15 KB for Astro, and nothing else. */
  lemma JsLoadValues(mode: Mode)
    ensures JsLoad(mode) == 100 <==> mode == Monolith
    ensures JsLoad(mode) == 15 <==> mode == Astro
  {
  }

  /** Every island is hydrated, and a hydrated block is an island exactly
      in Astro mode. */
  lemma IslandsAreActive(mode: Mode, kind: string)
    ensures IsIsland(mode, kind) ==> IsJsActive(mode, kind)
    ensures IsJsActive(mode, kind) ==> (IsIsland(mode, kind) <==> mode == Astro)
  {
  }

  /** The badge says hydrated exactly for active blocks, and the look tells
      the island, monolith and static blocks apart. */
  lemma BadgeAndLook(mode: Mode, kind: string)
    ensures Badge(mode, kind) == "JS HYDRATED" <==> IsJsActive(mode, kind)
    ensures Badge(mode, kind) == "STATIC HTML" <==> !IsJsActive(mode, kind)
    ensures LookOf(mode, kind) == IslandLook <==> IsIsland(mode, kind)
    ensures LookOf(mode, kind) == MonolithLook <==> mode == Monolith
    ensures LookOf(mode, kind) == StaticLook <==> mode == Astro && kind != "interactive"
  {
    assert |"JS HYDRATED"| == |"STATIC HTML"|;
    assert "JS HYDRATED"[0] != "STATIC HTML"[0];
  }

  /** An id is listed exactly when its block ships JavaScript. */
  lemma {:induction false} ActiveIdsChosen(mode: Mode, blocks: seq<Block>, id: int)
    ensures id in ActiveIds(mode, blocks) <==>
      exists k :: 0 <= k < |blocks| && blocks[k].id == id && IsJsActive(mode, blocks[k].kind)
  {
    if blocks != [] {
      ActiveIdsChosen(mode, blocks[1..], id);
      if id in ActiveIds(mode, blocks) && !(IsJsActive(mode, blocks[0].kind) && blocks[0].id == id) {
        var k :| 0 <= k < |blocks[1..]| && blocks[1..][k].id == id && IsJsActive(mode, blocks[1..][k].kind);
        assert blocks[k + 1] == blocks[1..][k];
      }
      if exists k :: 0 <= k < |blocks| && blocks[k].id == id && IsJsActive(mode, blocks[k].kind) {
        var k :| 0 <= k < |blocks| && blocks[k].id == id && IsJsActive(mode, blocks[k].kind);
        if k > 0 {
          assert blocks[1..][k - 1] == blocks[k];
        }
      }
    }
  }

  /** On this page Astro hydrates the share button and the comments only,
      while the monolith hydrates all five blocks. */
  lemma ComponentsHydrated()
    ensures ActiveIds(Astro, Components) == [3, 4]
    ensures ActiveIds(Monolith, Components) == [1, 2, 3, 4, 5]
  {
    assert Components[0].kind == "static" && Components[1].kind == "static" && Components[4].kind == "static";
    assert Components[2].kind == "interactive" && Components[3].kind == "interactive";
    assert |"static"| != |"interactive"|;
    assert Components[1..][1..][1..][1..][1..] == [];
  }

  /** The component with its one state cell. */
  class Mockup {
    var mode: Mode

    /** `useState('astro')`. */
    constructor ()
      ensures mode == Astro
    {
      mode := Astro;
    }

    /** The two buttons: `setMode('monolith')` and `setMode('astro')`. */
    method SetMode(m: Mode)
      modifies this
      ensures mode == m
    {
      mode := m;
    }

    /** What the page shows in the current mode: the ids of the blocks
        drawn as hydrated, in page order, and the KB figure. */
    method Shown() returns (ids: seq<int>, kb: int)
      ensures ids == ActiveIds(mode, Components) && kb == JsLoad(mode)
      ensures mode == Astro ==> ids == [3, 4] && kb == 15
      ensures mode == Monolith ==> ids == [1, 2, 3, 4, 5] && kb == 100
    {
      ComponentsHydrated();
      ids := ActiveIds(mode, Components);
      kb := JsLoad(mode);
    }
  }
}
