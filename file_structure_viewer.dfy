/** FileStructureViewer.jsx: four example project trees, one shown at a
    time, each drawn as indented rows by the recursive `FileItem`. */
module FileStructure {
  import opened Options

  /** An entry of a `files` tree. An absent `children` is the empty list;
      an absent `note` is `None`. */
  datatype FileNode = FileNode(name: string, kind: string, note: Option<string>, dim: bool, children: seq<FileNode>)

  /** The icon drawn in front of a row. */
  datatype Icon = FolderOpen | FileCode | Settings | FileJson

  /** What one row of the tree shows. */
  datatype Row = Row(name: string, depth: nat, icon: Option<Icon>, note: Option<string>, dimmed: bool)

  /** Lines 86-89: one icon per known type, none for any other. */
  function IconOf(kind: string): Option<Icon> {
    if kind == "folder" then Some(FolderOpen)
    else if kind == "file" then Some(FileCode)
    else if kind == "config" then Some(Settings)
    else if kind == "json" then Some(FileJson)
    else None
  }

  /** `{item.note && ...}`: an empty note is falsy and shows no badge. */
  function NoteBadge(note: Option<string>): Option<string> {
    if note.Some? && note.value != "" then note else None
  }

  /** The row `FileItem` draws for `item` itself at `depth`. */
  function RowOf(item: FileNode, depth: nat): Row {
    Row(item.name, depth, IconOf(item.kind), NoteBadge(item.note), item.dim)
  }

  /** `<FileItem item={item} depth={depth} />`: its own row, then each child
      at `depth + 1`. */
  function RenderItem(item: FileNode, depth: nat): seq<Row>
    decreases item
  {
    [RowOf(item, depth)] + RenderList(item.children, depth + 1)
  }

  /** `items.map(child => <FileItem item={child} depth={depth} />)`. */
  function RenderList(items: seq<FileNode>, depth: nat): seq<Row>
    decreases items
  {
    if items == [] then [] else RenderItem(items[0], depth) + RenderList(items[1..], depth)
  }

  /** The number of nodes of a tree. */
  function Size(item: FileNode): nat
    decreases item
  {
    1 + SizeList(item.children)
  }

  function SizeList(items: seq<FileNode>): nat
    decreases items
  {
    if items == [] then 0 else Size(items[0]) + SizeList(items[1..])
  }

  /** The number of levels of a tree. */
  function Height(item: FileNode): nat
    decreases item
  {
    1 + HeightList(item.children)
  }

  function HeightList(items: seq<FileNode>): nat
    decreases items
  {
    if items == [] then 0
    else var h := Height(items[0]); var t := HeightList(items[1..]); if h < t then t else h
  }

  // =====================================================================
  // Properties of the traversal

  /** One row per node. */
  lemma {:induction false} RowCount(item: FileNode, depth: nat)
    ensures |RenderItem(item, depth)| == Size(item)
    decreases item
  {
    RowCountList(item.children, depth + 1);
  }

  lemma {:induction false} RowCountList(items: seq<FileNode>, depth: nat)
    ensures |RenderList(items, depth)| == SizeList(items)
    decreases items
  {
    if items != [] {
      RowCount(items[0], depth);
      RowCountList(items[1..], depth);
    }
  }

  /** An item's row comes first at its own depth; every row after it, its
      descendants', is deeper, and none is deeper than the tree's height. */
  lemma {:induction false} ItemDepths(item: FileNode, depth: nat)
    ensures RenderItem(item, depth)[0] == RowOf(item, depth)
    ensures forall k :: 1 <= k < |RenderItem(item, depth)| ==> RenderItem(item, depth)[k].depth > depth
    ensures forall k :: 0 <= k < |RenderItem(item, depth)| ==>
      depth <= RenderItem(item, depth)[k].depth < depth + Height(item)
    decreases item
  {
    var rows := RenderItem(item, depth);
    var below := RenderList(item.children, depth + 1);
    ListDepths(item.children, depth + 1);
    forall k | 1 <= k < |rows|
      ensures depth < rows[k].depth < depth + Height(item)
    {
      assert rows[k] == below[k - 1];
    }
  }

  lemma {:induction false} ListDepths(items: seq<FileNode>, depth: nat)
    ensures forall k :: 0 <= k < |RenderList(items, depth)| ==>
      depth <= RenderList(items, depth)[k].depth < depth + HeightList(items)
    decreases items
  {
    if items != [] {
      var first: seq<Row> := RenderItem(items[0], depth);
      var rest: seq<Row> := RenderList(items[1..], depth);
      ItemDepths(items[0], depth);
      ListDepths(items[1..], depth);
      forall k | 0 <= k < |first + rest|
        ensures depth <= (first + rest)[k].depth < depth + HeightList(items)
      {
        if k < |first| {
          assert (first + rest)[k] == first[k];
        } else {
          assert (first + rest)[k] == rest[k - |first|];
        }
      }
    }
  }

  /** Going down the rows, the indent grows by at most one level at a time. */
  predicate StepsDown(rows: seq<Row>) {
    forall k :: 0 <= k < |rows| - 1 ==> rows[k + 1].depth <= rows[k].depth + 1
  }

  lemma StepsConcat(a: seq<Row>, b: seq<Row>)
    requires StepsDown(a) && StepsDown(b)
    requires a != [] && b != [] ==> b[0].depth <= a[|a| - 1].depth + 1
    ensures StepsDown(a + b)
  {
    forall k | 0 <= k < |a + b| - 1
      ensures (a + b)[k + 1].depth <= (a + b)[k].depth + 1
    {
      if k + 1 < |a| {
        assert (a + b)[k] == a[k] && (a + b)[k + 1] == a[k + 1];
      } else if k + 1 == |a| {
        assert (a + b)[k] == a[k] && (a + b)[k + 1] == b[0];
      } else {
        assert (a + b)[k] == b[k - |a|] && (a + b)[k + 1] == b[k + 1 - |a|];
      }
    }
  }

  /** The rendered rows start at the given depth and never jump more than
      one level down: the shape of a pre-order walk. */
  lemma {:induction false} ItemSteps(item: FileNode, depth: nat)
    ensures StepsDown(RenderItem(item, depth))
    decreases item
  {
    ListSteps(item.children, depth + 1);
    ListDepths(item.children, depth + 1);
    var below := RenderList(item.children, depth + 1);
    if below != [] {
      assert below[0].depth >= depth + 1;
    }
    StepsConcat([RowOf(item, depth)], below);
  }

  lemma {:induction false} ListSteps(items: seq<FileNode>, depth: nat)
    ensures StepsDown(RenderList(items, depth))
    ensures RenderList(items, depth) != [] ==> RenderList(items, depth)[0].depth == depth
    decreases items
  {
    if items != [] {
      var first: seq<Row> := RenderItem(items[0], depth);
      var rest: seq<Row> := RenderList(items[1..], depth);
      ItemSteps(items[0], depth);
      ItemDepths(items[0], depth);
      ListSteps(items[1..], depth);
      assert first[|first| - 1].depth >= depth;
      StepsConcat(first, rest);
      assert (first + rest)[0] == first[0];
    }
  }

  /** The names of the rows at `depth`, in order. */
  function NamesAt(rows: seq<Row>, depth: nat): seq<string> {
    if rows == [] then []
    else (if rows[0].depth == depth then [rows[0].name] else []) + NamesAt(rows[1..], depth)
  }

  function Names(items: seq<FileNode>): (r: seq<string>)
    ensures |r| == |items|
  {
    if items == [] then [] else [items[0].name] + Names(items[1..])
  }

  lemma {:induction false} NamesAtConcat(a: seq<Row>, b: seq<Row>, depth: nat)
    ensures NamesAt(a + b, depth) == NamesAt(a, depth) + NamesAt(b, depth)
  {
    if a != [] {
      assert (a + b)[1..] == a[1..] + b;
      NamesAtConcat(a[1..], b, depth);
    } else {
      assert a + b == b;
    }
  }

  lemma {:induction false} NamesAtNone(rows: seq<Row>, depth: nat)
    requires forall k :: 0 <= k < |rows| ==> rows[k].depth > depth
    ensures NamesAt(rows, depth) == []
  {
    if rows != [] {
      NamesAtNone(rows[1..], depth);
    }
  }

  /** The rows at the list's own depth are exactly its items, in order:
      children never show up at their parent's level. */
  lemma {:induction false} TopLevelRows(items: seq<FileNode>, depth: nat)
    ensures NamesAt(RenderList(items, depth), depth) == Names(items)
    decreases items
  {
    if items != [] {
      var item := items[0];
      var below := RenderList(item.children, depth + 1);
      ListDepths(item.children, depth + 1);
      NamesAtNone(below, depth);
      NamesAtConcat([RowOf(item, depth)], below, depth);
      NamesAtConcat(RenderItem(item, depth), RenderList(items[1..], depth), depth);
      TopLevelRows(items[1..], depth);
    }
  }

  /** Each of the four types has its own icon, and no other type has one. */
  lemma IconsByType(kind: string, other: string)
    ensures IconOf(kind).Some? <==> kind in {"folder", "file", "config", "json"}
    ensures IconOf(kind).Some? && IconOf(kind) == IconOf(other) ==> kind == other
  {
  }

  /** The badge shows a non-empty note, and dimming follows `dim`. */
  lemma RowDecoration(item: FileNode, depth: nat)
    ensures RowOf(item, depth).note.Some? <==> item.note.Some? && item.note.value != ""
    ensures RowOf(item, depth).note.Some? ==> RowOf(item, depth).note == item.note
    ensures RowOf(item, depth).dimmed <==> item.dim
  {
  }

  // =====================================================================
  // The `frameworks` table and the selected tab

  datatype Framework = Framework(id: string, name: string, badge: string, files: seq<FileNode>)

  function Leaf(name: string, kind: string, note: Option<string>): FileNode {
    FileNode(name, kind, note, false, [])
  }

  function Folder(name: string, children: seq<FileNode>): FileNode {
    FileNode(name, "folder", None, false, children)
  }

  const AstroProject: Framework := Framework("astro", "Astro", "OPTIMAL", [
    Folder("src", [
      Folder("pages", [Leaf("index.astro", "file", Some("Renders to pure HTML"))]),
      Folder("components", [Leaf("Card.astro", "file", None)])]),
    Leaf("astro.config.mjs", "config", None),
    Leaf("package.json", "json", None)])

  const NextProject: Framework := Framework("next", "Next.js", "HEAVY", [
    Folder("app", [
      Leaf("layout.tsx", "file", Some("Root Layout + Context")),
      Leaf("page.tsx", "file", Some("React Component")),
      Leaf("globals.css", "file", None)]),
    Folder("public", []),
    Leaf("next.config.js", "config", None),
    Leaf("package.json", "json", None),
    FileNode(".next", "folder", Some("Huge Build Artifacts"), true, [])])

  const GatsbyProject: Framework := Framework("gatsby", "Gatsby", "COMPLEX", [
    Folder("src", [
      Folder("pages", [Leaf("index.js", "file", None)]),
      Folder("templates", [])]),
    Leaf("gatsby-config.js", "config", Some("Plugin Config Hell")),
    Leaf("gatsby-node.js", "config", Some("Build logic")),
    Leaf("gatsby-browser.js", "config", None),
    Leaf("package.json", "json", None)])

  const CraProject: Framework := Framework("cra", "CRA", "LEGACY", [
    Folder("public", [Leaf("index.html", "file", Some("Empty Div Root"))]),
    Folder("src", [
      Leaf("App.js", "file", None),
      Leaf("index.js", "file", Some("Injects entire app")),
      Leaf("App.css", "file", None)]),
    Leaf("package.json", "json", None),
    FileNode("node_modules", "folder", Some("The Black Hole"), true, [])])

  const Frameworks: map<string, Framework> := map[
    "astro" := AstroProject, "next" := NextProject, "gatsby" := GatsbyProject, "cra" := CraProject]

  /** `Object.values(frameworks)`: the sidebar buttons, top to bottom. */
  const Buttons: seq<Framework> := [AstroProject, NextProject, GatsbyProject, CraProject]

  /** `useState('astro')`, then a click on button `fw` selects `fw.id`. */
  function TabAfter(clicks: seq<Framework>): string {
    if clicks == [] then "astro" else clicks[|clicks| - 1].id
  }

  /** Every entry is filed under its own id, and each button shows the
      entry filed under its id. */
  lemma FrameworksKeyed()
    ensures forall key :: key in Frameworks ==> Frameworks[key].id == key
    ensures forall b :: 0 <= b < |Buttons| ==> Buttons[b].id in Frameworks && Frameworks[Buttons[b].id] == Buttons[b]
  {
  }

  /** `frameworks[activeTab]` is defined at first and after any sequence of
      clicks on the sidebar buttons, and it is the framework last clicked. */
  lemma ActiveFrameworkDefined(clicks: seq<Framework>)
    requires forall i :: 0 <= i < |clicks| ==> clicks[i] in Buttons
    ensures TabAfter(clicks) in Frameworks
    ensures clicks != [] ==> Frameworks[TabAfter(clicks)] == clicks[|clicks| - 1]
  {
    FrameworksKeyed();
    if clicks != [] {
      var b :| 0 <= b < |Buttons| && Buttons[b] == clicks[|clicks| - 1];
    }
  }

  /** The Astro project draws seven rows. */
  lemma AstroTreeRows()
    ensures SizeList(AstroProject.files) == 7
    ensures |RenderList(AstroProject.files, 0)| == 7
  {
    var files := AstroProject.files;
    assert SizeList(files[0].children[0].children) == 1;
    assert SizeList(files[0].children[1].children) == 1;
    assert SizeList(files[0].children) == 4;
    assert SizeList(files[1..][1..]) == 1;
    RowCountList(files, 0);
  }

  /** Its rows at depth 0 are `src`, `astro.config.mjs` and `package.json`. */
  lemma AstroTopLevel()
    ensures NamesAt(RenderList(AstroProject.files, 0), 0) == ["src", "astro.config.mjs", "package.json"]
  {
    var files := AstroProject.files;
    TopLevelRows(files, 0);
    assert Names(files[1..][1..]) == ["package.json"];
  }
}
