/** mod.py: `add_navigation_module`, the script that creates the
    PhaseNavigator component, patches the layout (an import after the first
    `---`, the component tag after `<body...>`) and wraps the sections of
    the index page in `<div id='...'>`. Every edit is guarded by an
    "already present?" test. */
module NavigationPatch {
  import opened Options
  import opened PyStrings
  import opened FileStore

  /** os.path.join of the script's relative paths, with POSIX separators. */
  const NavigatorPath: string := "src/components/PhaseNavigator.jsx"
  const LayoutPath: string := "src/layouts/Layout.astro"
  const IndexPath: string := "src/pages/index.astro"

  const ImportMarker: string := "import PhaseNavigator"
  const Fence: string := "---"
  /** What follows the first fence once the import is added: a newline and
      `import PhaseNavigator from '../components/PhaseNavigator.jsx';`. */
  const ImportInsert: string := "\n" + ImportMarker + " from '../components/PhaseNavigator.jsx';"
  const TagMarker: string := "<PhaseNavigator"
  /** The anchor of the identity `replace` on the body tag. */
  const BodyAnchor: string := "<body class=\""
  const BodyOpen: string := "<body"
  /** What the `re.sub` puts after each matched body tag: a newline, eight
      spaces and `<PhaseNavigator client:idle />`. */
  const TagInsert: string := "\n        " + TagMarker + " client:idle />"

  // =====================================================================
  // The layout edits

  /** Step 1: the import line, only when "import PhaseNavigator" is absent. */
  function InjectImport(layout: string): string {
    if !Contains(layout, ImportMarker) then ReplaceFirst(layout, Fence, Fence + ImportInsert)
    else layout
  }

  /** The regular expression `.*?>` on a text: the index of the first '>'
      when no newline comes before it ('.' does not match a newline). */
  function LineClose(s: string): (r: Option<nat>)
    ensures r.Some? ==> r.value < |s| && s[r.value] == '>'
  {
    if s == [] then None
    else if s[0] == '>' then Some(0)
    else if s[0] == '\n' then None
    else match LineClose(s[1..])
      case None => None
      case Some(j) => Some(j + 1)
  }

  /** `.*?>` stops at the first '>' of the line, and fails exactly when a
      newline comes before every '>'. */
  lemma {:induction false} LineCloseIsFirst(s: string)
    ensures LineClose(s).Some? ==>
      forall k :: 0 <= k < LineClose(s).value ==> s[k] != '>' && s[k] != '\n'
    ensures LineClose(s).None? ==>
      forall j :: 0 <= j < |s| && s[j] == '>' ==> exists k :: 0 <= k < j && s[k] == '\n'
  {
    if s != [] && s[0] != '>' && s[0] != '\n' {
      LineCloseIsFirst(s[1..]);
      forall k | 1 <= k < |s| ensures s[k] == s[1..][k - 1] { }
      if LineClose(s).None? {
        forall j | 0 <= j < |s| && s[j] == '>' ensures exists k :: 0 <= k < j && s[k] == '\n' {
          assert s[1..][j - 1] == '>';
          var k :| 0 <= k < j - 1 && s[1..][k] == '\n';
          assert s[k + 1] == '\n';
        }
      }
    }
  }

  /** `re.sub(r'(' + open + '.*?>)', r'\1' + ins, s)`: scanning left to
      right, every `open` whose `>` is on the same line gets `ins` right
      after that `>`; scanning resumes after the match. */
  function InsertAfterTags(s: string, open: string, ins: string): string
    decreases |s|
  {
    if s == [] then []
    else if StartsWith(s, open) && LineClose(s[|open|..]).Some? then
      var e := |open| + LineClose(s[|open|..]).value + 1;
      s[..e] + ins + InsertAfterTags(s[e..], open, ins)
    else [s[0]] + InsertAfterTags(s[1..], open, ins)
  }

  /** The `re.sub` of mod.py:146. */
  function InsertAfterBodyTags(s: string): string {
    InsertAfterTags(s, BodyOpen, TagInsert)
  }

  /** Step 2: the component tag, only when "<PhaseNavigator" is absent. */
  function InjectComponent(layout: string): string {
    if !Contains(layout, TagMarker) then
      InsertAfterBodyTags(ReplaceAll(layout, BodyAnchor, BodyAnchor))
    else layout
  }

  /** mod.py:139-146, in the order the script runs them. */
  function PatchLayout(layout: string): string {
    InjectComponent(InjectImport(layout))
  }

  // ---------------------------------------------------------------------
  // One scanning step of the `re.sub`

  /** A tag opens at the start of `s` and closes on its line. */
  predicate TagOpens(s: string, open: string) {
    StartsWith(s, open) && LineClose(s[|open|..]).Some?
  }

  /** Where that tag ends, just after its `>`. */
  function TagEnd(s: string, open: string): (e: nat)
    requires TagOpens(s, open)
    ensures |open| < e <= |s| && s[e - 1] == '>'
  {
    |open| + LineClose(s[|open|..]).value + 1
  }

  lemma InsertSkips(s: string, open: string, ins: string)
    requires s != [] && !TagOpens(s, open)
    ensures InsertAfterTags(s, open, ins) == [s[0]] + InsertAfterTags(s[1..], open, ins)
  {
  }

  lemma InsertMatches(s: string, open: string, ins: string, e: nat)
    requires TagOpens(s, open) && e == TagEnd(s, open)
    ensures InsertAfterTags(s, open, ins) == s[..e] + ins + InsertAfterTags(s[e..], open, ins)
  {
  }

  // ---------------------------------------------------------------------
  // What the `re.sub` does

  /** Past characters where no tag opens, the `re.sub` copies the text. */
  lemma {:induction false} InsertSkipsPrefix(s: string, open: string, ins: string, n: nat)
    requires n <= |s|
    requires forall k :: 0 <= k < n ==> !TagOpens(s[k..], open)
    ensures InsertAfterTags(s, open, ins) == s[..n] + InsertAfterTags(s[n..], open, ins)
    decreases n
  {
    if n == 0 {
      assert s[..0] + s[0..] == s;
    } else {
      var t := s[1..];
      forall k | 0 <= k < n - 1 ensures !TagOpens(t[k..], open) {
        assert t[k..] == s[k + 1..];
      }
      InsertSkipsPrefix(t, open, ins, n - 1);
      assert t[n - 1..] == s[n..];
      assert !TagOpens(s, open) by {
        assert s[0..] == s;
      }
      InsertSkips(s, open, ins);
      ConsSlice(s, n, InsertAfterTags(s[n..], open, ins));
    }
  }

  /** The text up to the first tag that closes on its line is kept, and `ins`
      follows its `>`, which is at `e - 1`. An earlier `open` whose `>` is
      on a later line does not count. */
  lemma InsertAfterFirstTag(s: string, open: string, ins: string, i: nat, j: nat, e: nat)
    requires OccursAt(s, open, i)
    requires forall k :: 0 <= k < i ==> !TagOpens(s[k..], open)
    requires LineClose(s[i + |open|..]) == Some(j) && e == i + |open| + j + 1
    ensures e <= |s|
    ensures InsertAfterTags(s, open, ins) == s[..e] + ins + InsertAfterTags(s[e..], open, ins)
  {
    InsertSkipsPrefix(s, open, ins, i);
    InsertAtTag(s, open, ins, i, j, e);
    SplitAt(s, i, e - i, e, ins, InsertAfterTags(s, open, ins),
      InsertAfterTags(s[i..], open, ins), InsertAfterTags(s[e..], open, ins));
  }

  /** At an `open` that closes on its line, `ins` follows its `>`. */
  lemma InsertAtTag(s: string, open: string, ins: string, i: nat, j: nat, e: nat)
    requires OccursAt(s, open, i) && LineClose(s[i + |open|..]) == Some(j)
    requires e == i + |open| + j + 1
    ensures e <= |s|
    ensures InsertAfterTags(s[i..], open, ins) == s[i..][..e - i] + ins + InsertAfterTags(s[e..], open, ins)
  {
    TagOpensAt(s, open, i, j);
    InsertMatches(s[i..], open, ins, e - i);
    assert s[i..][e - i..] == s[e..];
  }

  /** An `open` that closes on its line opens a tag where it occurs. */
  lemma TagOpensAt(s: string, open: string, i: nat, j: nat)
    requires OccursAt(s, open, i) && LineClose(s[i + |open|..]) == Some(j)
    ensures TagOpens(s[i..], open) && TagEnd(s[i..], open) == |open| + j + 1
  {
    assert s[i..][..|open|] == s[i..i + |open|];
    assert s[i..][|open|..] == s[i + |open|..];
  }

  /** No `open` in `s` closes on its line. */
  predicate NoClosingTag(s: string, open: string) {
    forall i :: 0 <= i <= |s| - |open| && OccursAt(s, open, i) ==> LineClose(s[i + |open|..]).None?
  }

  /** Without a tag that closes on its line, the `re.sub` changes nothing. */
  lemma {:induction false} NoClosingTagUnchanged(s: string, open: string, ins: string)
    requires NoClosingTag(s, open)
    ensures InsertAfterTags(s, open, ins) == s
    decreases |s|
  {
    if s != [] {
      NoClosingTagTail(s, open);
      InsertSkips(s, open, ins);
      NoClosingTagUnchanged(s[1..], open, ins);
      assert [s[0]] + s[1..] == s;
    }
  }

  lemma NoClosingTagTail(s: string, open: string)
    requires s != [] && NoClosingTag(s, open)
    ensures !TagOpens(s, open) && NoClosingTag(s[1..], open)
  {
    StartsWithAt(s, open);
    if OccursAt(s, open, 0) {
      assert 0 <= |s| - |open|;
    }
    var t := s[1..];
    forall i | 0 <= i <= |t| - |open| && OccursAt(t, open, i)
      ensures LineClose(t[i + |open|..]).None?
    {
      OccursInSuffix(s, open, 1, i);
      assert t[i + |open|..] == s[i + 1 + |open|..];
    }
  }

  /** The `re.sub` either changes nothing or leaves what `ins` contains. */
  lemma {:induction false} InsertUnchangedOrMarked(s: string, open: string, ins: string, marker: string)
    requires Contains(ins, marker)
    ensures InsertAfterTags(s, open, ins) == s || Contains(InsertAfterTags(s, open, ins), marker)
    decreases |s|
  {
    if s == [] {
    } else if TagOpens(s, open) {
      var e := TagEnd(s, open);
      InsertMatches(s, open, ins, e);
      ContainsInfix(s[..e], ins, InsertAfterTags(s[e..], open, ins), marker);
    } else {
      InsertSkips(s, open, ins);
      InsertUnchangedOrMarked(s[1..], open, ins, marker);
      var rest := InsertAfterTags(s[1..], open, ins);
      if rest == s[1..] {
        assert [s[0]] + s[1..] == s;
      } else {
        var j :| 0 <= j <= |rest| && OccursAt(rest, marker, j);
        OccursInBoth([s[0]], rest, marker, j);
      }
    }
  }

  // ---------------------------------------------------------------------
  // Which texts the `re.sub` keeps, and which it cannot create

  lemma {:induction false} InsertKeepsPrefix(t: string, open: string, ins: string, w: string)
    requires Lacks(w, '>') && |w| <= |t| && t[..|w|] == w
    ensures |w| <= |InsertAfterTags(t, open, ins)| && InsertAfterTags(t, open, ins)[..|w|] == w
    decreases |t|
  {
    if w != [] {
      if TagOpens(t, open) {
        KeepsPrefixAtTag(t, open, ins, w, TagEnd(t, open));
      } else {
        var rest := InsertAfterTags(t[1..], open, ins);
        assert t == [t[0]] + t[1..];
        UnconsPrefix(t, t[0], t[1..], w);
        InsertKeepsPrefix(t[1..], open, ins, w[1..]);
        InsertSkips(t, open, ins);
        ConsPrefix(InsertAfterTags(t, open, ins), t[0], rest, w);
      }
    }
  }

  /** A tag's `>` comes after any start of the text that lacks '>'. */
  lemma KeepsPrefixAtTag(t: string, open: string, ins: string, w: string, e: nat)
    requires TagOpens(t, open) && e == TagEnd(t, open)
    requires Lacks(w, '>') && |w| <= |t| && t[..|w|] == w
    ensures |w| <= |InsertAfterTags(t, open, ins)| && InsertAfterTags(t, open, ins)[..|w|] == w
  {
    InsertMatches(t, open, ins, e);
    var r := InsertAfterTags(t, open, ins);
    StartsWithAt(t, w);
    OccursAroundChar(t, w, 0, e - 1, '>');
    assert r[..|w|] == t[..e][..|w|];
  }

  /** A text without '>' survives the `re.sub`. */
  lemma {:induction false} InsertKeeps(s: string, open: string, ins: string, p: string)
    requires Lacks(p, '>') && Contains(s, p)
    ensures Contains(InsertAfterTags(s, open, ins), p)
    decreases |s|
  {
    var i :| 0 <= i <= |s| && OccursAt(s, p, i);
    if i == 0 {
      InsertKeepsPrefix(s, open, ins, p);
      assert OccursAt(InsertAfterTags(s, open, ins), p, 0);
    } else if TagOpens(s, open) {
      var e := TagEnd(s, open);
      InsertMatches(s, open, ins, e);
      var rest := InsertAfterTags(s[e..], open, ins);
      if i + |p| <= e {
        OccursBeforeEnd(s[..e] + ins, rest, p, i) by {
          OccursBeforeEnd(s[..e], ins, p, i) by {
            assert s[..e][i..i + |p|] == s[i..i + |p|];
          }
          OccursInPrefix(s[..e], ins, p, i);
        }
        OccursInPrefix(s[..e] + ins, rest, p, i);
      } else {
        OccursAroundChar(s, p, i, e - 1, '>');
        OccursInSuffixBack(s, p, e, i);
        InsertKeeps(s[e..], open, ins, p);
        var j :| 0 <= j <= |rest| && OccursAt(rest, p, j);
        OccursInBoth(s[..e] + ins, rest, p, j);
      }
    } else {
      InsertSkips(s, open, ins);
      OccursInSuffixBack(s, p, 1, i);
      InsertKeeps(s[1..], open, ins, p);
      var rest := InsertAfterTags(s[1..], open, ins);
      var j :| 0 <= j <= |rest| && OccursAt(rest, p, j);
      OccursInBoth([s[0]], rest, p, j);
    }
  }

  lemma {:induction false} InsertPrefixBack(t: string, open: string, ins: string, w: string)
    requires Lacks(w, '\n') && ins != [] && ins[0] == '\n'
    requires |w| <= |InsertAfterTags(t, open, ins)| && InsertAfterTags(t, open, ins)[..|w|] == w
    ensures |w| <= |t| && t[..|w|] == w
    decreases |t|
  {
    if w != [] && t != [] {
      if TagOpens(t, open) {
        PrefixBackAtTag(t, open, ins, w, TagEnd(t, open));
      } else {
        var rest := InsertAfterTags(t[1..], open, ins);
        InsertSkips(t, open, ins);
        UnconsPrefix(InsertAfterTags(t, open, ins), t[0], rest, w);
        InsertPrefixBack(t[1..], open, ins, w[1..]);
        assert t == [t[0]] + t[1..];
        ConsPrefix(t, t[0], t[1..], w);
      }
    }
  }

  /** The newline `ins` starts with comes after any start of the output that
      lacks a newline. */
  lemma PrefixBackAtTag(t: string, open: string, ins: string, w: string, e: nat)
    requires TagOpens(t, open) && e == TagEnd(t, open)
    requires Lacks(w, '\n') && ins != [] && ins[0] == '\n'
    requires |w| <= |InsertAfterTags(t, open, ins)| && InsertAfterTags(t, open, ins)[..|w|] == w
    ensures |w| <= |t| && t[..|w|] == w
  {
    InsertMatches(t, open, ins, e);
    var r := InsertAfterTags(t, open, ins);
    assert r[e] == '\n';
    StartsWithAt(r, w);
    OccursAroundChar(r, w, 0, e, '\n');
    assert r[..|w|] == t[..|w|];
  }

  /** Text without a newline or '>' that `ins` does not contain is never
      created by the `re.sub`, when `ins` starts with a newline and ends
      with '>'. */
  lemma {:induction false} InsertCreatesNo(s: string, open: string, ins: string, p: string)
    requires Lacks(p, '\n') && Lacks(p, '>') && !Contains(ins, p)
    requires ins != [] && ins[0] == '\n' && ins[|ins| - 1] == '>'
    requires !Contains(s, p)
    ensures !Contains(InsertAfterTags(s, open, ins), p)
    decreases |s|
  {
    if s != [] {
      var r := InsertAfterTags(s, open, ins);
      if TagOpens(s, open) {
        var e := TagEnd(s, open);
        InsertMatches(s, open, ins, e);
        ContainsSlices(s, p, e);
        InsertCreatesNo(s[e..], open, ins, p);
        NotAcross(s[..e], ins, InsertAfterTags(s[e..], open, ins), p);
      } else {
        InsertSkips(s, open, ins);
        var rest := InsertAfterTags(s[1..], open, ins);
        ContainsSlices(s, p, 1);
        InsertCreatesNo(s[1..], open, ins, p);
        if i :| 0 <= i <= |r| && OccursAt(r, p, i) {
          if i == 0 {
            InsertPrefixBack(s, open, ins, p);
            assert OccursAt(s, p, 0);
          } else {
            OccursAfterPrefix([s[0]], rest, p, i);
          }
        }
      }
    }
  }

  /** A text with a character that another lacks is not inside it. */
  lemma NotInside(t: string, p: string, c: char)
    requires Lacks(t, c) && !Lacks(p, c)
    ensures !Contains(t, p)
  {
    var k :| 0 <= k < |p| && p[k] == c;
    if i :| 0 <= i <= |t| && OccursAt(t, p, i) {
      OccursChar(t, p, i, i + k);
      assert false;
    }
  }

  // ---------------------------------------------------------------------
  // The literals the layout edits rely on

  lemma ImportInsertHasMarker()
    ensures Contains(Fence + ImportInsert, ImportMarker)
  {
    var tail := " from '../components/PhaseNavigator.jsx';";
    assert OccursAt(ImportMarker, ImportMarker, 0);
    OccursInBoth("\n", ImportMarker, ImportMarker, 0);
    OccursInPrefix("\n" + ImportMarker, tail, ImportMarker, 1);
    OccursInBoth(Fence, ImportInsert, ImportMarker, 1);
  }

  lemma ImportMarkerShape()
    ensures Lacks(ImportMarker, '>')
  {
  }

  lemma TagInsertHasMarker()
    ensures Contains(TagInsert, TagMarker)
  {
    var head := "\n        ";
    var tail := " client:idle />";
    ContainsSelf(TagMarker);
    ContainsInfix(head, TagMarker, tail, TagMarker);
  }

  lemma TagInsertEnds()
    ensures TagInsert != [] && TagInsert[0] == '\n' && TagInsert[|TagInsert| - 1] == '>'
  {
  }

  lemma TagInsertLacksFence()
    ensures Fence != [] && Lacks(Fence, '\n') && Lacks(Fence, '>') && !Contains(TagInsert, Fence)
  {
    var head := "\n        ";
    var tail := " client:idle />";
    LacksConcat(head, TagMarker, '-');
    LacksConcat(head + TagMarker, tail, '-');
    assert Fence[0] == '-';
    NotInside(TagInsert, Fence, '-');
  }

  lemma ImportLiterals()
    ensures Contains(Fence + ImportInsert, ImportMarker)
    ensures Lacks(ImportMarker, '>')
  {
    ImportInsertHasMarker();
    ImportMarkerShape();
  }

  lemma TagLiterals()
    ensures TagInsert != [] && TagInsert[0] == '\n' && TagInsert[|TagInsert| - 1] == '>'
    ensures Contains(TagInsert, TagMarker)
    ensures Fence != [] && Lacks(Fence, '\n') && Lacks(Fence, '>') && !Contains(TagInsert, Fence)
  {
    TagInsertHasMarker();
    TagInsertEnds();
    TagInsertLacksFence();
  }

  // ---------------------------------------------------------------------
  // What each layout edit does

  /** An existing import is left alone. */
  lemma InjectImportPresent(s: string)
    requires Contains(s, ImportMarker)
    ensures InjectImport(s) == s
  {
  }

  /** The import goes right after the FIRST `---`; the text before and
      after it is kept. */
  lemma InjectImportAfterFirstFence(s: string, i: nat)
    requires !Contains(s, ImportMarker)
    requires OccursAt(s, Fence, i) && forall j :: 0 <= j < i ==> !OccursAt(s, Fence, j)
    ensures InjectImport(s) == s[..i + |Fence|] + ImportInsert + s[i + |Fence|..]
  {
    ReplaceFirstAfter(s, Fence, ImportInsert, i);
  }

  /** Without a `---` nothing is inserted. */
  lemma InjectImportNoFence(s: string)
    requires !Contains(s, Fence)
    ensures InjectImport(s) == s
  {
    ReplaceFirstAbsent(s, Fence, Fence + ImportInsert);
  }

  /** An existing component tag is left alone. */
  lemma InjectComponentPresent(s: string)
    requires Contains(s, TagMarker)
    ensures InjectComponent(s) == s
  {
  }

  /** The `replace` of mod.py:144 changes nothing, so the component step is
      the `re.sub` alone. */
  lemma InjectComponentIsSub(s: string)
    requires !Contains(s, TagMarker)
    ensures InjectComponent(s) == InsertAfterBodyTags(s)
  {
    ReplaceAllSelf(s, BodyAnchor);
  }

  /** The tag goes after the `>` of the first `<body` that closes on its
      line; an earlier `<body` broken over lines is passed over. */
  lemma InjectComponentAfterBody(s: string, i: nat, j: nat)
    requires !Contains(s, TagMarker)
    requires OccursAt(s, BodyOpen, i)
    requires forall k :: 0 <= k < i ==> !TagOpens(s[k..], BodyOpen)
    requires LineClose(s[i + |BodyOpen|..]) == Some(j)
    ensures i + |BodyOpen| + j + 1 <= |s|
    ensures var e := i + |BodyOpen| + j + 1;
      InjectComponent(s) == s[..e] + TagInsert + InsertAfterBodyTags(s[e..])
  {
    BodyTagsAfterFirst(s, i, j, i + |BodyOpen| + j + 1);
    InjectComponentIsSub(s);
  }

  lemma BodyTagsAfterFirst(s: string, i: nat, j: nat, e: nat)
    requires OccursAt(s, BodyOpen, i)
    requires forall k :: 0 <= k < i ==> !TagOpens(s[k..], BodyOpen)
    requires LineClose(s[i + |BodyOpen|..]) == Some(j) && e == i + |BodyOpen| + j + 1
    ensures e <= |s| && InsertAfterBodyTags(s) == s[..e] + TagInsert + InsertAfterBodyTags(s[e..])
  {
    InsertAfterFirstTag(s, BodyOpen, TagInsert, i, j, e);
  }

  /** Without a `<body ...>` on one line, the component step changes nothing. */
  lemma InjectComponentNoBody(s: string)
    requires NoClosingTag(s, BodyOpen)
    ensures InjectComponent(s) == s
  {
    if !Contains(s, TagMarker) {
      InjectComponentIsSub(s);
      NoClosingTagUnchanged(s, BodyOpen, TagInsert);
    }
  }

  // ---------------------------------------------------------------------
  // Running the layout edits twice

  lemma InjectImportIdempotent(s: string)
    ensures InjectImport(InjectImport(s)) == InjectImport(s)
  {
    if !Contains(s, ImportMarker) {
      if Contains(s, Fence) {
        ImportLiterals();
        ReplaceFirstIntroduces(s, Fence, Fence + ImportInsert, ImportMarker);
      } else {
        ReplaceFirstAbsent(s, Fence, Fence + ImportInsert);
      }
    }
  }

  lemma InjectComponentIdempotent(s: string)
    ensures InjectComponent(InjectComponent(s)) == InjectComponent(s)
  {
    if !Contains(s, TagMarker) {
      InjectComponentIsSub(s);
      TagLiterals();
      InsertUnchangedOrMarked(s, BodyOpen, TagInsert, TagMarker);
    }
  }

  /** The component step keeps an import line that is present, and creates
      no `---`. */
  lemma InjectComponentKeeps(s: string)
    ensures Contains(s, ImportMarker) ==> Contains(InjectComponent(s), ImportMarker)
    ensures !Contains(s, Fence) ==> !Contains(InjectComponent(s), Fence)
  {
    if !Contains(s, TagMarker) {
      InjectComponentIsSub(s);
      ImportLiterals();
      TagLiterals();
      if Contains(s, ImportMarker) {
        InsertKeeps(s, BodyOpen, TagInsert, ImportMarker);
      }
      if !Contains(s, Fence) {
        InsertCreatesNo(s, BodyOpen, TagInsert, Fence);
      }
    }
  }

  /** The layout edits change nothing when run again on their own output. */
  lemma PatchLayoutIdempotent(s: string)
    ensures PatchLayout(PatchLayout(s)) == PatchLayout(s)
  {
    var a := InjectImport(s);
    var b := InjectComponent(a);
    InjectImportIdempotent(s);
    InjectComponentIdempotent(a);
    InjectComponentKeeps(a);
    if Contains(a, ImportMarker) {
      InjectImportPresent(b);
    } else {
      if Contains(s, Fence) {
        ImportLiterals();
        ReplaceFirstIntroduces(s, Fence, Fence + ImportInsert, ImportMarker);
      }
      InjectImportNoFence(b);
    }
  }

  // =====================================================================
  // The section wrappers of the index page

  /** One entry of the `replacements` table: the component's tag, written
      `<Name/>` or `<Name />`, and the wrapper id. */
  datatype SectionTag = SectionTag(component: string, id: string, spaced: bool)

  function Tag(t: SectionTag): string {
    "<" + t.component + (if t.spaced then " />" else "/>")
  }

  function Wrapper(t: SectionTag): string {
    "<div id='" + t.id + "'>" + Tag(t) + "</div>"
  }

  /** The seven sections of the index page: component name and wrapper id. */
  const Pages: seq<(string, string)> := [
    ("Hero", "hero"), ("TheProblem", "problem"), ("TheSolution", "solution"),
    ("PlotTwistSection", "agnostic"), ("BackendRealSection", "backend"),
    ("IntegrationsSection", "ecosystem"), ("ConclusionSection", "conclusion")
  ]

  /** Each section twice, the `<Name/>` spelling before the `<Name />` one. */
  function Spellings(pages: seq<(string, string)>): seq<SectionTag> {
    seq(2 * |pages|, k requires 0 <= k < 2 * |pages| => SectionTag(pages[k / 2].0, pages[k / 2].1, k % 2 == 1))
  }

  const Sections: seq<SectionTag> := Spellings(Pages)

  function TableOf(secs: seq<SectionTag>): seq<(string, string)> {
    seq(|secs|, k requires 0 <= k < |secs| => (Tag(secs[k]), Wrapper(secs[k])))
  }

  /** The `replacements` list of mod.py: tag, then the tag inside its wrapper. */
  const Replacements: seq<(string, string)> := TableOf(Sections)

  /** `new.split('=')[1].split('>')[0].strip("'")`; `None` where
      `split('=')[1]` would raise IndexError. */
  function WrapperId(wrapped: string): Option<string> {
    var fields := Split(wrapped, '=');
    if |fields| < 2 then None else Some(Strip(Split(fields[1], '>')[0], '\''))
  }

  /** The "already wrapped" test string `id='X'`. */
  function Guard(wrapped: string): string
    requires WrapperId(wrapped).Some?
  {
    "id='" + WrapperId(wrapped).value + "'"
  }

  /** One pass of the loop body: skip when the id is present, otherwise
      replace every occurrence of the tag. */
  function WrapStep(content: string, entry: (string, string)): string
    requires WrapperId(entry.1).Some?
  {
    if !Contains(content, Guard(entry.1)) then ReplaceAll(content, entry.0, entry.1)
    else content
  }

  predicate Extractable(table: seq<(string, string)>) {
    forall k :: 0 <= k < |table| ==> WrapperId(table[k].1).Some?
  }

  /** The loop of mod.py:187-190 over `table`. */
  function WrapAll(content: string, table: seq<(string, string)>): string
    requires Extractable(table)
    decreases |table|
  {
    if table == [] then content else WrapAll(WrapStep(content, table[0]), table[1..])
  }

  /** The whole index edit, over the script's own table. */
  function WrapSections(content: string): string {
    SectionsShape();
    TableIds(Sections);
    WrapAll(content, Replacements)
  }

  // ---------------------------------------------------------------------
  // The id extracted by the guard

  predicate Letters(s: string) {
    forall k :: 0 <= k < |s| ==> 'A' <= s[k] <= 'Z' || 'a' <= s[k] <= 'z'
  }

  /** A component name is letters starting with a capital; an id is letters. */
  predicate PlainTag(t: SectionTag) {
    |t.component| >= 1 && 'A' <= t.component[0] <= 'Z' && Letters(t.component) && Letters(t.id)
  }

  predicate PlainTags(secs: seq<SectionTag>) {
    forall k :: 0 <= k < |secs| ==> PlainTag(secs[k])
  }

  lemma LettersLack(s: string, c: char)
    requires Letters(s) && !('A' <= c <= 'Z') && !('a' <= c <= 'z')
    ensures Lacks(s, c)
  {
  }

  /** The split/strip expression of mod.py:189 gives back exactly the id of
      a wrapper. */
  lemma WrapperIdOfWrapper(t: SectionTag)
    requires PlainTag(t)
    ensures WrapperId(Wrapper(t)) == Some(t.id)
  {
    var rest := "'" + t.id + "'>" + Tag(t) + "</div>";
    WrapperFields(t, rest);
    LettersLack(t.id, '>');
    var quoted := "'" + t.id + "'";
    assert rest == quoted + ['>'] + (Tag(t) + "</div>");
    SplitAtFirst(quoted, Tag(t) + "</div>", '>');
    LettersLack(t.id, '\'');
    StripQuoted(t.id, '\'');
  }

  /** A wrapper has one '=', right after `<div id`. */
  lemma WrapperFields(t: SectionTag, rest: string)
    requires PlainTag(t) && rest == "'" + t.id + "'>" + Tag(t) + "</div>"
    ensures Split(Wrapper(t), '=') == ["<div id", rest]
  {
    LettersLack(t.id, '=');
    LettersLack(t.component, '=');
    assert Wrapper(t) == "<div id" + ['='] + rest;
    assert Lacks(rest, '=');
    SplitAtFirst("<div id", rest, '=');
    SplitWithout(rest, '=');
  }

  /** Every wrapper of a table of plain tags yields its own id. */
  lemma TableIds(secs: seq<SectionTag>)
    requires PlainTags(secs)
    ensures Extractable(TableOf(secs))
    ensures forall k :: 0 <= k < |secs| ==> WrapperId(TableOf(secs)[k].1) == Some(secs[k].id)
  {
    forall k | 0 <= k < |secs| ensures WrapperId(TableOf(secs)[k].1) == Some(secs[k].id) {
      WrapperIdOfWrapper(secs[k]);
    }
  }

  // ---------------------------------------------------------------------
  // What the loop keeps, and what it cannot create

  /** An id test string keeps appearing through later steps. */
  lemma {:induction false} WrapAllKeeps(c: string, table: seq<(string, string)>, g: string)
    requires Extractable(table) && Contains(c, g)
    requires forall m :: 0 <= m < |table| ==> Apart(g, table[m].0, '\'')
    ensures Contains(WrapAll(c, table), g)
    decreases |table|
  {
    if table != [] {
      if !Contains(c, Guard(table[0].1)) {
        ReplaceAllKeeps(c, table[0].0, table[0].1, g, '\'');
      }
      WrapAllKeeps(WrapStep(c, table[0]), table[1..], g);
    }
  }

  /** A tag absent from the content is not created by later steps. */
  lemma {:induction false} WrapAllCreatesNo(c: string, table: seq<(string, string)>, q: string)
    requires Extractable(table) && SingleTag(q) && !Contains(c, q)
    requires forall m :: 0 <= m < |table| ==>
      table[m].0 != [] && Bracketed(table[m].1) && !Contains(table[m].1, q)
    ensures !Contains(WrapAll(c, table), q)
    decreases |table|
  {
    if table != [] {
      if !Contains(c, Guard(table[0].1)) {
        ReplaceAllCreatesNo(c, table[0].0, table[0].1, q);
      }
      WrapAllCreatesNo(WrapStep(c, table[0]), table[1..], q);
    }
  }

  /** A content every step leaves alone is left alone by the loop. */
  lemma {:induction false} WrapAllFixed(x: string, table: seq<(string, string)>)
    requires Extractable(table)
    requires forall m :: 0 <= m < |table| ==> WrapStep(x, table[m]) == x
    ensures WrapAll(x, table) == x
    decreases |table|
  {
    if table != [] {
      WrapAllFixed(x, table[1..]);
    }
  }

  /** What the idempotence of the loop rests on: each entry's wrapper holds
      its own guard; a later entry's tag cannot overlap an earlier guard;
      a later entry's wrapper does not hold an earlier entry's tag. */
  predicate Orderly(table: seq<(string, string)>)
    requires Extractable(table)
  {
    && (forall k :: 0 <= k < |table| ==>
          table[k].0 != [] && SingleTag(table[k].0) && Bracketed(table[k].1) &&
          Contains(table[k].1, Guard(table[k].1)))
    && (forall k, m :: 0 <= k < m < |table| ==>
          Apart(Guard(table[k].1), table[m].0, '\'') && !Contains(table[m].1, table[k].0))
  }

  /** After the loop, every step of a second pass is a no-op. */
  lemma {:induction false} WrapAllSettles(c: string, table: seq<(string, string)>, k: nat)
    requires Extractable(table) && Orderly(table) && k < |table|
    ensures WrapStep(WrapAll(c, table), table[k]) == WrapAll(c, table)
    decreases |table|
  {
    if k > 0 {
      OrderlyTail(table);
      WrapAllSettles(WrapStep(c, table[0]), table[1..], k - 1);
      assert table[k] == table[1..][k - 1];
    } else {
      FirstSettles(c, table);
    }
  }

  lemma OrderlyTail(table: seq<(string, string)>)
    requires Extractable(table) && Orderly(table) && table != []
    ensures Extractable(table[1..]) && Orderly(table[1..])
  {
    var rest := table[1..];
    forall i | 0 <= i < |rest| ensures rest[i] == table[i + 1] { }
    forall i, m | 0 <= i < m < |rest|
      ensures Apart(Guard(rest[i].1), rest[m].0, '\'') && !Contains(rest[m].1, rest[i].0)
    {
      assert rest[i] == table[i + 1] && rest[m] == table[m + 1];
    }
  }

  /** The first entry's step is a no-op on the loop's output. */
  lemma FirstSettles(c: string, table: seq<(string, string)>)
    requires Extractable(table) && Orderly(table) && table != []
    ensures WrapStep(WrapAll(c, table), table[0]) == WrapAll(c, table)
  {
    var e := table[0];
    var rest := table[1..];
    var c1 := WrapStep(c, e);
    assert WrapAll(c, table) == WrapAll(c1, rest);
    OrderlyTail(table);
    if Contains(c1, Guard(e.1)) {
      GuardStays(c1, table);
    } else {
      TagStaysAway(c, table);
    }
  }

  /** Once the first guard is in the content, later steps keep it. */
  lemma GuardStays(c1: string, table: seq<(string, string)>)
    requires Extractable(table) && Orderly(table) && table != []
    requires Extractable(table[1..]) && Contains(c1, Guard(table[0].1))
    ensures Contains(WrapAll(c1, table[1..]), Guard(table[0].1))
  {
    var rest := table[1..];
    var g := Guard(table[0].1);
    forall m | 0 <= m < |rest| ensures Apart(g, rest[m].0, '\'') {
      assert rest[m] == table[m + 1];
    }
    WrapAllKeeps(c1, rest, g);
  }

  /** When the first step leaves no guard, the content had no first tag,
      and later steps do not create one. */
  lemma TagStaysAway(c: string, table: seq<(string, string)>)
    requires Extractable(table) && Orderly(table) && table != []
    requires Extractable(table[1..]) && !Contains(WrapStep(c, table[0]), Guard(table[0].1))
    ensures var out := WrapAll(WrapStep(c, table[0]), table[1..]);
      WrapStep(out, table[0]) == out
  {
    var e := table[0];
    var rest := table[1..];
    var c1 := WrapStep(c, e);
    var g := Guard(e.1);
    var out := WrapAll(c1, rest);
    assert !Contains(c, g);
    if Contains(c, e.0) {
      ReplaceAllIntroduces(c, e.0, e.1);
      ContainsTransitive(c1, e.1, g);
      assert false;
    }
    ReplaceAllAbsent(c, e.0, e.1);
    forall m | 0 <= m < |rest|
      ensures rest[m].0 != [] && Bracketed(rest[m].1) && !Contains(rest[m].1, e.0)
    {
      assert rest[m] == table[m + 1];
    }
    WrapAllCreatesNo(c1, rest, e.0);
    if !Contains(out, g) {
      ReplaceAllAbsent(out, e.0, e.1);
    }
  }

  /** Running the loop again on its own output changes nothing. */
  lemma WrapAllIdempotent(c: string, table: seq<(string, string)>)
    requires Extractable(table) && Orderly(table)
    ensures WrapAll(WrapAll(c, table), table) == WrapAll(c, table)
  {
    forall m | 0 <= m < |table| ensures WrapStep(WrapAll(c, table), table[m]) == WrapAll(c, table) {
      WrapAllSettles(c, table, m);
    }
    WrapAllFixed(WrapAll(c, table), table);
  }

  // ---------------------------------------------------------------------
  // A table of plain, distinct tags is orderly

  lemma PlainTagShape(t: SectionTag)
    requires PlainTag(t)
    ensures SingleTag(Tag(t)) && Bracketed(Wrapper(t)) && Lacks(Tag(t), '\'')
  {
    var tag := Tag(t);
    assert tag == "<" + t.component + (if t.spaced then " />" else "/>");
    assert forall k :: 0 < k < |tag| ==> tag[k] != '<' by {
      forall k | 0 < k < |tag| ensures tag[k] != '<' {
        if k <= |t.component| {
          assert tag[k] == t.component[k - 1];
        }
      }
    }
    assert forall k :: 0 <= k < |tag| - 1 ==> tag[k] != '>' by {
      forall k | 0 <= k < |tag| - 1 ensures tag[k] != '>' {
        if 0 < k <= |t.component| {
          assert tag[k] == t.component[k - 1];
        }
      }
    }
    assert forall k :: 0 <= k < |tag| ==> tag[k] != '\'' by {
      forall k | 0 <= k < |tag| ensures tag[k] != '\'' {
        if 0 < k <= |t.component| {
          assert tag[k] == t.component[k - 1];
        }
      }
    }
  }

  /** The `<` of a wrapper stand at the start, at its tag and at `</div>`. */
  lemma WrapperOpenings(t: SectionTag, i: int)
    requires PlainTag(t) && 0 <= i < |Wrapper(t)| && Wrapper(t)[i] == '<'
    ensures i == 0 || i == 11 + |t.id| || i == 11 + |t.id| + |Tag(t)|
  {
    var pre := "<div id='" + t.id + "'>";
    var w := Wrapper(t);
    assert |pre| == 11 + |t.id|;
    assert w == pre + Tag(t) + "</div>";
    PlainTagShape(t);
    if i < |pre| {
      assert w[i] == pre[i];
    } else if i < |pre| + |Tag(t)| {
      assert w[i] == Tag(t)[i - |pre|];
    } else {
      assert w[i] == "</div>"[i - |pre| - |Tag(t)|];
    }
  }

  /** A wrapper holds no section tag but its own. */
  lemma WrapperHoldsOnlyItsTag(t: SectionTag, u: SectionTag)
    requires PlainTag(t) && PlainTag(u) && Contains(Wrapper(t), Tag(u))
    ensures Tag(u) == Tag(t)
  {
    var i :| 0 <= i <= |Wrapper(t)| && OccursAt(Wrapper(t), Tag(u), i);
    TagStartsInWrapper(t, u, i);
    WrapperHoldsTag(t);
    PlainTagShape(t);
    PlainTagShape(u);
    SameTagAt(Wrapper(t), Tag(u), Tag(t), i);
  }

  /** The tag of a wrapper stands after its `<div id='...'>`. */
  lemma WrapperHoldsTag(t: SectionTag)
    ensures OccursAt(Wrapper(t), Tag(t), 11 + |t.id|)
  {
    var pre := "<div id='" + t.id + "'>";
    assert |pre| == 11 + |t.id|;
    assert Wrapper(t) == pre + Tag(t) + "</div>";
    assert Wrapper(t)[|pre|..|pre| + |Tag(t)|] == Tag(t);
  }

  /** A section tag in a wrapper can only start where the wrapper's own
      tag does: the other two `<` are followed by 'd' and '/'. */
  lemma TagStartsInWrapper(t: SectionTag, u: SectionTag, i: int)
    requires PlainTag(t) && PlainTag(u) && OccursAt(Wrapper(t), Tag(u), i)
    ensures i == 11 + |t.id|
  {
    var w := Wrapper(t);
    var q := Tag(u);
    var n := 11 + |t.id|;
    assert w == "<div id='" + t.id + "'>" + Tag(t) + "</div>";
    assert w[1] == 'd' && w[n + |Tag(t)| + 1] == '/';
    PlainTagShape(u);
    OccursChar(w, q, i, i);
    WrapperOpenings(t, i);
    OccursChar(w, q, i, i + 1);
    assert 'A' <= q[1] <= 'Z' by {
      assert q[1] == u.component[0];
    }
  }

  /** A tag determines its component and its spelling. */
  lemma TagInjective(t: SectionTag, u: SectionTag)
    requires PlainTag(t) && PlainTag(u)
    ensures Tag(t) == Tag(u) ==> t.component == u.component && t.spaced == u.spaced
  {
    if Tag(t) == Tag(u) {
      var g := Tag(t);
      var n := |t.component|;
      var m := |u.component|;
      assert g == "<" + t.component + (if t.spaced then " />" else "/>");
      assert g == "<" + u.component + (if u.spaced then " />" else "/>");
      assert forall k :: 0 <= k < n ==> g[1 + k] == t.component[k];
      assert forall k :: 0 <= k < m ==> g[1 + k] == u.component[k];
      assert g[1 + n] == ' ' || g[1 + n] == '/';
      assert g[1 + m] == ' ' || g[1 + m] == '/';
      assert n == m;
      assert t.component == g[1..1 + n] == u.component;
    }
  }

  /** An id test string `id='X'` shares no `<` or `>` with a tag. */
  lemma GuardApart(x: SectionTag, u: SectionTag)
    requires PlainTag(x) && PlainTag(u)
    ensures Apart("id='" + x.id + "'", Tag(u), '\'')
  {
    var g := "id='" + x.id + "'";
    PlainTagShape(u);
    assert g[3] == '\'';
    forall j | 0 <= j < |g| ensures g[j] != '<' && g[j] != '>' {
      if 4 <= j < 4 + |x.id| {
        assert g[j] == x.id[j - 4];
      }
    }
  }

  /** A table of plain tags, no two alike, is orderly. */
  lemma TableOrderly(secs: seq<SectionTag>)
    requires PlainTags(secs)
    requires forall k, m :: 0 <= k < m < |secs| ==> Tag(secs[k]) != Tag(secs[m])
    ensures Extractable(TableOf(secs)) && Orderly(TableOf(secs))
  {
    var table := TableOf(secs);
    TableIds(secs);
    forall k | 0 <= k < |table|
      ensures table[k].0 != [] && SingleTag(table[k].0) && Bracketed(table[k].1)
      ensures Contains(table[k].1, Guard(table[k].1))
    {
      var t := secs[k];
      PlainTagShape(t);
      assert Guard(table[k].1) == "id='" + t.id + "'";
      assert OccursAt(Wrapper(t), "id='" + t.id + "'", 5);
    }
    forall k, m | 0 <= k < m < |table|
      ensures Apart(Guard(table[k].1), table[m].0, '\'')
      ensures !Contains(table[m].1, table[k].0)
    {
      assert Guard(table[k].1) == "id='" + secs[k].id + "'";
      GuardApart(secs[k], secs[m]);
      if Contains(Wrapper(secs[m]), Tag(secs[k])) {
        WrapperHoldsOnlyItsTag(secs[m], secs[k]);
        assert false;
      }
    }
  }

  // ---------------------------------------------------------------------
  // The script's own table

  /** The components and ids of the seven sections are plain, and no two
      components are alike (their lengths differ). */
  lemma PagesPlain()
    ensures forall p :: 0 <= p < |Pages| ==>
      |Pages[p].0| >= 1 && 'A' <= Pages[p].0[0] <= 'Z' && Letters(Pages[p].0) && Letters(Pages[p].1)
    ensures forall p, q :: 0 <= p < q < |Pages| ==> |Pages[p].0| != |Pages[q].0|
  {
    PagesComponents();
    PagesIds();
    assert |Pages[0].0| == 4 && |Pages[1].0| == 10 && |Pages[2].0| == 11 && |Pages[3].0| == 16;
    assert |Pages[4].0| == 18 && |Pages[5].0| == 19 && |Pages[6].0| == 17;
  }

  lemma PagesComponents()
    ensures forall p :: 0 <= p < |Pages| ==>
      |Pages[p].0| >= 1 && 'A' <= Pages[p].0[0] <= 'Z' && Letters(Pages[p].0)
  {
    PagesComponentsFrom(0, 3);
    PagesComponentsFrom(3, 5);
    PagesComponentsFrom(5, 7);
  }

  lemma PagesComponentsFrom(lo: nat, hi: nat)
    requires (lo, hi) == (0, 3) || (lo, hi) == (3, 5) || (lo, hi) == (5, 7)
    ensures forall p :: lo <= p < hi ==>
      |Pages[p].0| >= 1 && 'A' <= Pages[p].0[0] <= 'Z' && Letters(Pages[p].0)
  {
  }

  lemma PagesIds()
    ensures forall p :: 0 <= p < |Pages| ==> Letters(Pages[p].1)
  {
  }

  lemma SectionsShape()
    ensures |Sections| == 14 && PlainTags(Sections)
    ensures forall k, m :: 0 <= k < m < |Sections| ==> Tag(Sections[k]) != Tag(Sections[m])
  {
    PagesPlain();
    forall k, m | 0 <= k < m < |Sections| ensures Tag(Sections[k]) != Tag(Sections[m]) {
      TagInjective(Sections[k], Sections[m]);
    }
  }

  /** The first entry of the table, as it is written in mod.py. */
  lemma ReplacementsFirst()
    ensures Replacements[0] == ("<Hero/>", "<div id='hero'><Hero/></div>")
  {
    assert Sections[0] == SectionTag("Hero", "hero", false);
    assert Tag(Sections[0]) == "<Hero/>";
    assert Wrapper(Sections[0]) == "<div id='hero'><Hero/></div>";
    assert Replacements[0] == (Tag(Sections[0]), Wrapper(Sections[0]));
  }

  /** The second entry, the spaced spelling of the same section. */
  lemma ReplacementsSecond()
    ensures Replacements[1] == ("<Hero />", "<div id='hero'><Hero /></div>")
  {
    assert Sections[1] == SectionTag("Hero", "hero", true);
    assert Tag(Sections[1]) == "<Hero />";
    assert Wrapper(Sections[1]) == "<div id='hero'><Hero /></div>";
    assert Replacements[1] == (Tag(Sections[1]), Wrapper(Sections[1]));
  }

  /** The script's `replacements` table satisfies `Orderly`. */
  lemma ReplacementsOrderly()
    ensures Extractable(Replacements) && Orderly(Replacements)
  {
    SectionsShape();
    TableOrderly(Sections);
  }

  /** Running the index edit again on its own output changes nothing. */
  lemma WrapSectionsIdempotent(c: string)
    ensures WrapSections(WrapSections(c)) == WrapSections(c)
  {
    ReplacementsOrderly();
    WrapAllIdempotent(c, Replacements);
  }

  /** Two entries with the same id: at most one of them is applied, the
      first when its tag is present, and once `id='X'` is in the content
      neither. */
  lemma OneSpelling(c: string, a: (string, string), b: (string, string))
    requires a.0 != [] && WrapperId(a.1).Some? && WrapperId(b.1) == WrapperId(a.1)
    requires Contains(a.1, Guard(a.1))
    ensures WrapStep(WrapStep(c, a), b) ==
      if Contains(c, Guard(a.1)) then c
      else if Contains(c, a.0) then ReplaceAll(c, a.0, a.1)
      else ReplaceAll(c, b.0, b.1)
  {
    if !Contains(c, Guard(a.1)) {
      if Contains(c, a.0) {
        ReplaceAllIntroduces(c, a.0, a.1);
        ContainsTransitive(ReplaceAll(c, a.0, a.1), a.1, Guard(a.1));
      } else {
        ReplaceAllAbsent(c, a.0, a.1);
      }
    }
  }

  /** In the script's table the two spellings of a section sit side by side
      and share the id, so `OneSpelling` applies to each pair. */
  lemma SpellingPairs()
    ensures Extractable(Replacements) && |Replacements| == 2 * |Pages|
    ensures forall p :: 0 <= p < |Pages| ==>
      var a := Replacements[2 * p]; var b := Replacements[2 * p + 1];
      a.0 != [] && WrapperId(a.1).Some? && WrapperId(b.1) == WrapperId(a.1) &&
      Contains(a.1, Guard(a.1)) && WrapperId(a.1) == Some(Pages[p].1)
  {
    ReplacementsOrderly();
    SectionsShape();
    TableIds(Sections);
    forall p | 0 <= p < |Pages|
      ensures WrapperId(Replacements[2 * p + 1].1) == WrapperId(Replacements[2 * p].1) == Some(Pages[p].1)
    {
      assert (2 * p + 1) / 2 == p && (2 * p) / 2 == p;
    }
  }

  // =====================================================================
  // The script over the file store

  lemma PathsDistinct()
    ensures NavigatorPath != LayoutPath && NavigatorPath != IndexPath && LayoutPath != IndexPath
  {
    assert |NavigatorPath| == 33 && |LayoutPath| == 24 && |IndexPath| == 21;
  }

  /** mod.py:124: the component file, unless one exists. */
  function WithNavigator(fs: map<string, string>, navigator: string): map<string, string> {
    if NavigatorPath in fs then fs else fs[NavigatorPath := navigator]
  }

  /** mod.py:128-148: a layout that is present and not empty is patched. */
  function WithLayout(fs: map<string, string>): map<string, string> {
    if LayoutPath in fs && fs[LayoutPath] != "" then fs[LayoutPath := PatchLayout(fs[LayoutPath])] else fs
  }

  /** mod.py:158-192: an index page that is present and not empty is wrapped. */
  function WithIndex(fs: map<string, string>): map<string, string> {
    if IndexPath in fs && fs[IndexPath] != "" then fs[IndexPath := WrapSections(fs[IndexPath])] else fs
  }

  /** The files after `add_navigation_module`, as a function of the files before. */
  function NavigationFiles(fs: map<string, string>, navigator: string): map<string, string> {
    WithIndex(WithLayout(WithNavigator(fs, navigator)))
  }

  /** The paths the script opens for writing, in order. */
  function NavigationTouches(fs: map<string, string>): seq<string> {
    (if NavigatorPath in fs then [] else [NavigatorPath])
    + (if LayoutPath in fs && fs[LayoutPath] != "" then [LayoutPath] else [])
    + (if IndexPath in fs && fs[IndexPath] != "" then [IndexPath] else [])
  }

  /** mod.py:124: `create_file` of the component, refused when it exists. */
  method CreateNavigator(ops: FileOps, navigator: string)
    modifies ops
    ensures ops.files == WithNavigator(old(ops.files), navigator)
    ensures ops.touched == old(ops.touched) + (if NavigatorPath in old(ops.files) then [] else [NavigatorPath])
  {
    var _ := ops.CreateFile(NavigatorPath, navigator);
  }

  /** mod.py:128-148: read the layout, add what is missing, write it back. */
  method PatchLayoutFile(ops: FileOps)
    modifies ops
    ensures ops.files == WithLayout(old(ops.files))
    ensures ops.touched == old(ops.touched) +
      (if LayoutPath in old(ops.files) && old(ops.files)[LayoutPath] != "" then [LayoutPath] else [])
  {
    var layout := ops.ReadFile(LayoutPath);
    if layout.Some? && layout.value != "" {
      var content := layout.value;
      if !Contains(content, ImportMarker) {
        content := ReplaceFirst(content, Fence, Fence + ImportInsert);
      }
      if !Contains(content, TagMarker) {
        content := ReplaceAll(content, BodyAnchor, BodyAnchor);
        content := InsertAfterBodyTags(content);
      }
      var _ := ops.UpdateFile(LayoutPath, content, Overwrite);
    }
  }

  /** mod.py:158-192: read the index page, wrap the sections, write it back. */
  method WrapIndexFile(ops: FileOps)
    modifies ops
    ensures ops.files == WithIndex(old(ops.files))
    ensures ops.touched == old(ops.touched) +
      (if IndexPath in old(ops.files) && old(ops.files)[IndexPath] != "" then [IndexPath] else [])
  {
    var index := ops.ReadFile(IndexPath);
    if index.Some? && index.value != "" {
      SectionsShape();
      TableIds(Sections);
      var content := index.value;
      for k := 0 to |Replacements|
        invariant WrapAll(content, Replacements[k..]) == WrapAll(index.value, Replacements)
      {
        var entry := Replacements[k];
        assert Replacements[k..][1..] == Replacements[k + 1..];
        if !Contains(content, Guard(entry.1)) {
          content := ReplaceAll(content, entry.0, entry.1);
        }
      }
      var _ := ops.UpdateFile(IndexPath, content, Overwrite);
    }
  }

  /** `add_navigation_module()`; the component's source text is a parameter. */
  method AddNavigationModule(ops: FileOps, navigator: string)
    modifies ops
    ensures ops.files == NavigationFiles(old(ops.files), navigator)
    ensures ops.touched == old(ops.touched) + NavigationTouches(old(ops.files))
  {
    PathsDistinct();
    CreateNavigator(ops, navigator);
    PatchLayoutFile(ops);
    WrapIndexFile(ops);
  }

  // ---------------------------------------------------------------------
  // Properties of the script

  /** Running the script again changes no file. */
  lemma NavigationIdempotent(fs: map<string, string>, navigator: string)
    ensures NavigationFiles(NavigationFiles(fs, navigator), navigator) == NavigationFiles(fs, navigator)
  {
    PathsDistinct();
    var fs1 := WithNavigator(fs, navigator);
    var fs2 := WithLayout(fs1);
    var f := WithIndex(fs2);
    assert WithNavigator(f, navigator) == f;
    if LayoutPath in fs1 && fs1[LayoutPath] != "" {
      PatchLayoutIdempotent(fs1[LayoutPath]);
    }
    assert LayoutPath in f ==> f[LayoutPath] == fs2[LayoutPath];
    assert WithLayout(f) == f;
    if IndexPath in fs2 && fs2[IndexPath] != "" {
      WrapSectionsIdempotent(fs2[IndexPath]);
    }
    assert WithIndex(f) == f;
  }

  /** An existing PhaseNavigator.jsx is not overwritten. */
  lemma NavigatorKept(fs: map<string, string>, navigator: string)
    requires NavigatorPath in fs
    ensures NavigatorPath in NavigationFiles(fs, navigator)
    ensures NavigationFiles(fs, navigator)[NavigatorPath] == fs[NavigatorPath]
    ensures NavigatorPath !in NavigationTouches(fs)
  {
    PathsDistinct();
  }

  /** A missing or empty layout is never written. */
  lemma LayoutSkipped(fs: map<string, string>, navigator: string)
    requires LayoutPath !in fs || fs[LayoutPath] == ""
    ensures (LayoutPath in NavigationFiles(fs, navigator)) == (LayoutPath in fs)
    ensures LayoutPath in fs ==> NavigationFiles(fs, navigator)[LayoutPath] == ""
    ensures LayoutPath !in NavigationTouches(fs)
  {
    PathsDistinct();
  }

  /** A missing or empty index page is never written. */
  lemma IndexSkipped(fs: map<string, string>, navigator: string)
    requires IndexPath !in fs || fs[IndexPath] == ""
    ensures (IndexPath in NavigationFiles(fs, navigator)) == (IndexPath in fs)
    ensures IndexPath in fs ==> NavigationFiles(fs, navigator)[IndexPath] == ""
    ensures IndexPath !in NavigationTouches(fs)
  {
    PathsDistinct();
  }

  /** No other file is created, changed or removed. */
  lemma OtherFilesUnchanged(fs: map<string, string>, navigator: string, p: string)
    requires p != NavigatorPath && p != LayoutPath && p != IndexPath
    ensures (p in NavigationFiles(fs, navigator)) == (p in fs)
    ensures p in fs ==> NavigationFiles(fs, navigator)[p] == fs[p]
  {
  }
}
