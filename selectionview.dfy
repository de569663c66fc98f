/** The "Selected Items" pane: its rows, and what the selection handlers do to the selection list,
    the rows and the checkboxes of the directory tree together. */
module SelectionView {
  import opened Wrappers
  import opened Search
  import opened Paths
  import opened Selection
  import opened Listing
  import opened DirTree

  /** A row of items_tree: the name shown and the Type column (Folder, File, or blank). */
  datatype ViewRow = ViewRow(text: string, kind: NodeType)

  function KindOf(isFolder: bool): NodeType {
    if isFolder then Folder else File
  }

  /** The rows apply_renames rebuilds the pane with: one per entry, its basename and its type. */
  function ViewOf(sel: seq<Item>): seq<ViewRow> {
    seq(|sel|, i requires 0 <= i < |sel| => ViewRow(Basename(sel[i].path), KindOf(sel[i].isFolder)))
  }

  /** No two selected entries share a basename. */
  predicate UniqueBasenames(sel: seq<Item>) {
    forall i, j :: 0 <= i < j < |sel| ==> Basename(sel[i].path) != Basename(sel[j].path)
  }

  /** The directory tree, the selection list and the pane's rows, which the handlers change together. */
  datatype Pane = Pane(tree: TreeNode, sel: seq<Item>, view: seq<ViewRow>)

  /** add_tree_item_to_selection for a node with path p and the given type: unless the path is
      already selected, the entry is appended (a folder exactly when the type is Folder) and a row
      with its basename and type is appended. */
  function AddEntry(sel: seq<Item>, view: seq<ViewRow>, p: string, kind: NodeType): (seq<Item>, seq<ViewRow>) {
    if HasPath(sel, p) then (sel, view)
    else (sel + [Item(p, kind == Folder)], view + [ViewRow(Basename(p), kind)])
  }

  /** The first row whose text is name. */
  function IndexOfRow(view: seq<ViewRow>, name: string): (r: Option<nat>)
    ensures r.Some? ==> r.value < |view| && view[r.value].text == name
    ensures r.Some? ==> forall j :: 0 <= j < r.value ==> view[j].text != name
    ensures r.None? ==> forall j :: 0 <= j < |view| ==> view[j].text != name
  {
    FirstIndex(view, (v: ViewRow) => v.text == name)
  }

  /** remove_tree_item_from_selection for path p: the first entry with that path is deleted, and with
      it the first row whose text is the path's basename (whichever entry that row stood for). */
  function RemoveEntry(sel: seq<Item>, view: seq<ViewRow>, p: string): (seq<Item>, seq<ViewRow>) {
    match IndexOfPath(sel, p)
    case None => (sel, view)
    case Some(i) =>
      var view' := match IndexOfRow(view, Basename(p))
        case None => view
        case Some(j) => view[..j] + view[j + 1..];
      (RemoveAt(sel, i), view')
  }

  /** Adding keeps the rows in step with the selection when the node has a type, and changes the
      selection exactly as Selection.Add does. */
  lemma AddEntrySynced(sel: seq<Item>, p: string, kind: NodeType)
    requires kind != Untyped
    ensures AddEntry(sel, ViewOf(sel), p, kind).0 == Add(sel, Item(p, kind == Folder))
    ensures AddEntry(sel, ViewOf(sel), p, kind).1 == ViewOf(AddEntry(sel, ViewOf(sel), p, kind).0)
  {
  }

  /** Deleting an entry deletes its row. */
  lemma ViewOfRemoveAt(sel: seq<Item>, i: nat)
    requires i < |sel|
    ensures ViewOf(RemoveAt(sel, i)) == ViewOf(sel)[..i] + ViewOf(sel)[i + 1..]
  {
    var s' := RemoveAt(sel, i);
    assert forall k :: 0 <= k < i ==> s'[k] == sel[k];
    assert forall k :: i <= k < |s'| ==> s'[k] == sel[k + 1];
  }

  /** Deleting an entry keeps basenames unique. */
  lemma RemoveAtUnique(sel: seq<Item>, i: nat)
    requires i < |sel| && UniqueBasenames(sel)
    ensures UniqueBasenames(RemoveAt(sel, i))
  {
    var s' := RemoveAt(sel, i);
    forall j, k | 0 <= j < k < |s'| ensures Basename(s'[j].path) != Basename(s'[k].path) {
      var j' := if j < i then j else j + 1;
      var k' := if k < i then k else k + 1;
      assert s'[j] == sel[j'] && s'[k] == sel[k'];
    }
  }

  /** With unique basenames, the first row showing an entry's basename is that entry's row. */
  lemma RowOfEntry(sel: seq<Item>, i: nat)
    requires i < |sel| && UniqueBasenames(sel)
    ensures IndexOfRow(ViewOf(sel), Basename(sel[i].path)) == Some(i)
  {
    var v := ViewOf(sel);
    assert v[i].text == Basename(sel[i].path);
    var r := IndexOfRow(v, Basename(sel[i].path));
    assert r.Some?;
    assert v[r.value].text == Basename(sel[r.value].path);
  }

  /** With unique basenames, removing deletes exactly the removed entry's row, so the rows stay in
      step with the selection; the selection changes exactly as Selection.RemovePath does. */
  lemma RemoveEntrySynced(sel: seq<Item>, p: string)
    requires UniqueBasenames(sel)
    ensures RemoveEntry(sel, ViewOf(sel), p).0 == RemovePath(sel, p)
    ensures RemoveEntry(sel, ViewOf(sel), p).1 == ViewOf(RemovePath(sel, p))
    ensures UniqueBasenames(RemovePath(sel, p))
  {
    match IndexOfPath(sel, p)
    case None =>
    case Some(i) =>
      RowOfEntry(sel, i);
      ViewOfRemoveAt(sel, i);
      RemoveAtUnique(sel, i);
  }

  /** Without unique basenames the rows fall out of step: removing the file "/r/b/x" leaves the
      row of the file while the folder "/r/a/x" is what stays selected. */
  lemma RemoveEntryDesync()
    ensures var sel := [Item("/r/a/x", true), Item("/r/b/x", false)];
            var (s', v') := RemoveEntry(sel, ViewOf(sel), "/r/b/x");
            && s' == [Item("/r/a/x", true)]
            && v' == [ViewRow("x", File)]
            && v' != ViewOf(s')
  {
    var sel := [Item("/r/a/x", true), Item("/r/b/x", false)];
    SplitPointAfterSeparator("/r/a/", "x");
    assert "/r/a/x" == "/r/a/" + "x";
    SplitPointAfterSeparator("/r/b/", "x");
    assert "/r/b/x" == "/r/b/" + "x";
    assert Basename(sel[0].path) == "x";
    assert Basename(sel[1].path) == "x";
    assert sel[0].path != "/r/b/x";
    assert IndexOfPath(sel, "/r/b/x") == Some(1);
    assert IndexOfRow(ViewOf(sel), "x") == Some(0);
  }

  /** One step of select_tree_item_contents for a listed entry of the folder at a whose path is p:
      an entry whose path is not yet selected is appended with a row showing its name and type, and
      the first child of the folder with that text is ticked. */
  function ContentsStep(pn: Pane, a: Addr, p: string, e: DirEntry): (r: Pane)
    requires ValidAddr(pn.tree, a)
    ensures ValidAddr(r.tree, a)
    ensures NodeAt(r.tree, a).text == NodeAt(pn.tree, a).text && NodeAt(r.tree, a).open == NodeAt(pn.tree, a).open
    ensures NodeAt(r.tree, a).kind == NodeAt(pn.tree, a).kind
    ensures EntriesOf(NodeAt(r.tree, a).children) == EntriesOf(NodeAt(pn.tree, a).children)
  {
    var cp := Join(p, e.name);
    if HasPath(pn.sel, cp) then pn
    else Pane(MarkChild(pn.tree, a, e.name), pn.sel + [Item(cp, e.isFolder)], pn.view + [ViewRow(e.name, KindOf(e.isFolder))])
  }

  /** The loop of select_tree_item_contents over the listing, in listing order. */
  function Contents(pn: Pane, a: Addr, p: string, es: seq<DirEntry>): (r: Pane)
    requires ValidAddr(pn.tree, a)
    ensures ValidAddr(r.tree, a)
    ensures NodeAt(r.tree, a).text == NodeAt(pn.tree, a).text && NodeAt(r.tree, a).open == NodeAt(pn.tree, a).open
    ensures NodeAt(r.tree, a).kind == NodeAt(pn.tree, a).kind
    ensures EntriesOf(NodeAt(r.tree, a).children) == EntriesOf(NodeAt(pn.tree, a).children)
  {
    if es == [] then pn else ContentsStep(Contents(pn, a, p, es[..|es| - 1]), a, p, es[|es| - 1])
  }

  /** The entries the listing stands for, with their paths under p. */
  function ContentItems(p: string, es: seq<DirEntry>): seq<Item> {
    seq(|es|, i requires 0 <= i < |es| => Item(Join(p, es[i].name), es[i].isFolder))
  }

  /** Selecting a folder's contents changes the selection exactly as adding every listed entry in
      turn does: the old entries stay first, and afterwards every listed entry's path is selected. */
  lemma {:induction false} ContentsSelection(pn: Pane, a: Addr, p: string, es: seq<DirEntry>)
    requires ValidAddr(pn.tree, a)
    ensures Contents(pn, a, p, es).sel == AddAll(pn.sel, ContentItems(p, es))
  {
    if es != [] {
      var init := es[..|es| - 1];
      ContentsSelection(pn, a, p, init);
      assert ContentItems(p, es)[..|es| - 1] == ContentItems(p, init);
    }
  }

  /** When the rows were in step with the selection and every listed name is a plain name, they
      still are after selecting a folder's contents. */
  lemma {:induction false} ContentsSynced(pn: Pane, a: Addr, p: string, es: seq<DirEntry>)
    requires ValidAddr(pn.tree, a) && pn.view == ViewOf(pn.sel)
    requires forall k :: 0 <= k < |es| ==> IsName(es[k].name)
    ensures Contents(pn, a, p, es).view == ViewOf(Contents(pn, a, p, es).sel)
  {
    if es != [] {
      var init := es[..|es| - 1];
      var e := es[|es| - 1];
      ContentsSynced(pn, a, p, init);
      BasenameOfJoin(p, e.name);
    }
  }

  /** Every listed entry is selected afterwards, and whatever was selected stays selected. */
  lemma ContentsSelectsAll(pn: Pane, a: Addr, p: string, es: seq<DirEntry>)
    requires ValidAddr(pn.tree, a)
    ensures forall k :: 0 <= k < |es| ==> HasPath(Contents(pn, a, p, es).sel, Join(p, es[k].name))
    ensures forall q :: HasPath(pn.sel, q) ==> HasPath(Contents(pn, a, p, es).sel, q)
    ensures UniquePaths(pn.sel) ==> UniquePaths(Contents(pn, a, p, es).sel)
  {
    ContentsSelection(pn, a, p, es);
    var items := ContentItems(p, es);
    AddAllProperties(pn.sel, items);
    forall k | 0 <= k < |es| ensures HasPath(Contents(pn, a, p, es).sel, Join(p, es[k].name)) {
      assert items[k].path == Join(p, es[k].name);
    }
  }

  /** One step of remove_selected_item for a row whose text is name: the first entry with that
      basename is deleted and its checkbox in the tree, if visible, is cleared; the rows are not
      touched here. */
  function RemoveNamed(pn: Pane, root: string, name: string): Pane {
    match RemoveBasename(pn.sel, name)
    case (s, None) => Pane(pn.tree, s, pn.view)
    case (s, Some(it)) => Pane(UpdateCheckbox(pn.tree, root, it.path, Unchecked), s, pn.view)
  }

  function RemoveAllNamed(pn: Pane, root: string, names: seq<string>): Pane {
    if names == [] then pn else RemoveNamed(RemoveAllNamed(pn, root, names[..|names| - 1]), root, names[|names| - 1])
  }

  /** The rows outside the chosen positions, in order. */
  function KeepRows(view: seq<ViewRow>, chosen: set<nat>): seq<ViewRow> {
    if view == [] then []
    else KeepRows(view[..|view| - 1], chosen) + (if |view| - 1 in chosen then [] else [view[|view| - 1]])
  }

  /** The entries whose basename is not among the names, in order. */
  function DropNames(sel: seq<Item>, names: set<string>): seq<Item> {
    if sel == [] then []
    else DropNames(sel[..|sel| - 1], names) + (if Basename(sel[|sel| - 1].path) in names then [] else [sel[|sel| - 1]])
  }

  /** Dropping names no entry has changes nothing. */
  lemma {:induction false} DropNothing(sel: seq<Item>, names: set<string>)
    requires forall i :: 0 <= i < |sel| ==> Basename(sel[i].path) !in names
    ensures DropNames(sel, names) == sel
  {
    if sel != [] {
      var init := sel[..|sel| - 1];
      assert forall i :: 0 <= i < |init| ==> init[i] == sel[i];
      DropNothing(init, names);
      assert sel == init + [sel[|sel| - 1]];
    }
  }

  /** When exactly one entry has a dropped name, dropping deletes exactly that entry. */
  lemma {:induction false} DropOne(sel: seq<Item>, names: set<string>, i: nat)
    requires i < |sel| && Basename(sel[i].path) in names
    requires forall j :: 0 <= j < |sel| && j != i ==> Basename(sel[j].path) !in names
    ensures DropNames(sel, names) == sel[..i] + sel[i + 1..]
  {
    var init := sel[..|sel| - 1];
    if i == |sel| - 1 {
      DropNothing(init, names);
    } else {
      DropOne(init, names, i);
      assert init[..i] == sel[..i];
      assert init[i + 1..] + [sel[|sel| - 1]] == sel[i + 1..];
    }
  }

  /** Dropping keeps the remaining entries in order and keeps basenames unique. */
  lemma {:induction false} DropNamesMembers(sel: seq<Item>, names: set<string>)
    ensures forall x :: x in DropNames(sel, names) <==> x in sel && Basename(x.path) !in names
  {
    if sel != [] {
      var init := sel[..|sel| - 1];
      DropNamesMembers(init, names);
      assert sel == init + [sel[|sel| - 1]];
    }
  }

  lemma {:induction false} DropNamesUnique(sel: seq<Item>, names: set<string>)
    requires UniqueBasenames(sel)
    ensures UniqueBasenames(DropNames(sel, names))
  {
    if sel != [] {
      var init := sel[..|sel| - 1];
      var last := sel[|sel| - 1];
      assert forall k :: 0 <= k < |init| ==> init[k] == sel[k];
      DropNamesUnique(init, names);
      if Basename(last.path) !in names {
        var di := DropNames(init, names);
        var d := di + [last];
        DropNamesMembers(init, names);
        forall i, j | 0 <= i < j < |d| ensures Basename(d[i].path) != Basename(d[j].path) {
          if j == |di| {
            assert di[i] in init;
            var k :| 0 <= k < |init| && init[k] == di[i];
            assert sel[k] == di[i];
          } else {
            assert d[i] == di[i] && d[j] == di[j];
          }
        }
      }
    }
  }

  lemma DropNamesElements(sel: seq<Item>, names: set<string>)
    ensures forall x :: x in DropNames(sel, names) <==> x in sel && Basename(x.path) !in names
    ensures UniqueBasenames(sel) ==> UniqueBasenames(DropNames(sel, names))
  {
    DropNamesMembers(sel, names);
    if UniqueBasenames(sel) {
      DropNamesUnique(sel, names);
    }
  }


  /** Dropping twice is dropping the union. */
  lemma {:induction false} DropTwice(sel: seq<Item>, a: set<string>, b: set<string>)
    ensures DropNames(DropNames(sel, a), b) == DropNames(sel, a + b)
  {
    if sel != [] {
      var init := sel[..|sel| - 1];
      var last := sel[|sel| - 1];
      DropTwice(init, a, b);
      var d := DropNames(init, a);
      if Basename(last.path) !in a {
        assert DropNames(sel, a) == d + [last];
        assert (d + [last])[..|d + [last]| - 1] == d;
      } else {
        assert DropNames(sel, a) == d;
      }
    }
  }

  /** With unique basenames, deleting the first entry that has a basename is dropping that name. */
  lemma RemoveBasenameDrops(sel: seq<Item>, name: string)
    requires UniqueBasenames(sel)
    ensures RemoveBasename(sel, name).0 == DropNames(sel, {name})
  {
    match IndexOfBasename(sel, name) {
      case None =>
        DropNothing(sel, {name});
      case Some(i) =>
        forall j | 0 <= j < |sel| && j != i ensures Basename(sel[j].path) !in {name} {
          assert Basename(sel[i].path) == name;
        }
        DropOne(sel, {name}, i);
        assert RemoveBasename(sel, name).0 == sel[..i] + sel[i + 1..];
    }
  }

  /** The set of a sequence's elements, built up from the front of the sequence. */
  function NameSet(names: seq<string>): set<string> {
    if names == [] then {} else NameSet(names[..|names| - 1]) + {names[|names| - 1]}
  }

  lemma {:induction false} NameSetElements(names: seq<string>)
    ensures forall n :: n in NameSet(names) <==> exists k :: 0 <= k < |names| && names[k] == n
  {
    if names != [] {
      var init := names[..|names| - 1];
      NameSetElements(init);
      forall n | n in NameSet(names) ensures exists k :: 0 <= k < |names| && names[k] == n {
        if n in NameSet(init) {
          var k :| 0 <= k < |init| && init[k] == n;
          assert names[k] == n;
        } else {
          assert names[|names| - 1] == n;
        }
      }
      forall n | exists k :: 0 <= k < |names| && names[k] == n ensures n in NameSet(names) {
        var k :| 0 <= k < |names| && names[k] == n;
        if k < |init| { assert init[k] == n; }
      }
    }
  }

  /** With unique basenames, the loop of remove_selected_item drops exactly the named entries. */
  lemma {:induction false} RemoveAllNamedDrops(pn: Pane, root: string, names: seq<string>)
    requires UniqueBasenames(pn.sel)
    ensures RemoveAllNamed(pn, root, names).sel == DropNames(pn.sel, NameSet(names))
    ensures RemoveAllNamed(pn, root, names).view == pn.view
  {
    if names == [] {
      DropNothing(pn.sel, {});
    } else {
      var init := names[..|names| - 1];
      var n := names[|names| - 1];
      RemoveAllNamedDrops(pn, root, init);
      var prev := RemoveAllNamed(pn, root, init);
      DropNamesElements(pn.sel, NameSet(init));
      RemoveBasenameDrops(prev.sel, n);
      DropTwice(pn.sel, NameSet(init), {n});
    }
  }

  /** Keeping the rows of the entries whose position is outside chosen is dropping their names,
      when chosen holds exactly the positions of the dropped names. */
  lemma {:induction false} KeepRowsDrop(sel: seq<Item>, chosen: set<nat>, names: set<string>)
    requires forall i :: 0 <= i < |sel| ==> (i in chosen <==> Basename(sel[i].path) in names)
    ensures KeepRows(ViewOf(sel), chosen) == ViewOf(DropNames(sel, names))
  {
    if sel != [] {
      var init := sel[..|sel| - 1];
      KeepRowsDrop(init, chosen, names);
      assert ViewOf(sel)[..|sel| - 1] == ViewOf(init);
    }
  }

  /** The row texts at the chosen positions (the rows the user picked in the pane). */
  function ChosenNames(view: seq<ViewRow>, chosen: seq<nat>): seq<string>
    requires forall k :: 0 <= k < |chosen| ==> chosen[k] < |view|
  {
    seq(|chosen|, k requires 0 <= k < |chosen| => view[chosen[k]].text)
  }

  function PositionSet(chosen: seq<nat>): set<nat> {
    set k | 0 <= k < |chosen| :: chosen[k]
  }

  /** remove_selected_item on rows in step with a selection of unique basenames: the entries of the
      chosen rows, and only those, leave the selection; the remaining rows are exactly those of the
      remaining entries; basenames stay unique. */
  lemma RemoveChosenSynced(pn: Pane, root: string, chosen: seq<nat>)
    requires UniqueBasenames(pn.sel) && pn.view == ViewOf(pn.sel)
    requires forall k :: 0 <= k < |chosen| ==> chosen[k] < |pn.view|
    ensures var r := RemoveAllNamed(pn, root, ChosenNames(pn.view, chosen));
            && r.sel == DropNames(pn.sel, NameSet(ChosenNames(pn.view, chosen)))
            && KeepRows(pn.view, PositionSet(chosen)) == ViewOf(r.sel)
            && UniqueBasenames(r.sel)
            && (forall x :: x in r.sel <==> x in pn.sel && Basename(x.path) !in NameSet(ChosenNames(pn.view, chosen)))
  {
    var names := ChosenNames(pn.view, chosen);
    var ns := NameSet(names);
    RemoveAllNamedDrops(pn, root, names);
    NameSetElements(names);
    DropNamesElements(pn.sel, ns);
    forall i | 0 <= i < |pn.sel| ensures i in PositionSet(chosen) <==> Basename(pn.sel[i].path) in ns {
      if i in PositionSet(chosen) {
        var k :| 0 <= k < |chosen| && chosen[k] == i;
        assert names[k] == Basename(pn.sel[i].path);
      }
      if Basename(pn.sel[i].path) in ns {
        var k :| 0 <= k < |names| && names[k] == Basename(pn.sel[i].path);
        var c := chosen[k];
        assert Basename(pn.sel[c].path) == names[k];
        assert c == i;
      }
    }
    KeepRowsDrop(pn.sel, PositionSet(chosen), ns);
  }
}
