/** The renamer window's state outside the presets: the directory tree, the selection and its pane,
    the suggestion table with its picked rows, and whether a suggestion request is pending. Each
    method is one handler of the window. */
module Session {
  import opened Wrappers
  import opened Paths
  import opened Selection
  import opened Listing
  import opened DirTree
  import opened SelectionView
  import Table
  import opened Suggest
  import opened Applier

  /** The warning populate_directory_subtree shows when a directory cannot be listed. */
  function AccessWarning(listing: Option<seq<DirEntry>>, p: string): Option<string> {
    if listing.None? then Some("Cannot access " + p) else None
  }

  /** The ids of the table's rows. */
  function RowIds(rows: seq<Table.Row>): set<nat> {
    set i | 0 <= i < |rows| :: rows[i].id
  }

  lemma RowIdsHasId(rows: seq<Table.Row>)
    ensures forall id :: id in RowIds(rows) <==> Table.HasId(rows, id)
  {
    forall id | Table.HasId(rows, id) ensures id in RowIds(rows) {
      var i :| 0 <= i < |rows| && rows[i].id == id;
    }
  }

  /** What pressing "Get AI Suggestions" does: nothing while a request is pending (the button is
      disabled), a warning on an empty selection, or a request with this prompt and model. */
  datatype Request = Disabled | NeedsSelection(warning: string) | Sent(prompt: string, model: string)

  /** What pressing "Apply Selected Renames" does: nothing while a request is pending, a warning
      when no suggestion is picked, or the summary and the tree refresh's warning. */
  datatype ApplyOutcome = ApplyDisabled | NothingPicked(warning: string) | Applied(notice: Notice, treeWarning: Option<string>)

  /** The loop of _check_ai_thread over the selection. */
  method MergeResults(r0: Table.Results, sel: seq<Item>, result: map<string, string>) returns (r: Table.Results)
    ensures r == Table.Merge(r0, sel, result)
  {
    r := r0;
    var k := 0;
    while k < |sel|
      invariant k <= |sel|
      invariant r == Table.Merge(r0, sel[..k], result)
    {
      var it := sel[k];
      var name := Basename(it.path);
      if name in result {
        r := Table.Results(r.sugg[name := result[name]],
                           Table.DeleteOriginal(r.rows, name) + [Table.Row(r.nextId, name, result[name], it.isFolder)],
                           r.nextId + 1);
      }
      assert sel[..k + 1][..k] == sel[..k];
      k := k + 1;
    }
    assert sel[..k] == sel;
  }

  /** After rejecting the picked rows the table is still valid and none of them is left. */
  lemma RejectLeavesUnpicked(r: Table.Results, picked: set<nat>)
    requires Table.Valid(r)
    ensures var r' := Table.RejectAll(r, Table.PickedIds(r.rows, picked));
            Table.Valid(r') && forall x :: x in r'.rows ==> x.id !in picked
  {
    Table.RejectProperties(r, picked);
    Table.UnpickedElements(r.rows, picked);
  }

  /** The loop of select_tree_item_contents over the folder's listing: each child whose path is not
      selected yet is ticked, added to the selection and shown in the pane. */
  method SelectListed(start: Pane, at: Addr, p: string, es: seq<DirEntry>) returns (r: Pane)
    requires ValidAddr(start.tree, at)
    ensures r == Contents(start, at, p, es)
  {
    r := start;
    var k := 0;
    while k < |es|
      invariant k <= |es|
      invariant ValidAddr(r.tree, at)
      invariant r == Contents(start, at, p, es[..k])
    {
      var e := es[k];
      var childPath := Join(p, e.name);
      if !HasPath(r.sel, childPath) {
        r := Pane(MarkChild(r.tree, at, e.name), r.sel + [Item(childPath, e.isFolder)], r.view + [ViewRow(e.name, KindOf(e.isFolder))]);
      }
      assert es[..k + 1][..k] == es[..k];
      k := k + 1;
    }
    assert es[..k] == es;
  }

  /** The loop of remove_selected_item over the chosen rows' names: the first entry with each name
      leaves the selection and its visible checkbox is cleared. */
  method DeselectNamed(start: Pane, root: string, names: seq<string>) returns (r: Pane)
    ensures r == RemoveAllNamed(start, root, names)
  {
    r := start;
    var k := 0;
    while k < |names|
      invariant k <= |names|
      invariant r == RemoveAllNamed(start, root, names[..k])
    {
      var name := names[k];
      match IndexOfBasename(r.sel, name) {
        case None =>
        case Some(i) =>
          var path := r.sel[i].path;
          r := Pane(UpdateCheckbox(r.tree, root, path, Unchecked), RemoveAt(r.sel, i), r.view);
      }
      assert names[..k + 1][..k] == names[..k];
      k := k + 1;
    }
    assert names[..k] == names;
  }

  /** The loop of reject_selected_suggestions over the picked ids, in table order. */
  method RejectRows(r0: Table.Results, ids: seq<nat>) returns (r: Table.Results)
    ensures r == Table.RejectAll(r0, ids)
  {
    r := r0;
    var k := 0;
    while k < |ids|
      invariant k <= |ids|
      invariant r == Table.RejectAll(r0, ids[..k])
    {
      r := Table.RejectOne(r, ids[k]);
      assert ids[..k + 1][..k] == ids[..k];
      k := k + 1;
    }
    assert ids[..k] == ids;
  }

  /** The loop of apply_renames over the picked rows, one rename outcome per row. */
  method RunRenames(sel: seq<Item>, rows: seq<Table.Row>, oks: seq<bool>) returns (t: Tally)
    requires |oks| == |rows|
    ensures t == ApplyRows(Tally(sel, 0, 0), rows, oks)
  {
    t := Tally(sel, 0, 0);
    var k := 0;
    while k < |rows|
      invariant k <= |rows|
      invariant t == ApplyRows(Tally(sel, 0, 0), rows[..k], oks[..k])
    {
      t := ApplyRow(t, rows[k], oks[k]);
      assert rows[..k + 1][..k] == rows[..k];
      assert oks[..k + 1][..k] == oks[..k];
      k := k + 1;
    }
    assert rows[..k] == rows && oks[..k] == oks;
  }

  /** The loop at the end of apply_renames that refills the pane from the selection. */
  method BuildView(sel: seq<Item>) returns (v: seq<ViewRow>)
    ensures v == ViewOf(sel)
  {
    v := [];
    var j := 0;
    while j < |sel|
      invariant j <= |sel|
      invariant v == ViewOf(sel[..j])
    {
      v := v + [ViewRow(Basename(sel[j].path), KindOf(sel[j].isFolder))];
      j := j + 1;
    }
    assert sel[..j] == sel;
  }

  class Renamer {
    const root: string
    /** The warning the first population of the tree shows, if the root cannot be listed. */
    const startWarning: Option<string>
    var tree: TreeNode
    var selected: seq<Item>
    var view: seq<ViewRow>
    var results: Table.Results
    var picked: set<nat>
    var busy: bool

    /** The table is consistent and only shown rows are picked. */
    predicate Valid()
      reads this`results, this`picked
    {
      Table.Valid(results) && forall id :: id in picked ==> Table.HasId(results.rows, id)
    }

    /** The window after the root directory is chosen: the tree is populated (with the access
        warning when the root cannot be listed), nothing is selected, the table is empty and no
        request is pending. */
    constructor (root: string, listing: Option<seq<DirEntry>>)
      ensures Valid()
      ensures this.root == root && tree == FreshTree(root, listing, [])
      ensures startWarning == AccessWarning(listing, root)
      ensures selected == [] && view == [] && results == Table.NoResults && picked == {} && !busy
    {
      this.root := root;
      startWarning := AccessWarning(listing, root);
      var kids := PopulateSubtree(listing, root, []);
      tree := TreeNode(RootText(root), Unchecked, Folder, true, kids);
      selected := [];
      view := [];
      results := Table.NoResults;
      picked := {};
      busy := false;
      Table.NoResultsValid();
    }

    /** populate_directory_tree from the root directory's listing. */
    method PopulateTree(listing: Option<seq<DirEntry>>) returns (warning: Option<string>)
      modifies this`tree
      ensures tree == FreshTree(root, listing, selected)
      ensures warning == AccessWarning(listing, root)
    {
      var kids := PopulateSubtree(listing, root, selected);
      tree := TreeNode(RootText(root), Unchecked, Folder, true, kids);
      warning := AccessWarning(listing, root);
    }

    /** select_tree_item for the tree's selected row (None when no row is selected): tick it and
        add it to the selection. */
    method SelectItem(a: Option<Addr>)
      requires a.Some? ==> ValidAddr(tree, a.value)
      modifies this`tree, this`selected, this`view
      ensures a.None? ==> tree == old(tree) && selected == old(selected) && view == old(view)
      ensures a.Some? ==>
                && tree == SetCheckAt(old(tree), a.value, Checked)
                && (selected, view) == AddEntry(old(selected), old(view), FullPath(old(tree), root, a.value), NodeAt(old(tree), a.value).kind)
    {
      if a.Some? {
        var n := NodeAt(tree, a.value);
        var p := FullPath(tree, root, a.value);
        tree := SetCheckAt(tree, a.value, Checked);
        if !HasPath(selected, p) {
          selected := selected + [Item(p, n.kind == Folder)];
          view := view + [ViewRow(Basename(p), n.kind)];
        }
      }
    }

    /** deselect_tree_item for the tree's selected row: clear its tick and remove it from the selection. */
    method DeselectItem(a: Option<Addr>)
      requires a.Some? ==> ValidAddr(tree, a.value)
      modifies this`tree, this`selected, this`view
      ensures a.None? ==> tree == old(tree) && selected == old(selected) && view == old(view)
      ensures a.Some? ==>
                && tree == SetCheckAt(old(tree), a.value, Unchecked)
                && (selected, view) == RemoveEntry(old(selected), old(view), FullPath(old(tree), root, a.value))
    {
      if a.Some? {
        var p := FullPath(tree, root, a.value);
        tree := SetCheckAt(tree, a.value, Unchecked);
        match IndexOfPath(selected, p)
        case None =>
        case Some(i) =>
          selected := RemoveAt(selected, i);
          match IndexOfRow(view, Basename(p))
          case None =>
          case Some(j) => view := view[..j] + view[j + 1..];
      }
    }

    /** on_tree_checkbox_click on the checkbox cell of the row at a: a ticked row is unticked and
        removed from the selection, any other row (a placeholder too) is ticked and added. */
    method CheckboxClick(a: Addr)
      requires ValidAddr(tree, a)
      modifies this`tree, this`selected, this`view
      ensures old(NodeAt(tree, a)).check == Checked ==>
                && tree == SetCheckAt(old(tree), a, Unchecked)
                && (selected, view) == RemoveEntry(old(selected), old(view), FullPath(old(tree), root, a))
      ensures old(NodeAt(tree, a)).check != Checked ==>
                && tree == SetCheckAt(old(tree), a, Checked)
                && (selected, view) == AddEntry(old(selected), old(view), FullPath(old(tree), root, a), NodeAt(old(tree), a).kind)
    {
      if NodeAt(tree, a).check == Checked {
        DeselectItem(Some(a));
      } else {
        SelectItem(Some(a));
      }
    }

    /** select_tree_item_contents for the tree's selected row, given the folder's listing in the
        order os.listdir returns it (None when listing is refused): a folder is opened and each
        listed entry not yet selected is added, with its row, and the first child showing its name
        is ticked. */
    method SelectContents(a: Option<Addr>, listing: Option<seq<DirEntry>>) returns (warning: Option<string>)
      requires a.Some? ==> ValidAddr(tree, a.value)
      modifies this`tree, this`selected, this`view
      ensures a.None? || NodeAt(old(tree), a.value).kind != Folder ==>
                tree == old(tree) && selected == old(selected) && view == old(view) && warning.None?
      ensures a.Some? && NodeAt(old(tree), a.value).kind == Folder ==>
                var p := FullPath(old(tree), root, a.value);
                var start := Pane(SetOpenAt(old(tree), a.value, true), old(selected), old(view));
                && warning == AccessWarning(listing, p)
                && Pane(tree, selected, view) == if listing.None? then start else Contents(start, a.value, p, listing.value)
    {
      warning := None;
      if a.None? || NodeAt(tree, a.value).kind != Folder {
        return;
      }
      var at := a.value;
      var p := FullPath(tree, root, at);
      tree := SetOpenAt(tree, at, true);
      if listing.None? {
        warning := AccessWarning(listing, p);
        return;
      }
      var r := SelectListed(Pane(tree, selected, view), at, p, listing.value);
      tree, selected, view := r.tree, r.sel, r.view;
    }

    /** expand_tree_item: the selected row is marked open (no listing is loaded by this). */
    method ExpandItem(a: Option<Addr>)
      requires a.Some? ==> ValidAddr(tree, a.value)
      modifies this`tree
      ensures tree == if a.Some? then SetOpenAt(old(tree), a.value, true) else old(tree)
    {
      if a.Some? {
        tree := SetOpenAt(tree, a.value, true);
      }
    }

    /** collapse_tree_item: the selected row is marked closed. */
    method CollapseItem(a: Option<Addr>)
      requires a.Some? ==> ValidAddr(tree, a.value)
      modifies this`tree
      ensures tree == if a.Some? then SetOpenAt(old(tree), a.value, false) else old(tree)
    {
      if a.Some? {
        tree := SetOpenAt(tree, a.value, false);
      }
    }

    /** on_dir_tree_double_click on the row at a: outside the checkbox column a folder row is
        toggled open or closed; anything else is ignored. */
    method DoubleClick(a: Addr, onCheckboxColumn: bool)
      requires ValidAddr(tree, a)
      modifies this`tree
      ensures tree == if !onCheckboxColumn && NodeAt(old(tree), a).kind == Folder
                      then SetOpenAt(old(tree), a, !NodeAt(old(tree), a).open) else old(tree)
    {
      if !onCheckboxColumn && NodeAt(tree, a).kind == Folder {
        tree := SetOpenAt(tree, a, !NodeAt(tree, a).open);
      }
    }

    /** on_folder_expanded for the row at a that the Treeview has just opened, given the listing of
        its directory: a row whose only child is the placeholder gets its children loaded, each
        ticked exactly when its path is selected. */
    method FolderExpanded(a: Addr, listing: Option<seq<DirEntry>>) returns (warning: Option<string>)
      requires ValidAddr(tree, a)
      modifies this`tree
      ensures tree == OnExpand(old(tree), a, Children(listing, FullPath(old(tree), root, a), selected))
      ensures warning == if NeedsLoad(NodeAt(old(tree), a)) then AccessWarning(listing, FullPath(old(tree), root, a)) else None
    {
      var p := FullPath(tree, root, a);
      var kids := [];
      warning := None;
      if NeedsLoad(NodeAt(tree, a)) {
        kids := PopulateSubtree(listing, p, selected);
        warning := AccessWarning(listing, p);
      }
      tree := OnExpand(tree, a, kids);
    }

    /** remove_selected_item for the rows picked in the pane (distinct positions in pane order): for each
        row, the first entry with that basename leaves the selection and its checkbox is cleared
        where the tree shows it; the picked rows leave the pane. */
    method RemoveSelectedItems(chosen: seq<nat>)
      requires forall k :: 0 <= k < |chosen| ==> chosen[k] < |view|
      requires forall i, j :: 0 <= i < j < |chosen| ==> chosen[i] < chosen[j]
      modifies this`tree, this`selected, this`view
      ensures var r := RemoveAllNamed(Pane(old(tree), old(selected), old(view)), root, ChosenNames(old(view), chosen));
              tree == r.tree && selected == r.sel
      ensures view == KeepRows(old(view), PositionSet(chosen))
    {
      var r := DeselectNamed(Pane(tree, selected, view), root, ChosenNames(view, chosen));
      tree, selected := r.tree, r.sel;
      view := KeepRows(view, PositionSet(chosen));
    }

    /** clear_selection: the selection and the pane are emptied and every row of the tree, the
        root and the placeholders included, is unticked. */
    method ClearSelection()
      modifies this`tree, this`selected, this`view
      ensures selected == [] && view == [] && tree == SetAll(old(tree), Unchecked)
    {
      selected := [];
      view := [];
      tree := SetAll(tree, Unchecked);
    }

    /** select_all_suggestions. */
    method PickAll()
      requires Valid()
      modifies this`picked
      ensures Valid() && picked == RowIds(results.rows)
    {
      RowIdsHasId(results.rows);
      picked := RowIds(results.rows);
    }

    /** deselect_all_suggestions. */
    method PickNone()
      requires Valid()
      modifies this`picked
      ensures Valid() && picked == {}
    {
      picked := {};
    }

    /** The user picks rows of the table. */
    method SetPicked(ids: set<nat>)
      requires Valid() && forall id :: id in ids ==> Table.HasId(results.rows, id)
      modifies this`picked
      ensures Valid() && picked == ids
    {
      picked := ids;
    }

    /** get_ai_suggestions with the instruction box's text and the chosen model. */
    method RequestSuggestions(instructions: string, model: string) returns (r: Request)
      modifies this`busy
      ensures old(busy) ==> r == Disabled && busy
      ensures !old(busy) && selected == [] ==> r == NeedsSelection("Please select files or folders first!") && !busy
      ensures !old(busy) && selected != [] ==> r == Sent(Prompt(selected, instructions), model) && busy
    {
      if busy {
        return Disabled;
      }
      if selected == [] {
        return NeedsSelection("Please select files or folders first!");
      }
      busy := true;
      r := Sent(Prompt(selected, instructions), model);
    }

    /** _check_ai_thread with what the queue holds (None when it is still empty): a failure is
        reported; a suggestion dict is merged, over the selection as it is now, into the table, all
        rows are picked and the selection is cleared; either way the buttons come back. */
    method Poll(outcome: Option<Result<map<string, string>, string>>) returns (error: Option<string>)
      requires busy && Valid()
      modifies this`tree, this`selected, this`view, this`results, this`picked, this`busy
      ensures Valid()
      ensures outcome.None? ==>
                && error.None? && busy && tree == old(tree) && selected == old(selected) && view == old(view)
                && results == old(results) && picked == old(picked)
      ensures outcome.Some? && outcome.value.Err? ==>
                && error == Some(FailureMessage(outcome.value.error)) && !busy
                && tree == old(tree) && selected == old(selected) && view == old(view)
                && results == old(results) && picked == old(picked)
      ensures outcome.Some? && outcome.value.Ok? ==>
                && error.None? && !busy
                && results == Table.Merge(old(results), old(selected), outcome.value.value)
                && picked == RowIds(results.rows)
                && selected == [] && view == [] && tree == SetAll(old(tree), Unchecked)
    {
      error := None;
      if outcome.None? {
        return;
      }
      match outcome.value {
        case Err(reason) =>
          error := Some(FailureMessage(reason));
        case Ok(result) =>
          var r := MergeResults(results, selected, result);
          Table.MergeValid(results, selected, result);
          results := r;
          RowIdsHasId(results.rows);
          picked := RowIds(results.rows);
          ClearSelection();
      }
      busy := false;
    }

    /** reject_selected_suggestions: with no row picked a warning; otherwise each picked row, in
        table order, is deleted with its key of rename_suggestions. The selection is never
        touched, and no picked row is left. */
    method Reject() returns (warning: Option<string>)
      requires Valid()
      modifies this`results, this`picked
      ensures Valid()
      ensures old(picked) == {} ==>
                && warning == Some("Please select suggestions to reject!")
                && results == old(results)
                && picked == old(picked)
      ensures old(picked) != {} ==>
                && warning.None?
                && results == Table.RejectAll(old(results), Table.PickedIds(old(results).rows, old(picked)))
                && (forall x :: x in results.rows ==> x.id !in old(picked))
                && picked == {}
    {
      if picked == {} {
        return Some("Please select suggestions to reject!");
      }
      warning := None;
      var r := RejectRows(results, Table.PickedIds(results.rows, picked));
      RejectLeavesUnpicked(results, picked);
      results := r;
      picked := {};
    }

    /** save_edited_cell on the Suggested cell of row id; rename_suggestions is not updated. */
    method EditCell(id: nat, value: string)
      requires Valid()
      modifies this`results
      ensures Valid()
      ensures results == Table.Results(old(results).sugg, Table.EditSuggested(old(results).rows, id, value), old(results).nextId)
    {
      Table.EditKeepsValid(results, id, value);
      var rows' := Table.EditSuggested(results.rows, id, value);
      forall x | x in picked ensures Table.HasId(rows', x) {
        var i :| 0 <= i < |results.rows| && results.rows[i].id == x;
        assert rows'[i].id == x;
      }
      results := results.(rows := rows');
    }

    /** apply_renames over the picked rows, with one rename outcome per picked row and the root
        directory's listing afterwards: when no shown row is picked the warning is given; otherwise
        the selection's entries are re-keyed to their new paths, the summary is shown, the tree is
        rebuilt from the root and the pane from the selection. */
    method Apply(oks: seq<bool>, listing: Option<seq<DirEntry>>) returns (r: ApplyOutcome)
      requires |oks| == |Table.PickedRows(results.rows, picked)|
      modifies this`tree, this`selected, this`view
      ensures old(busy) ==> r == ApplyDisabled && tree == old(tree) && selected == old(selected) && view == old(view)
      ensures !old(busy) && Table.PickedRows(results.rows, picked) == [] ==>
                r == NothingPicked("Please select items to rename!") && tree == old(tree) && selected == old(selected) && view == old(view)
      ensures !old(busy) && Table.PickedRows(results.rows, picked) != [] ==>
                var t := ApplyRows(Tally(old(selected), 0, 0), Table.PickedRows(results.rows, picked), oks);
                && selected == t.sel
                && r == Applied(Summary(t.renamed, t.errors), AccessWarning(listing, root))
                && tree == FreshTree(root, listing, selected)
                && view == ViewOf(selected)
    {
      if busy {
        return ApplyDisabled;
      }
      if Table.PickedRows(results.rows, picked) == [] {
        return NothingPicked("Please select items to rename!");
      }
      var rows := Table.PickedRows(results.rows, picked);
      var t := RunRenames(selected, rows, oks);
      selected := t.sel;
      var warning := PopulateTree(listing);
      view := BuildView(t.sel);
      r := Applied(Summary(t.renamed, t.errors), warning);
    }
  }
}
