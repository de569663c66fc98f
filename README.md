# Nickel File Renamer, modelled in Dafny

Nickel File Renamer is a single-window desktop tool. The user picks a root directory, ticks files and folders in a lazily
loaded directory tree, and sends their names with an instruction to a language model. The suggested
names come back as a JSON object and land in a table. The user can edit, reject or apply them; applying
renames the files on disk. Named instruction presets are kept in a JSON file together with the last
chosen preset and model.

This project models the state beneath the widgets, and the operations on it:

- **`Selection`**: the selection list of `(path, is_folder)` entries, with add by path, remove by path, remove by basename, and add-a-run.
- **`SelectionView`**: the "Selected Items" pane. It covers how the pane's rows track the selection, select-contents, and remove-selected.
- **`DirTree`**: the directory tree as a value. Nodes are addressed by child positions. It covers the full path of a node, population from a directory listing, placeholder expansion, the checkbox search, and clear-all.
- **`Listing`**: the listing sort (folders first, then by lower-cased name).
- **`Suggest`**: the prompt, the JSON-object extraction, the API error message and the request worker.
- **`Table`**: `rename_suggestions` and the result rows. It covers the merge of a suggestion dict, reject, cell edit and picked rows.
- **`Applier`**: the rename loop and its summary message.
- **`Presets`**: the preset dict, its load/save encoding with the two reserved keys, the start-up choices, and the `PresetPanel` class with load, save and delete.
- **`Session`**: the `Renamer` class. Each of its methods is one window handler, working on the tree, the selection, the pane, the table, the picked rows and the busy flag.
- **Support modules**: `Paths` (POSIX `basename`/`dirname`/`join`), `Text` (strip, `str(int)`, line joins), `Search` (the first-index search every lookup uses) and `Wrappers` (`Option`, `Result`).

The filesystem, the network, dialogs and the background thread become method parameters:

- a directory listing is an `Option<seq<DirEntry>>`, where `None` means listing was refused;
- each rename is one `bool`, saying whether it succeeds;
- the worker's result is an `Option<Result<map, string>>`, where `None` means the queue is still empty;
- a dialog answer is an `Option<string>` or a `bool`;
- the row a click or menu command refers to is an address in the tree.

The model follows the code as written:

- A successful poll clears the whole selection, so applying right after it renames nothing (`Applier.ApplyAfterClear`).
- Reject never puts anything back into the selection.
- The context-menu "Expand" only marks a row open; children are loaded by the separate `<<TreeviewOpen>>` handler.
- "Select Contents" walks the listing in `os.listdir` order.
- Removing an entry deletes the first pane row with the same basename, which can be another entry's row (`SelectionView.RemoveEntryDesync`).
- A folder whose only entry is named "Loading..." looks like an unloaded folder, so it is listed again on every expansion (`DirTree.ExpandReloadsLoadingEntry`).
- A preset saved under one of the two reserved names does not survive a restart (`Presets.ReservedPresetLost`).

## Model

| member | source | states |
|---|---|---|
| Search.FirstIndex | nickel_file_renamer.py:399-401 | the index found is the first whose element passes the test; None exactly when none passes |
| Selection.IndexOfPath | nickel_file_renamer.py:399-401 | the index found holds the path and no earlier entry does; None exactly when no entry has it |
| Selection.IndexOfBasename | nickel_file_renamer.py:694-695 | the index found has that basename and no earlier entry does; None exactly when none has it |
| Selection.AddProperties | nickel_file_renamer.py:388-390 | add appends exactly when the path is new, keeps paths unique, and afterwards holds exactly the old paths plus the new one |
| Selection.RemovePathProperties | nickel_file_renamer.py:398-412 | remove deletes only the first entry with the path and keeps the rest in order; absent path changes nothing; unique paths stay unique and the path is gone |
| Selection.RemoveAfterAdd | nickel_file_renamer.py:374-377 | ticking and then unticking an unselected row restores the selection exactly |
| Selection.AddAfterRemove | nickel_file_renamer.py:374-377 | unticking and re-ticking a selected row keeps the same entries but moves it to the end |
| Selection.RemoveBasenameProperties | nickel_file_renamer.py:693-698 | the step of remove_selected_item deletes the first entry with that basename and reports it; no match changes nothing |
| Selection.AddAllProperties | nickel_file_renamer.py:495-502 | adding a run keeps the old list as prefix and unique paths, and afterwards holds exactly the old paths and the run's paths |
| SelectionView.AddEntrySynced | nickel_file_renamer.py:381-393 | add_tree_item_to_selection changes the selection as Selection.Add does and keeps the pane rows equal to the rows of the selection |
| SelectionView.RemoveEntrySynced | nickel_file_renamer.py:395-412 | with unique basenames, remove_tree_item_from_selection changes the selection as Selection.RemovePath does and deletes exactly that entry's pane row |
| SelectionView.RemoveEntryDesync | nickel_file_renamer.py:404-411 | with two entries sharing a basename, removing one deletes the other's row and the pane no longer matches the selection |
| SelectionView.ContentsSelection | nickel_file_renamer.py:495-502 | select_tree_item_contents changes the selection exactly as adding each listed child in turn |
| SelectionView.ContentsSynced | nickel_file_renamer.py:500-503 | the pane rows stay equal to the rows of the selection after selecting a folder's contents |
| SelectionView.ContentsSelectsAll | nickel_file_renamer.py:495-502 | after selecting contents every listed child's path is selected, nothing selected is lost, and paths stay unique |
| SelectionView.Contents | nickel_file_renamer.py:507-511 | the folder row keeps its text, open flag, type and the entries of its children while its children are ticked |
| SelectionView.RemoveChosenSynced | nickel_file_renamer.py:683-703 | with unique basenames, remove_selected_item removes exactly the entries of the chosen rows, the remaining rows are the rows of the remaining entries, basenames stay unique |
| SelectionView.RemoveAllNamedDrops | nickel_file_renamer.py:689-698 | with unique basenames, the loop drops exactly the entries whose basename is among the chosen rows' names and leaves the rows to the final deletion |
| Listing.KeyLeTotal | nickel_file_renamer.py:565 | the sort key order (folder rank, then lower-cased name) is total |
| Listing.KeyLeTransitive | nickel_file_renamer.py:565 | the sort key order is transitive |
| Listing.SortListingProperties | nickel_file_renamer.py:565 | the sorted listing is ordered by the key and is a permutation of the listing |
| Listing.FoldersFirst | nickel_file_renamer.py:565 | in a sorted listing no file comes before a folder |
| DirTree.FullPathOfChild | nickel_file_renamer.py:528-542 | a child's path is its parent's path joined with its text |
| DirTree.BasenameOfFullPath | nickel_file_renamer.py:528-542 | the basename of a non-root node's path is its text when the text is a plain name |
| DirTree.FullPathAfterReplaceAt | nickel_file_renamer.py:528-542 | replacing a node's own fields keeps its full path |
| DirTree.ChildrenProperties | nickel_file_renamer.py:558-589 | populated children are the listed entries, sorted, each ☑ exactly when its path is selected, folders with exactly one "Loading..." placeholder and files with none; an unreadable directory gives none |
| DirTree.PopulateSubtree | nickel_file_renamer.py:558-589 | the insert loop builds exactly the populated children of the listing |
| DirTree.ExpandEffect | nickel_file_renamer.py:619-637 | expanding opens the node, keeps text, mark and type; replaces the children with the loaded ones exactly when the only child reads "Loading...", else keeps them |
| DirTree.ExpandIdempotent | nickel_file_renamer.py:626-637 | a second expansion changes nothing, whatever the directory lists by then, unless the first loaded a single entry named "Loading..." |
| DirTree.ExpandReloadsLoadingEntry | nickel_file_renamer.py:626-637 | a folder whose only entry is named "Loading..." is loaded afresh on every expansion |
| DirTree.ExpandKeepsPath | nickel_file_renamer.py:619-637 | expanding keeps the node's full path |
| DirTree.ExpandedChildrenSynced | nickel_file_renamer.py:630-635 | after loading, each new child is ☑ exactly when its path, as get_full_path rebuilds it, is selected |
| DirTree.SetAllAt | nickel_file_renamer.py:759-771 | clearing marks every node, root and placeholders included, and keeps text, type and children |
| DirTree.SetAllValidAddr | nickel_file_renamer.py:759-771 | clearing keeps every node address valid |
| DirTree.PathFromIsFullPath | nickel_file_renamer.py:708-720 | the path the search accumulates is the node's full path |
| DirTree.FindFrom | nickel_file_renamer.py:708-722 | a node found by find_item_by_path has that path and is reached through open folders only (the converse is DirTree.FindComplete) |
| DirTree.FindAmong | nickel_file_renamer.py:715-721 | the child loop of the search finds a node with that path under an open folder (the converse is DirTree.FindAmongComplete) |
| DirTree.FindComplete | nickel_file_renamer.py:708-722 | whenever a node reachable through open folders has the path, the search finds a node |
| DirTree.FindAmongComplete | nickel_file_renamer.py:715-721 | the child loop finds a node when a child it has not yet passed leads, through open folders, to a node with the path |
| DirTree.FindNoneIffHidden | nickel_file_renamer.py:708-727 | the search finds nothing exactly when no node reachable through open folders has the path |
| DirTree.UpdateCheckboxEffect | nickel_file_renamer.py:705-730 | update_dir_tree_checkbox changes only the mark of the node found, which has that path and is reached through open folders; no node is found exactly when none reachable through open folders has the path, and then the tree is unchanged |
| DirTree.SetCheckAt | nickel_file_renamer.py:374-377 | setting a checkbox changes only that node's mark |
| DirTree.SetOpenAt | nickel_file_renamer.py:516-526 | opening or closing changes only that node's open flag |
| DirTree.SetFieldKeepsPath | nickel_file_renamer.py:516-526 | opening, closing or ticking a node keeps its full path |
| DirTree.IndexOfText | nickel_file_renamer.py:507-511 | the first child whose text is the name |
| DirTree.MarkChild | nickel_file_renamer.py:507-511 | ticking a child keeps the folder's text, open flag, type and its children's entries |
| Suggest.ItemLineRoundTrip | nickel_file_renamer.py:827-830 | the prompt line "name (type: folder\|file)" gives back the basename and the kind |
| Suggest.ItemsTextRoundTrip | nickel_file_renamer.py:826-832 | splitting the joined item lines on newlines gives back every item's basename and kind, in order |
| Suggest.PromptLayout | nickel_file_renamer.py:835-842 | the prompt is the fixed head, the item lines, the stripped instruction and the fixed tail, in that order |
| Suggest.ExtractJson | nickel_file_renamer.py:893-900 | a response whose stripped text starts with '{' passes through unchanged; an error is always the fixed message |
| Suggest.ExtractJsonCut | nickel_file_renamer.py:894-897 | otherwise the result is the text from the first '{' to the last '}' |
| Suggest.ExtractJsonFails | nickel_file_renamer.py:896-900 | extraction fails exactly when the stripped text does not start with '{' and there is no '}' after the first '{' |
| Suggest.ExtractJsonBraces | nickel_file_renamer.py:893-900 | an extracted object starts with '{', and unless passed through ends with '}' |
| Suggest.ApiErrorStatusRoundTrip | nickel_file_renamer.py:880-887 | the API error message starts with "API Error: Status " from which the status code can be read back |
| Suggest.WorkerCases | nickel_file_renamer.py:870-906 | the worker's result for each reply: transport failure, non-200 status, response without a JSON object, or the parsed dict |
| Suggest.FailureMessage | nickel_file_renamer.py:914-915 | the failure box text is the prefix followed by the reason |
| Table.NoResultsValid | nickel_file_renamer.py:33 | the empty table satisfies the table invariant |
| Table.IndexOfOriginal | nickel_file_renamer.py:922-925 | the first row with that original name |
| Table.IndexOfId | nickel_file_renamer.py:785-787 | the row with that id |
| Table.MergeValid | nickel_file_renamer.py:916-932 | merging keeps ids unique, originals unique and ids fresh, and keeps rename_suggestions' keys equal to the originals shown |
| Table.MergeSuggestions | nickel_file_renamer.py:919-921 | after merging every resolved basename maps to the result's value; other keys keep their values; no other key appears |
| Table.MergeRows | nickel_file_renamer.py:922-930 | after merging every resolved basename has a row showing the result's suggestion |
| Table.MergeKeepsOthers | nickel_file_renamer.py:922-930 | merging keeps the rows of unresolved originals, in order |
| Table.RejectProperties | nickel_file_renamer.py:781-811 | rejecting keeps exactly the unpicked rows in order, drops exactly the picked originals from rename_suggestions, keeps the other values, and keeps the table valid |
| Table.UnpickedElements | nickel_file_renamer.py:808-809 | the remaining rows are exactly the rows whose id was not rejected |
| Table.EditSuggested | nickel_file_renamer.py:1038-1043 | an edit changes only the Suggested cell of that row |
| Table.EditKeepsValid | nickel_file_renamer.py:1038-1043 | an edit keeps the table invariant and rename_suggestions |
| Table.PickedRows | nickel_file_renamer.py:949 | the rows walked are rows of the table and are picked |
| Table.PickedRowsEmpty | nickel_file_renamer.py:948-951 | when only shown rows are picked, no row is walked exactly when nothing is picked |
| Table.PickedRowsComplete | nickel_file_renamer.py:949 | every picked row is walked |
| Applier.ReKeyedIndex | nickel_file_renamer.py:968-982 | the entry re-keyed by value is the one the basename search found |
| Applier.ApplyRowCases | nickel_file_renamer.py:957-986 | a row with equal names, no matching entry or an empty path changes nothing; a successful rename re-keys the first match in place, keeping kind and directory; a failure counts one error |
| Applier.ApplyRowsProperties | nickel_file_renamer.py:953-986 | counters only grow, renamed plus failed never exceeds the rows, the selection keeps its length and kinds, and plain new names keep every entry in its directory |
| Applier.ApplyAfterClear | nickel_file_renamer.py:936 | right after a successful poll the selection is empty, so applying renames nothing and counts nothing |
| Applier.SummaryCases | nickel_file_renamer.py:989-993 | success exactly when something was renamed; the info message exactly when nothing was renamed and nothing failed; nothing otherwise |
| Applier.SummaryRenamedCount | nickel_file_renamer.py:990 | the success text starts with "Renamed " followed by the renamed count |
| Applier.SummaryMentionsFailures | nickel_file_renamer.py:990-991 | the success text ends with " items successfully." exactly when nothing failed |
| Applier.SummaryFailedCount | nickel_file_renamer.py:991 | with failures the failed count follows " Failed to rename " |
| Presets.IndexOfKey | nickel_file_renamer.py:1047 | the position of a key; None exactly when it is absent |
| Presets.PutProperties | nickel_file_renamer.py:1067 | storing sets the key's value, keeps every other value, keeps keys unique, and appends only a new key |
| Presets.RemoveProperties | nickel_file_renamer.py:1088 | deleting removes the key, keeps every other value and keeps keys unique; an absent key changes nothing |
| Presets.PopEntry | nickel_file_renamer.py:91-92 | popping a reserved key gives its value and the dict without it |
| Presets.LoadEncode | nickel_file_renamer.py:74-118 | loading what was saved gives back the presets, the chosen preset when it was a key, and the model when it contains '/' |
| Presets.RestartRestores | nickel_file_renamer.py:191-251 | after closing and restarting the same presets, a non-empty chosen preset and a model with '/' come back, else the first model |
| Presets.ReservedPresetLost | nickel_file_renamer.py:91-116 | a preset named "_last_selected" or "_last_selected_model" is gone after a save and a load |
| Presets.InitialPresetIsKey | nickel_file_renamer.py:244-251 | the initial preset is a key or empty, and falls back to the first key when the saved one is missing |
| Presets.PresetPanel.constructor | nickel_file_renamer.py:191-259 | start-up loads the file, chooses the model and preset, and loads that preset's text |
| Presets.PresetPanel.LoadPreset | nickel_file_renamer.py:1045-1052 | the chosen preset's text replaces the instruction, if it is a preset |
| Presets.PresetPanel.SavePreset | nickel_file_renamer.py:1054-1074 | empty instruction gives the warning; a non-blank name stores the stripped text under the stripped name, chooses it and writes the file; cancel changes nothing |
| Presets.PresetPanel.DeletePreset | nickel_file_renamer.py:1076-1099 | no choice gives the warning; a confirmed existing preset is removed, the first remaining one chosen, and the file written |
| Presets.PresetPanel.Close | nickel_file_renamer.py:128-131 | closing writes the presets with the chosen preset and model |
| Presets.PresetPanel.ChoosePreset | nickel_file_renamer.py:252-254 | the combobox takes the chosen name |
| Presets.PresetPanel.ChooseModel | nickel_file_renamer.py:201-203 | the combobox takes the chosen model |
| Presets.PresetPanel.EditInstructions | nickel_file_renamer.py:222-225 | the text box takes the typed text |
| Session.RowIdsHasId | nickel_file_renamer.py:773-775 | the ids picked by "Select All" are exactly the ids of the shown rows |
| Session.MergeResults | nickel_file_renamer.py:916-932 | the merge loop computes exactly Table.Merge over the selection |
| Session.RunRenames | nickel_file_renamer.py:960-986 | the rename loop computes exactly Applier.ApplyRows over the picked rows |
| Session.SelectListed | nickel_file_renamer.py:495-508 | the contents loop computes exactly SelectionView.Contents over the listing |
| Session.DeselectNamed | nickel_file_renamer.py:689-698 | the remove loop computes exactly SelectionView.RemoveAllNamed over the chosen names |
| Session.RejectRows | nickel_file_renamer.py:785-809 | the reject loop computes exactly Table.RejectAll over the picked ids |
| Session.BuildView | nickel_file_renamer.py:999-1003 | the refill loop gives one row per entry, its basename and type |
| Session.Renamer.constructor | nickel_file_renamer.py:544-589 | the window starts with a populated tree and the access warning when the root cannot be listed, nothing selected, an empty table and no pending request |
| Session.Renamer.PopulateTree | nickel_file_renamer.py:544-556 | the tree is rebuilt from the root listing, the root open and unchecked |
| Session.Renamer.SelectItem | nickel_file_renamer.py:454-463 | the row is ticked and added to the selection and the pane |
| Session.Renamer.DeselectItem | nickel_file_renamer.py:465-474 | the row is unticked and removed from the selection and the pane |
| Session.Renamer.CheckboxClick | nickel_file_renamer.py:364-379 | a ticked row is unticked and removed; any other row is ticked and added |
| Session.Renamer.SelectContents | nickel_file_renamer.py:476-514 | a folder is opened and its listed children added in listing order; a refused listing gives the warning |
| Session.Renamer.ExpandItem | nickel_file_renamer.py:516-521 | the row is marked open |
| Session.Renamer.CollapseItem | nickel_file_renamer.py:523-526 | the row is marked closed |
| Session.Renamer.DoubleClick | nickel_file_renamer.py:591-613 | a folder row outside the checkbox column is toggled; anything else is ignored |
| Session.Renamer.FolderExpanded | nickel_file_renamer.py:619-637 | a row whose only child is the placeholder gets its children loaded with marks from the selection |
| Session.Renamer.RemoveSelectedItems | nickel_file_renamer.py:683-703 | each chosen row's first basename match leaves the selection with its visible checkbox cleared, and the chosen rows leave the pane |
| Session.Renamer.ClearSelection | nickel_file_renamer.py:749-771 | selection and pane are empty and every tree node is unticked |
| Session.Renamer.PickAll | nickel_file_renamer.py:773-775 | all rows are picked |
| Session.Renamer.PickNone | nickel_file_renamer.py:777-779 | no row is picked |
| Session.Renamer.SetPicked | nickel_file_renamer.py:291-292 | the picked rows are the ones the user chose |
| Session.Renamer.RequestSuggestions | nickel_file_renamer.py:813-868 | a disabled button does nothing; an empty selection gives the warning; otherwise the request carries the prompt and model and the window is busy |
| Session.Renamer.Poll | nickel_file_renamer.py:908-945 | an empty queue changes nothing; a failure reports the message; a dict is merged, all rows picked and the selection cleared; the busy flag is dropped |
| Session.Renamer.Reject | nickel_file_renamer.py:781-811 | no picked row gives the warning and changes neither the table nor the picked rows; otherwise exactly the picked rows and their keys are deleted and the selection is untouched |
| Session.Renamer.EditCell | nickel_file_renamer.py:1038-1043 | the Suggested cell changes; rename_suggestions does not |
| Session.Renamer.Apply | nickel_file_renamer.py:947-1003 | disabled while busy; when no shown row is picked the warning is given; otherwise the selection is re-keyed by the rename loop, the summary shown, and tree and pane rebuilt |

## Left out

- Widgets, layout, styles and focus handling are left out. So is event geometry (`identify_region`, `identify_column`, `bbox`): a click is given as the address of its row, plus, for a double click, whether it hit the checkbox column.
- `show_tree_context_menu` and `show_selected_item_menu` are left out. Enabling and disabling menu entries is display state only; the row they select is the argument of the menu commands.
- Whether Tk's own Treeview bindings fire `<<TreeviewOpen>>` on a double click is not modelled. `Session.Renamer.FolderExpanded` is the event, given the row that was opened. The source reads that row from the Treeview focus instead. Tk's own class binding for a double click on a Treeview, which runs after the handler bound at nickel_file_renamer.py:357, can toggle the row once more; `Session.Renamer.DoubleClick` models that handler alone, not the class binding.
- The background thread, the queue and the 100 ms reschedule are not modelled. A poll is one step given what the queue holds.
- `requests.post` is replaced by a `Reply` value. `json.loads` is a function parameter of the worker. Navigation of the response JSON beyond `choices[0].message.content` and `error.message` is not modelled.
- `os.listdir` and `os.path.isdir` are replaced by given listings, with `None` for a `PermissionError`. `os.rename` is one success flag per picked row. The per-entry `PermissionError` skip at nickel_file_renamer.py:586-587 cannot occur with given listings.
- Error boxes whose text includes an exception's `str` are not modelled: the per-row rename failure and the worker's exception texts other than the message it builds itself.
- Tk converts Treeview values that look like numbers to `int`. Names are kept as strings throughout, so the model does not capture what follows from it in the source:
  - an original name such as "2024" fails the `in` test in reject and the basename test in apply;
  - in the merge at nickel_file_renamer.py:926 such a row's first value never equals the basename, so the old row is not deleted and a second merge of "2024" leaves two rows with the same original;
  - in apply, a numeric-looking suggested name makes `os.path.join` raise `TypeError` at nickel_file_renamer.py:976, which is counted as a failure, while the model lets that rename succeed.
- The values `json.loads` gives at nickel_file_renamer.py:902 may be numbers, lists or objects; the model takes the worker's result as a dict from strings to strings.
- `str.lower` is modelled on ASCII letters only.
- Listing.SortListingProperties: does not prove the sort stable. Python's sort keeps listing order between entries whose lower-cased names agree; the model proves only the order and the permutation.
- Presets.LoadEncode: states the round trip only for presets whose names are not "_last_selected" or "_last_selected_model". The source accepts such a name when saving. Its preset is kept or overwritten by the save and popped by the load, so it is lost on restart (Presets.ReservedPresetLost).
- Presets.RestartRestores: states the restart only for presets without the two reserved names, for the same reason.
- The preset file's JSON text is not modelled: reading gives `Stored` dict, `Missing` or `Unreadable`. Non-string values in the file are not modelled.
- The save path's duplicated `except` block at nickel_file_renamer.py:120-125 refers to an undefined name, so a failing write is not modelled.
- The API key and `.env` check, and cancelling the root-directory dialog, are not modelled. So are the fixed model list, `show_model_help`, `run` and the main guard.
- The text box always ends with a newline that `get` returns. `instructions` is the text without it; every use strips it.
- Session.Renamer.RemoveSelectedItems: deletes the chosen pane rows after the loop rather than one per iteration. The loop reads each chosen row's text (nickel_file_renamer.py:691) before that row is deleted, and deleting a row leaves the other rows' texts alone, so the names read and the rows left are the same.
- The pane and presets live in two classes, `Session.Renamer` and `Presets.PresetPanel`. The instruction text and model reach `RequestSuggestions` as arguments.
