/** The results table: `rename_suggestions` together with the rows of `results_tree`, and the three
    ways they change — a successful poll merges a suggestion mapping in, rejecting deletes rows,
    and editing changes a row's Suggested cell. */
module Table {
  import opened Wrappers
  import opened Search
  import opened Paths
  import opened Selection

  /** One row of results_tree: its item id and its (Original, Suggested, Type) values. */
  datatype Row = Row(id: nat, original: string, suggested: string, isFolder: bool)

  /** rename_suggestions, the rows of results_tree in display order, and the id the next
      inserted row gets. */
  datatype Results = Results(sugg: map<string, string>, rows: seq<Row>, nextId: nat)

  const NoResults: Results := Results(map[], [], 0)

  predicate HasOriginal(rows: seq<Row>, name: string) {
    exists i :: 0 <= i < |rows| && rows[i].original == name
  }

  predicate HasId(rows: seq<Row>, id: nat) {
    exists i :: 0 <= i < |rows| && rows[i].id == id
  }

  predicate UniqueIds(rows: seq<Row>) {
    forall i, j :: 0 <= i < j < |rows| ==> rows[i].id != rows[j].id
  }

  predicate UniqueOriginals(rows: seq<Row>) {
    forall i, j :: 0 <= i < j < |rows| ==> rows[i].original != rows[j].original
  }

  /** What every operation keeps: row ids and original names are unique, ids are below the next id,
      and the originals shown are exactly the keys of rename_suggestions. */
  predicate Valid(r: Results) {
    && UniqueIds(r.rows)
    && UniqueOriginals(r.rows)
    && (forall i :: 0 <= i < |r.rows| ==> r.rows[i].id < r.nextId)
    && (forall k :: k in r.sugg ==> HasOriginal(r.rows, k))
    && (forall i :: 0 <= i < |r.rows| ==> r.rows[i].original in r.sugg)
  }

  lemma NoResultsValid()
    ensures Valid(NoResults)
  {
  }

  function RemoveRowAt(rows: seq<Row>, i: nat): seq<Row>
    requires i < |rows|
  {
    rows[..i] + rows[i + 1..]
  }

  /** The first row whose Original is name (the inner loop of _check_ai_thread). */
  function IndexOfOriginal(rows: seq<Row>, name: string): (r: Option<nat>)
    ensures r.Some? ==> r.value < |rows| && rows[r.value].original == name
    ensures r.Some? ==> forall j :: 0 <= j < r.value ==> rows[j].original != name
    ensures r.None? <==> !HasOriginal(rows, name)
  {
    FirstIndex(rows, (row: Row) => row.original == name)
  }

  /** The row with the given item id. */
  function IndexOfId(rows: seq<Row>, id: nat): (r: Option<nat>)
    ensures r.Some? ==> r.value < |rows| && rows[r.value].id == id
    ensures r.Some? ==> forall j :: 0 <= j < r.value ==> rows[j].id != id
    ensures r.None? <==> !HasId(rows, id)
  {
    FirstIndex(rows, (row: Row) => row.id == id)
  }

  /** Deletes the first row whose Original is name, if there is one. */
  function DeleteOriginal(rows: seq<Row>, name: string): seq<Row> {
    match IndexOfOriginal(rows, name)
    case None => rows
    case Some(i) => RemoveRowAt(rows, i)
  }

  /** The rows whose originals are outside names, in order. */
  function KeepOthers(rows: seq<Row>, names: set<string>): seq<Row> {
    if rows == [] then []
    else (if rows[0].original in names then [] else [rows[0]]) + KeepOthers(rows[1..], names)
  }

  lemma {:induction false} KeepOthersAppend(rows: seq<Row>, x: Row, names: set<string>)
    ensures KeepOthers(rows + [x], names) == KeepOthers(rows, names) + (if x.original in names then [] else [x])
  {
    if rows == [] {
      assert [x][1..] == [];
    } else {
      assert (rows + [x])[1..] == rows[1..] + [x];
      KeepOthersAppend(rows[1..], x, names);
    }
  }

  lemma {:induction false} KeepOthersRemove(rows: seq<Row>, i: nat, names: set<string>)
    requires i < |rows| && rows[i].original in names
    ensures KeepOthers(RemoveRowAt(rows, i), names) == KeepOthers(rows, names)
  {
    if i > 0 {
      KeepOthersRemove(rows[1..], i - 1, names);
      assert RemoveRowAt(rows, i) == [rows[0]] + RemoveRowAt(rows[1..], i - 1);
    } else {
      assert RemoveRowAt(rows, 0) == rows[1..];
    }
  }

  /** Some row shows original k with suggestion v. */
  predicate HasRow(rows: seq<Row>, k: string, v: string) {
    exists i :: 0 <= i < |rows| && rows[i].original == k && rows[i].suggested == v
  }

  /** What deleting a row at i leaves: the rows before, then the rows after, shifted by one. */
  lemma RemoveRowAtIndex(rows: seq<Row>, i: nat)
    requires i < |rows|
    ensures |RemoveRowAt(rows, i)| == |rows| - 1
    ensures forall k :: 0 <= k < i ==> RemoveRowAt(rows, i)[k] == rows[k]
    ensures forall k :: i <= k < |rows| - 1 ==> RemoveRowAt(rows, i)[k] == rows[k + 1]
  {
  }

  /** One step of the loop in _check_ai_thread: when the entry's basename is a key of the result, the
      suggestion is recorded, the first row with that original is deleted and a new row is appended. */
  function MergeEntry(r: Results, it: Item, result: map<string, string>): Results {
    var name := Basename(it.path);
    if name in result then
      Results(r.sugg[name := result[name]],
              DeleteOriginal(r.rows, name) + [Row(r.nextId, name, result[name], it.isFolder)],
              r.nextId + 1)
    else r
  }

  /** The whole loop of _check_ai_thread over the selection, in order. */
  function Merge(r: Results, sel: seq<Item>, result: map<string, string>): Results {
    if sel == [] then r else MergeEntry(Merge(r, sel[..|sel| - 1], result), sel[|sel| - 1], result)
  }

  /** The basenames of the selected entries that are keys of the result. */
  function Resolved(sel: seq<Item>, result: map<string, string>): set<string> {
    set i | 0 <= i < |sel| && Basename(sel[i].path) in result :: Basename(sel[i].path)
  }

  /** What deleting the row at i keeps: the other rows in order, and uniqueness. */
  lemma RemoveRowAtFacts(rows: seq<Row>, i: nat)
    requires i < |rows|
    ensures var d := RemoveRowAt(rows, i);
            && |d| == |rows| - 1
            && (forall k :: 0 <= k < i ==> d[k] == rows[k])
            && (forall k :: i <= k < |d| ==> d[k] == rows[k + 1])
            && (forall x :: x in d ==> x in rows)
            && (UniqueIds(rows) ==> UniqueIds(d))
            && (UniqueOriginals(rows) ==> UniqueOriginals(d))
  {
    var d := RemoveRowAt(rows, i);
    forall x | x in d ensures x in rows {
      var k :| 0 <= k < |d| && d[k] == x;
      if k < i { assert rows[k] == x; } else { assert rows[k + 1] == x; }
    }
    if UniqueIds(rows) {
      forall a, b | 0 <= a < b < |d| ensures d[a].id != d[b].id {
        var a' := if a < i then a else a + 1;
        var b' := if b < i then b else b + 1;
        assert d[a] == rows[a'] && d[b] == rows[b'];
      }
    }
    if UniqueOriginals(rows) {
      forall a, b | 0 <= a < b < |d| ensures d[a].original != d[b].original {
        var a' := if a < i then a else a + 1;
        var b' := if b < i then b else b + 1;
        assert d[a] == rows[a'] && d[b] == rows[b'];
      }
    }
  }

  /** A row other than the deleted one survives the deletion. */
  lemma RemoveRowAtKeeps(rows: seq<Row>, i: nat, j: nat)
    requires i < |rows| && j < |rows| && j != i
    ensures rows[j] in RemoveRowAt(rows, i)
  {
    RemoveRowAtFacts(rows, i);
    if j < i { assert RemoveRowAt(rows, i)[j] == rows[j]; } else { assert RemoveRowAt(rows, i)[j - 1] == rows[j]; }
  }

  /** Deleting the first row of an original removes that original when originals are unique, and
      keeps every row of every other original. */
  lemma DeleteOriginalFacts(rows: seq<Row>, name: string)
    ensures forall x :: x in DeleteOriginal(rows, name) ==> x in rows
    ensures forall x :: x in rows && x.original != name ==> x in DeleteOriginal(rows, name)
    ensures UniqueIds(rows) ==> UniqueIds(DeleteOriginal(rows, name))
    ensures UniqueOriginals(rows) ==> UniqueOriginals(DeleteOriginal(rows, name))
    ensures UniqueOriginals(rows) ==> !HasOriginal(DeleteOriginal(rows, name), name)
  {
    match IndexOfOriginal(rows, name)
    case None =>
    case Some(i) =>
      var d := RemoveRowAt(rows, i);
      RemoveRowAtFacts(rows, i);
      forall x | x in rows && x.original != name ensures x in d {
        var j :| 0 <= j < |rows| && rows[j] == x;
        RemoveRowAtKeeps(rows, i, j);
      }
      if UniqueOriginals(rows) {
        forall k | 0 <= k < |d| ensures d[k].original != name {
          if k < i { assert d[k] == rows[k]; } else { assert d[k] == rows[k + 1]; }
        }
      }
  }

  /** What appending a row gives. */
  lemma AppendRowFacts(rows: seq<Row>, x: Row)
    ensures forall y :: y in rows + [x] <==> y in rows || y == x
    ensures UniqueIds(rows) && !HasId(rows, x.id) ==> UniqueIds(rows + [x])
    ensures UniqueOriginals(rows) && !HasOriginal(rows, x.original) ==> UniqueOriginals(rows + [x])
  {
    var r := rows + [x];
    if UniqueIds(rows) && !HasId(rows, x.id) {
      forall a, b | 0 <= a < b < |r| ensures r[a].id != r[b].id {
        assert r[a] == rows[a];
      }
    }
    if UniqueOriginals(rows) && !HasOriginal(rows, x.original) {
      forall a, b | 0 <= a < b < |r| ensures r[a].original != r[b].original {
        assert r[a] == rows[a];
      }
    }
  }

  /** Replacing the row of an original by a row with a fresh id keeps ids and originals unique. */
  lemma ReplaceRowUnique(rows: seq<Row>, row: Row)
    requires UniqueIds(rows) && UniqueOriginals(rows)
    requires forall k :: 0 <= k < |rows| ==> rows[k].id < row.id
    ensures UniqueIds(DeleteOriginal(rows, row.original) + [row])
    ensures UniqueOriginals(DeleteOriginal(rows, row.original) + [row])
  {
    var d := DeleteOriginal(rows, row.original);
    DeleteOriginalFacts(rows, row.original);
    assert !HasId(d, row.id) by {
      forall k | 0 <= k < |d| ensures d[k].id != row.id {
        assert d[k] in rows;
      }
    }
    AppendRowFacts(d, row);
  }

  /** Replacing the row of an original by a row of the next id keeps ids below the id after it. */
  lemma ReplaceRowBound(rows: seq<Row>, row: Row)
    requires forall k :: 0 <= k < |rows| ==> rows[k].id < row.id
    ensures forall k :: 0 <= k < |DeleteOriginal(rows, row.original) + [row]| ==>
              (DeleteOriginal(rows, row.original) + [row])[k].id < row.id + 1
  {
    var d := DeleteOriginal(rows, row.original);
    DeleteOriginalFacts(rows, row.original);
    forall k | 0 <= k < |d + [row]| ensures (d + [row])[k].id < row.id + 1 {
      if k < |d| { assert d[k] in rows; }
    }
  }

  /** Deleting the first row of an original keeps only rows that were there. */
  lemma DeleteOriginalSubset(rows: seq<Row>, name: string, x: Row)
    requires x in DeleteOriginal(rows, name)
    ensures x in rows
  {
    DeleteOriginalFacts(rows, name);
  }

  /** Deleting the first row of an original keeps the rows of every other original. */
  lemma DeleteOriginalKeeps(rows: seq<Row>, name: string, x: Row)
    requires x in rows && x.original != name
    ensures x in DeleteOriginal(rows, name)
  {
    DeleteOriginalFacts(rows, name);
  }

  /** Every original shown after the replacement is a key once its suggestion is recorded. */
  lemma ReplaceRowShown(sugg: map<string, string>, rows: seq<Row>, row: Row)
    requires forall i :: 0 <= i < |rows| ==> rows[i].original in sugg
    ensures var m := DeleteOriginal(rows, row.original) + [row];
            forall i :: 0 <= i < |m| ==> m[i].original in sugg[row.original := row.suggested]
  {
    var d := DeleteOriginal(rows, row.original);
    forall i | 0 <= i < |d| ensures d[i].original in sugg {
      DeleteOriginalSubset(rows, row.original, d[i]);
    }
  }

  /** Every key is still shown after the replacement, the recorded one by the new row. */
  lemma ReplaceRowHasKeys(sugg: map<string, string>, rows: seq<Row>, row: Row)
    requires forall k :: k in sugg ==> HasOriginal(rows, k)
    ensures var m := DeleteOriginal(rows, row.original) + [row];
            forall k :: k in sugg[row.original := row.suggested] ==> HasOriginal(m, k)
  {
    var d := DeleteOriginal(rows, row.original);
    var m := d + [row];
    forall k | k in sugg[row.original := row.suggested] ensures HasOriginal(m, k) {
      if k == row.original {
        assert m[|d|] == row;
      } else {
        var j :| 0 <= j < |rows| && rows[j].original == k;
        DeleteOriginalKeeps(rows, row.original, rows[j]);
        var i :| 0 <= i < |d| && d[i] == rows[j];
        assert m[i] == d[i];
      }
    }
  }

  lemma MergeEntryValid(r: Results, it: Item, result: map<string, string>)
    requires Valid(r)
    ensures Valid(MergeEntry(r, it, result))
    ensures MergeEntry(r, it, result).nextId >= r.nextId
  {
    var name := Basename(it.path);
    if name in result {
      var row := Row(r.nextId, name, result[name], it.isFolder);
      ReplaceRowUnique(r.rows, row);
      ReplaceRowBound(r.rows, row);
      ReplaceRowShown(r.sugg, r.rows, row);
      ReplaceRowHasKeys(r.sugg, r.rows, row);
    }
  }

  /** The resolved basenames grow by the last entry's basename when it is a key of the result. */
  lemma ResolvedSnoc(sel: seq<Item>, result: map<string, string>)
    requires sel != []
    ensures var name := Basename(sel[|sel| - 1].path);
            Resolved(sel, result) == Resolved(sel[..|sel| - 1], result) + (if name in result then {name} else {})
  {
    var init := sel[..|sel| - 1];
    forall k | k in Resolved(init, result) ensures k in Resolved(sel, result) {
      var i :| 0 <= i < |init| && Basename(init[i].path) in result && Basename(init[i].path) == k;
      assert sel[i] == init[i];
    }
    forall k | k in Resolved(sel, result) ensures k in Resolved(init, result) || k == Basename(sel[|sel| - 1].path) {
      var i :| 0 <= i < |sel| && Basename(sel[i].path) in result && Basename(sel[i].path) == k;
      if i < |init| { assert init[i] == sel[i]; }
    }
  }

  /** A successful poll keeps the table valid and never reuses an item id. */
  lemma {:induction false} MergeValid(r: Results, sel: seq<Item>, result: map<string, string>)
    requires Valid(r)
    ensures Valid(Merge(r, sel, result)) && Merge(r, sel, result).nextId >= r.nextId
  {
    if sel != [] {
      MergeValid(r, sel[..|sel| - 1], result);
      MergeEntryValid(Merge(r, sel[..|sel| - 1], result), sel[|sel| - 1], result);
    }
  }

  /** After a successful poll rename_suggestions maps every resolved basename to the result's
      suggestion and keeps every other key with its value. */
  lemma {:induction false} MergeSuggestions(r: Results, sel: seq<Item>, result: map<string, string>)
    ensures var m := Merge(r, sel, result);
            && (forall k :: k in m.sugg <==> k in r.sugg || k in Resolved(sel, result))
            && (forall k :: k in Resolved(sel, result) ==> m.sugg[k] == result[k])
            && (forall k :: k in r.sugg && k !in Resolved(sel, result) ==> m.sugg[k] == r.sugg[k])
  {
    if sel != [] {
      MergeSuggestions(r, sel[..|sel| - 1], result);
      ResolvedSnoc(sel, result);
    }
  }

  /** One merge step shows the entry's suggestion when its basename is a key of the result, and
      keeps every row of another original. */
  lemma MergeEntryRows(r: Results, it: Item, result: map<string, string>, k: string, v: string)
    requires if Basename(it.path) in result && k == Basename(it.path) then v == result[k] else HasRow(r.rows, k, v)
    ensures HasRow(MergeEntry(r, it, result).rows, k, v)
  {
    var name := Basename(it.path);
    if name in result {
      var d := DeleteOriginal(r.rows, name);
      var m := d + [Row(r.nextId, name, result[name], it.isFolder)];
      if k == name {
        assert m[|d|].original == k && m[|d|].suggested == v;
      } else {
        var j :| 0 <= j < |r.rows| && r.rows[j].original == k && r.rows[j].suggested == v;
        DeleteOriginalKeeps(r.rows, name, r.rows[j]);
        var i :| 0 <= i < |d| && d[i] == r.rows[j];
        assert m[i] == d[i];
      }
    }
  }

  /** After a successful poll every resolved basename has a row showing the result's suggestion. */
  lemma {:induction false} MergeRows(r: Results, sel: seq<Item>, result: map<string, string>)
    ensures forall k :: k in Resolved(sel, result) ==> HasRow(Merge(r, sel, result).rows, k, result[k])
  {
    if sel != [] {
      var init := sel[..|sel| - 1];
      var it := sel[|sel| - 1];
      var prev := Merge(r, init, result);
      MergeRows(r, init, result);
      ResolvedSnoc(sel, result);
      forall k | k in Resolved(sel, result) ensures HasRow(MergeEntry(prev, it, result).rows, k, result[k]) {
        if !(Basename(it.path) in result && k == Basename(it.path)) {
          assert k in Resolved(init, result);
        }
        MergeEntryRows(prev, it, result, k, result[k]);
      }
    }
  }

  /** A successful poll keeps the rows of every original it does not resolve, in order. */
  lemma {:induction false} MergeKeepsOthers(r: Results, sel: seq<Item>, result: map<string, string>, names: set<string>)
    requires Resolved(sel, result) <= names
    ensures KeepOthers(Merge(r, sel, result).rows, names) == KeepOthers(r.rows, names)
  {
    if sel != [] {
      var it := sel[|sel| - 1];
      ResolvedSnoc(sel, result);
      MergeKeepsOthers(r, sel[..|sel| - 1], result, names);
      var prev := Merge(r, sel[..|sel| - 1], result);
      var name := Basename(it.path);
      if name in result {
        KeepOthersAppend(DeleteOriginal(prev.rows, name), Row(prev.nextId, name, result[name], it.isFolder), names);
        match IndexOfOriginal(prev.rows, name)
        case None =>
        case Some(i) => KeepOthersRemove(prev.rows, i, names);
      }
    }
  }

  /** The ids of the rows in picked, in table order (results_tree.selection()). */
  function PickedIds(rows: seq<Row>, picked: set<nat>): seq<nat> {
    if rows == [] then []
    else (if rows[0].id in picked then [rows[0].id] else []) + PickedIds(rows[1..], picked)
  }

  /** The rows whose ids are outside ids, in order. */
  function Unpicked(rows: seq<Row>, ids: set<nat>): seq<Row> {
    if rows == [] then []
    else (if rows[0].id in ids then [] else [rows[0]]) + Unpicked(rows[1..], ids)
  }

  /** The originals of the picked rows. */
  function PickedOriginals(rows: seq<Row>, picked: set<nat>): set<string> {
    set i | 0 <= i < |rows| && rows[i].id in picked :: rows[i].original
  }

  /** One step of reject_selected_suggestions for row id: if the row's original is a key of
      rename_suggestions, the row is deleted and so is the key. The search of the selection
      finds the very entry it iterates over and never re-adds it, so the selection is untouched. */
  function RejectOne(r: Results, id: nat): Results {
    match IndexOfId(r.rows, id)
    case None => r
    case Some(i) =>
      var o := r.rows[i].original;
      if o in r.sugg then Results(r.sugg - {o}, Unpicked(r.rows, {id}), r.nextId) else r
  }

  function RejectAll(r: Results, ids: seq<nat>): Results {
    if ids == [] then r else RejectOne(RejectAll(r, ids[..|ids| - 1]), ids[|ids| - 1])
  }

  lemma {:induction false} UnpickedElements(rows: seq<Row>, ids: set<nat>)
    ensures forall x :: x in Unpicked(rows, ids) <==> x in rows && x.id !in ids
  {
    if rows != [] {
      UnpickedElements(rows[1..], ids);
      assert rows == [rows[0]] + rows[1..];
    }
  }

  lemma {:induction false} UnpickedTwice(rows: seq<Row>, p: set<nat>, q: set<nat>)
    ensures Unpicked(Unpicked(rows, p), q) == Unpicked(rows, p + q)
  {
    if rows != [] {
      var x := rows[0];
      var ut := Unpicked(rows[1..], p);
      UnpickedTwice(rows[1..], p, q);
      if x.id !in p {
        var u := [x] + ut;
        assert Unpicked(rows, p) == u;
        assert u[0] == x && u[1..] == ut;
      } else {
        assert Unpicked(rows, p) == ut;
      }
    }
  }

  lemma {:induction false} UnpickedNone(rows: seq<Row>)
    ensures Unpicked(rows, {}) == rows
  {
    if rows != [] {
      UnpickedNone(rows[1..]);
      assert rows == [rows[0]] + rows[1..];
    }
  }

  lemma UniqueTail(rows: seq<Row>)
    requires rows != []
    ensures UniqueIds(rows) ==> UniqueIds(rows[1..]) && forall x :: x in rows[1..] ==> x.id != rows[0].id
    ensures UniqueOriginals(rows) ==> UniqueOriginals(rows[1..]) && forall x :: x in rows[1..] ==> x.original != rows[0].original
  {
    var tail := rows[1..];
    if UniqueIds(rows) {
      forall i, j | 0 <= i < j < |tail| ensures tail[i].id != tail[j].id {
        assert tail[i] == rows[i + 1] && tail[j] == rows[j + 1];
      }
      forall x | x in tail ensures x.id != rows[0].id {
        var m :| 0 <= m < |tail| && tail[m] == x;
        assert rows[m + 1] == x;
      }
    }
    if UniqueOriginals(rows) {
      forall i, j | 0 <= i < j < |tail| ensures tail[i].original != tail[j].original {
        assert tail[i] == rows[i + 1] && tail[j] == rows[j + 1];
      }
      forall x | x in tail ensures x.original != rows[0].original {
        var m :| 0 <= m < |tail| && tail[m] == x;
        assert rows[m + 1] == x;
      }
    }
  }

  /** Prepending a row that differs from all others keeps ids or originals unique. */
  lemma UniqueCons(x: Row, s: seq<Row>)
    ensures UniqueIds(s) && (forall y :: y in s ==> y.id != x.id) ==> UniqueIds([x] + s)
    ensures UniqueOriginals(s) && (forall y :: y in s ==> y.original != x.original) ==> UniqueOriginals([x] + s)
  {
    var r := [x] + s;
    if UniqueIds(s) && (forall y :: y in s ==> y.id != x.id) {
      forall a, b | 0 <= a < b < |r| ensures r[a].id != r[b].id {
        assert r[b] == s[b - 1];
        if a > 0 { assert r[a] == s[a - 1]; } else { assert s[b - 1] in s; }
      }
    }
    if UniqueOriginals(s) && (forall y :: y in s ==> y.original != x.original) {
      forall a, b | 0 <= a < b < |r| ensures r[a].original != r[b].original {
        assert r[b] == s[b - 1];
        if a > 0 { assert r[a] == s[a - 1]; } else { assert s[b - 1] in s; }
      }
    }
  }

  lemma {:induction false} UnpickedUnique(rows: seq<Row>, ids: set<nat>)
    ensures UniqueIds(rows) ==> UniqueIds(Unpicked(rows, ids))
    ensures UniqueOriginals(rows) ==> UniqueOriginals(Unpicked(rows, ids))
  {
    if rows != [] {
      var tail := rows[1..];
      UniqueTail(rows);
      UnpickedUnique(tail, ids);
      UnpickedElements(tail, ids);
      var ut := Unpicked(tail, ids);
      if rows[0].id !in ids {
        assert Unpicked(rows, ids) == [rows[0]] + ut;
        UniqueCons(rows[0], ut);
      } else {
        assert Unpicked(rows, ids) == ut;
      }
    }
  }

  /** In a table with unique ids and originals, deleting the row at i by its id removes exactly its
      original. */
  lemma DropIdOriginals(rows: seq<Row>, i: nat)
    requires UniqueIds(rows) && UniqueOriginals(rows) && i < |rows|
    ensures forall k :: HasOriginal(Unpicked(rows, {rows[i].id}), k) <==> HasOriginal(rows, k) && k != rows[i].original
  {
    forall k ensures HasOriginal(Unpicked(rows, {rows[i].id}), k) <==> HasOriginal(rows, k) && k != rows[i].original {
      DropIdOriginal(rows, i, k);
    }
  }

  lemma DropIdOriginal(rows: seq<Row>, i: nat, k: string)
    requires UniqueIds(rows) && UniqueOriginals(rows) && i < |rows|
    ensures HasOriginal(Unpicked(rows, {rows[i].id}), k) <==> HasOriginal(rows, k) && k != rows[i].original
  {
    var u := Unpicked(rows, {rows[i].id});
    UnpickedElements(rows, {rows[i].id});
    if HasOriginal(u, k) {
      var j :| 0 <= j < |u| && u[j].original == k;
      assert u[j] in rows;
      var m :| 0 <= m < |rows| && rows[m] == u[j];
      assert m != i;
    }
    if HasOriginal(rows, k) && k != rows[i].original {
      var m :| 0 <= m < |rows| && rows[m].original == k;
      assert m != i;
      assert rows[m] in u;
      var j :| 0 <= j < |u| && u[j] == rows[m];
    }
  }

  /** One reject step on a valid table keeps it valid and only drops keys. */
  lemma RejectOneValid(r: Results, id: nat)
    requires Valid(r)
    ensures var r' := RejectOne(r, id);
            && Valid(r')
            && r'.rows == Unpicked(r.rows, {id})
            && r'.nextId == r.nextId
            && (forall k :: k in r'.sugg ==> k in r.sugg && r'.sugg[k] == r.sugg[k])
  {
    match IndexOfId(r.rows, id)
    case None =>
      UnpickedElements(r.rows, {id});
      UnpickedSameOn(r.rows, {id}, {});
      UnpickedNone(r.rows);
    case Some(i) =>
      var o := r.rows[i].original;
      var u := Unpicked(r.rows, {id});
      UnpickedElements(r.rows, {id});
      UnpickedUnique(r.rows, {id});
      DropIdOriginals(r.rows, i);
      forall k | 0 <= k < |u| ensures u[k].id < r.nextId && u[k].original in r.sugg - {o} {
        assert u[k] in r.rows;
        assert HasOriginal(u, u[k].original);
      }
  }

  /** The ids in a run, as a set. */
  function IdSet(ids: seq<nat>): set<nat> {
    if ids == [] then {} else IdSet(ids[..|ids| - 1]) + {ids[|ids| - 1]}
  }

  lemma {:induction false} IdSetElements(ids: seq<nat>)
    ensures forall x :: x in IdSet(ids) <==> x in ids
  {
    if ids != [] {
      IdSetElements(ids[..|ids| - 1]);
      assert ids == ids[..|ids| - 1] + [ids[|ids| - 1]];
    }
  }

  /** Rejecting a run of ids one by one leaves exactly the rows with other ids, in order. */
  lemma {:induction false} RejectPrefix(r: Results, ids: seq<nat>)
    requires Valid(r)
    ensures RejectAll(r, ids).rows == Unpicked(r.rows, IdSet(ids))
    ensures RejectAll(r, ids).nextId == r.nextId
    ensures Valid(RejectAll(r, ids))
    ensures forall k :: k in RejectAll(r, ids).sugg ==> k in r.sugg && RejectAll(r, ids).sugg[k] == r.sugg[k]
  {
    if ids == [] {
      UnpickedNone(r.rows);
    } else {
      var init := ids[..|ids| - 1];
      var id := ids[|ids| - 1];
      var p := IdSet(init);
      RejectPrefix(r, init);
      var prev := RejectAll(r, init);
      assert RejectAll(r, ids) == RejectOne(prev, id);
      RejectOneValid(prev, id);
      UnpickedTwice(r.rows, p, {id});
    }
  }

  /** Unpicked only looks at the ids the rows have. */
  lemma {:induction false} UnpickedSameOn(rows: seq<Row>, p: set<nat>, q: set<nat>)
    requires forall x :: HasId(rows, x) ==> (x in p <==> x in q)
    ensures Unpicked(rows, p) == Unpicked(rows, q)
  {
    if rows != [] {
      assert HasId(rows, rows[0].id);
      forall x | HasId(rows[1..], x) ensures x in p <==> x in q {
        var j :| 0 <= j < |rows[1..]| && rows[1..][j].id == x;
        assert rows[j + 1].id == x;
      }
      UnpickedSameOn(rows[1..], p, q);
    }
  }

  /** The picked ids are the ids of the rows that are picked. */
  lemma {:induction false} PickedIdsElements(rows: seq<Row>, picked: set<nat>)
    ensures forall x :: x in PickedIds(rows, picked) <==> x in picked && HasId(rows, x)
  {
    if rows != [] {
      var tail := rows[1..];
      PickedIdsElements(tail, picked);
      forall x ensures x in PickedIds(rows, picked) <==> x in picked && HasId(rows, x) {
        if HasId(rows, x) && x != rows[0].id {
          var j :| 0 <= j < |rows| && rows[j].id == x;
          assert tail[j - 1].id == x;
        }
        if HasId(tail, x) {
          var j :| 0 <= j < |tail| && tail[j].id == x;
          assert rows[j + 1].id == x;
        }
      }
    }
  }

  /** An original left after deleting the picked rows was an original of an unpicked row. */
  lemma UnpickedOriginalsOut(rows: seq<Row>, picked: set<nat>, k: string)
    requires UniqueOriginals(rows) && HasOriginal(Unpicked(rows, picked), k)
    ensures HasOriginal(rows, k) && k !in PickedOriginals(rows, picked)
  {
    var u := Unpicked(rows, picked);
    UnpickedElements(rows, picked);
    var j :| 0 <= j < |u| && u[j].original == k;
    assert u[j] in rows;
    var m :| 0 <= m < |rows| && rows[m] == u[j];
    forall m' | 0 <= m' < |rows| && rows[m'].id in picked ensures rows[m'].original != k {
      assert m' != m;
    }
  }

  /** An original of no picked row is still shown after deleting the picked rows. */
  lemma UnpickedOriginalsIn(rows: seq<Row>, picked: set<nat>, k: string)
    requires HasOriginal(rows, k) && k !in PickedOriginals(rows, picked)
    ensures HasOriginal(Unpicked(rows, picked), k)
  {
    var u := Unpicked(rows, picked);
    UnpickedElements(rows, picked);
    var m :| 0 <= m < |rows| && rows[m].original == k;
    assert rows[m].id !in picked;
    assert rows[m] in u;
    var j :| 0 <= j < |u| && u[j] == rows[m];
  }

  /** In a valid table, the originals left after deleting the picked rows are exactly the keys that
      are not originals of picked rows. */
  lemma UnpickedOriginals(r: Results, picked: set<nat>, k: string)
    requires Valid(r)
    ensures HasOriginal(Unpicked(r.rows, picked), k) <==> k in r.sugg && k !in PickedOriginals(r.rows, picked)
  {
    if HasOriginal(Unpicked(r.rows, picked), k) {
      UnpickedOriginalsOut(r.rows, picked, k);
      var m :| 0 <= m < |r.rows| && r.rows[m].original == k;
    }
    if k in r.sugg && k !in PickedOriginals(r.rows, picked) {
      UnpickedOriginalsIn(r.rows, picked, k);
    }
  }

  /** reject_selected_suggestions on the picked rows: exactly the unpicked rows remain, in order,
      rename_suggestions loses exactly the picked rows' originals and keeps the other values, and
      the table stays valid. */
  lemma RejectProperties(r: Results, picked: set<nat>)
    requires Valid(r)
    ensures var r' := RejectAll(r, PickedIds(r.rows, picked));
            && Valid(r')
            && r'.rows == Unpicked(r.rows, picked)
            && (forall k :: k in r'.sugg <==> k in r.sugg && k !in PickedOriginals(r.rows, picked))
            && (forall k :: k in r'.sugg ==> r'.sugg[k] == r.sugg[k])
  {
    var ids := PickedIds(r.rows, picked);
    PickedIdsElements(r.rows, picked);
    IdSetElements(ids);
    RejectPrefix(r, ids);
    var r' := RejectAll(r, ids);
    UnpickedSameOn(r.rows, IdSet(ids), picked);
    assert r'.rows == Unpicked(r.rows, picked);
    forall k ensures k in r'.sugg <==> k in r.sugg && k !in PickedOriginals(r.rows, picked) {
      UnpickedOriginals(r, picked, k);
    }
  }

  /** save_edited_cell on the Suggested column of row id. */
  function EditSuggested(rows: seq<Row>, id: nat, value: string): (r: seq<Row>)
    ensures |r| == |rows|
    ensures forall i :: 0 <= i < |rows| ==> r[i].id == rows[i].id && r[i].original == rows[i].original && r[i].isFolder == rows[i].isFolder
    ensures forall i :: 0 <= i < |rows| ==> r[i].suggested == if rows[i].id == id then value else rows[i].suggested
  {
    seq(|rows|, i requires 0 <= i < |rows| => if rows[i].id == id then rows[i].(suggested := value) else rows[i])
  }

  /** Editing a cell keeps the table valid and leaves rename_suggestions as it was. */
  lemma EditKeepsValid(r: Results, id: nat, value: string)
    requires Valid(r)
    ensures Valid(Results(r.sugg, EditSuggested(r.rows, id, value), r.nextId))
  {
    var rows' := EditSuggested(r.rows, id, value);
    forall k ensures HasOriginal(rows', k) <==> HasOriginal(r.rows, k) {
      if HasOriginal(r.rows, k) {
        var j :| 0 <= j < |r.rows| && r.rows[j].original == k;
        assert rows'[j].original == k;
      }
    }
  }

  /** The rows in picked, in table order (the rows apply_renames walks over). */
  function PickedRows(rows: seq<Row>, picked: set<nat>): (r: seq<Row>)
    ensures forall k :: 0 <= k < |r| ==> r[k] in rows && r[k].id in picked
  {
    if rows == [] then []
    else
      var rest := PickedRows(rows[1..], picked);
      assert forall k :: 0 <= k < |rest| ==> rest[k] in rows;
      (if rows[0].id in picked then [rows[0]] else []) + rest
  }

  /** Every row in picked appears among the picked rows. */
  lemma {:induction false} PickedRowsComplete(rows: seq<Row>, picked: set<nat>, i: nat)
    requires i < |rows| && rows[i].id in picked
    ensures rows[i] in PickedRows(rows, picked)
  {
    if i > 0 {
      PickedRowsComplete(rows[1..], picked, i - 1);
    }
  }

  /** When only shown rows are picked, some row is walked exactly when something is picked. */
  lemma PickedRowsEmpty(rows: seq<Row>, picked: set<nat>)
    requires forall id :: id in picked ==> HasId(rows, id)
    ensures PickedRows(rows, picked) == [] <==> picked == {}
  {
    if picked != {} {
      var id :| id in picked;
      var i :| 0 <= i < |rows| && rows[i].id == id;
      PickedRowsComplete(rows, picked, i);
    }
  }
}
