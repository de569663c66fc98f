/** The loop of apply_renames over the picked result rows, and the summary it shows afterwards. */
module Applier {
  import opened Wrappers
  import opened Search
  import opened Text
  import opened Paths
  import opened Selection
  import opened Table

  /** What apply_renames carries through its loop: the selection and the two counters. */
  datatype Tally = Tally(sel: seq<Item>, renamed: nat, errors: nat)

  /** The first index holding exactly this entry (selected_items.index((path, is_folder))). */
  function IndexOfEntry(s: seq<Item>, it: Item): (r: Option<nat>)
    ensures r.Some? ==> r.value < |s| && s[r.value] == it && forall k :: 0 <= k < r.value ==> s[k] != it
    ensures r.None? ==> forall k :: 0 <= k < |s| ==> s[k] != it
  {
    FirstIndex(s, (e: Item) => e == it)
  }

  /** The entry apply_renames re-keys is the one its basename search found: looking the same
      (path, is_folder) pair up again by value gives back the same index. */
  lemma ReKeyedIndex(s: seq<Item>, name: string)
    requires IndexOfBasename(s, name).Some?
    ensures IndexOfEntry(s, s[IndexOfBasename(s, name).value]) == IndexOfBasename(s, name)
  {
    var j := IndexOfBasename(s, name).value;
    assert forall k :: 0 <= k < j ==> s[k] != s[j];
  }

  /** One row of apply_renames. ok says whether os.rename succeeds for it. A row whose names agree,
      or whose original matches no selected basename, or whose matched path is empty (falsy), is
      skipped; otherwise the first matching entry is re-keyed in place on success, or the failure
      is counted. */
  function ApplyRow(t: Tally, row: Row, ok: bool): Tally {
    if row.original == row.suggested then t
    else match IndexOfBasename(t.sel, row.original)
      case None => t
      case Some(j) =>
        var p := t.sel[j].path;
        if p == "" then t
        else if ok then Tally(t.sel[j := Item(Join(Dirname(p), row.suggested), t.sel[j].isFolder)], t.renamed + 1, t.errors)
        else Tally(t.sel, t.renamed, t.errors + 1)
  }

  /** The loop over the picked rows, in order, with one rename outcome per row. */
  function ApplyRows(t: Tally, rows: seq<Row>, oks: seq<bool>): Tally
    requires |oks| == |rows|
  {
    if rows == [] then t
    else ApplyRow(ApplyRows(t, rows[..|rows| - 1], oks[..|oks| - 1]), rows[|rows| - 1], oks[|oks| - 1])
  }

  /** The three outcomes of one row: skipped without touching a counter, renamed in place (the entry
      keeps its position and kind, takes the new name and stays in its directory), or counted as a
      failure with the selection unchanged. */
  lemma ApplyRowCases(t: Tally, row: Row, ok: bool)
    ensures var t' := ApplyRow(t, row, ok);
            (row.original == row.suggested || IndexOfBasename(t.sel, row.original).None?) ==> t' == t
    ensures var t' := ApplyRow(t, row, ok);
            row.original != row.suggested && IndexOfBasename(t.sel, row.original).Some? ==>
              var j := IndexOfBasename(t.sel, row.original).value;
              var p := t.sel[j].path;
              && (p == "" ==> t' == t)
              && (p != "" && ok ==>
                    && t' == Tally(t.sel[j := Item(Join(Dirname(p), row.suggested), t.sel[j].isFolder)], t.renamed + 1, t.errors)
                    && (IsName(row.suggested) ==>
                          Basename(t'.sel[j].path) == row.suggested && Dirname(t'.sel[j].path) == Dirname(p)))
              && (p != "" && !ok ==> t' == Tally(t.sel, t.renamed, t.errors + 1))
  {
    if row.original != row.suggested && IndexOfBasename(t.sel, row.original).Some? && IsName(row.suggested) {
      var j := IndexOfBasename(t.sel, row.original).value;
      RenameTarget(t.sel[j].path, row.suggested);
    }
  }

  /** One row moves at most one counter up by one, and keeps the selection's length and kinds. */
  lemma ApplyRowCounts(t: Tally, row: Row, ok: bool)
    ensures var t' := ApplyRow(t, row, ok);
            && t'.renamed >= t.renamed && t'.errors >= t.errors
            && t'.renamed + t'.errors <= t.renamed + t.errors + 1
            && |t'.sel| == |t.sel|
            && (forall i :: 0 <= i < |t.sel| ==> t'.sel[i].isFolder == t.sel[i].isFolder)
  {
  }

  /** One row with a plain new name keeps every entry in its directory. */
  lemma ApplyRowDirs(t: Tally, row: Row, ok: bool)
    requires IsName(row.suggested)
    ensures var t' := ApplyRow(t, row, ok);
            |t'.sel| == |t.sel| && forall i :: 0 <= i < |t.sel| ==> Dirname(t'.sel[i].path) == Dirname(t.sel[i].path)
  {
    if row.original != row.suggested && IndexOfBasename(t.sel, row.original).Some? {
      var j := IndexOfBasename(t.sel, row.original).value;
      RenameTarget(t.sel[j].path, row.suggested);
    }
  }

  lemma {:induction false} ApplyRowsCounts(t: Tally, rows: seq<Row>, oks: seq<bool>)
    requires |oks| == |rows|
    ensures var t' := ApplyRows(t, rows, oks);
            && t'.renamed >= t.renamed && t'.errors >= t.errors
            && t'.renamed + t'.errors <= t.renamed + t.errors + |rows|
            && |t'.sel| == |t.sel|
            && (forall i :: 0 <= i < |t.sel| ==> t'.sel[i].isFolder == t.sel[i].isFolder)
  {
    if rows != [] {
      ApplyRowsCounts(t, rows[..|rows| - 1], oks[..|oks| - 1]);
      ApplyRowCounts(ApplyRows(t, rows[..|rows| - 1], oks[..|oks| - 1]), rows[|rows| - 1], oks[|oks| - 1]);
    }
  }

  lemma {:induction false} ApplyRowsDirs(t: Tally, rows: seq<Row>, oks: seq<bool>)
    requires |oks| == |rows|
    requires forall k :: 0 <= k < |rows| ==> IsName(rows[k].suggested)
    ensures var t' := ApplyRows(t, rows, oks);
            |t'.sel| == |t.sel| && forall i :: 0 <= i < |t.sel| ==> Dirname(t'.sel[i].path) == Dirname(t.sel[i].path)
  {
    if rows != [] {
      var init := rows[..|rows| - 1];
      assert forall k :: 0 <= k < |init| ==> init[k] == rows[k];
      ApplyRowsDirs(t, init, oks[..|oks| - 1]);
      ApplyRowDirs(ApplyRows(t, init, oks[..|oks| - 1]), rows[|rows| - 1], oks[|oks| - 1]);
    }
  }

  /** The loop never shrinks a counter, counts at most one outcome per row, keeps the selection's
      length and the kind of every entry, and when every suggestion is a plain name every entry stays
      in its directory. */
  lemma ApplyRowsProperties(t: Tally, rows: seq<Row>, oks: seq<bool>)
    requires |oks| == |rows|
    ensures var t' := ApplyRows(t, rows, oks);
            && t'.renamed >= t.renamed && t'.errors >= t.errors
            && t'.renamed + t'.errors <= t.renamed + t.errors + |rows|
            && |t'.sel| == |t.sel|
            && (forall i :: 0 <= i < |t.sel| ==> t'.sel[i].isFolder == t.sel[i].isFolder)
    ensures (forall k :: 0 <= k < |rows| ==> IsName(rows[k].suggested)) ==>
              forall i :: 0 <= i < |t.sel| ==> Dirname(ApplyRows(t, rows, oks).sel[i].path) == Dirname(t.sel[i].path)
  {
    ApplyRowsCounts(t, rows, oks);
    if forall k :: 0 <= k < |rows| ==> IsName(rows[k].suggested) {
      ApplyRowsDirs(t, rows, oks);
    }
  }

  /** Right after a successful poll the selection is empty, so applying renames nothing and counts
      nothing, whatever rows are picked. */
  lemma {:induction false} ApplyAfterClear(rows: seq<Row>, oks: seq<bool>)
    requires |oks| == |rows|
    ensures ApplyRows(Tally([], 0, 0), rows, oks) == Tally([], 0, 0)
  {
    if rows != [] {
      ApplyAfterClear(rows[..|rows| - 1], oks[..|oks| - 1]);
    }
  }

  /** What apply_renames shows when it is done. */
  datatype Notice = Success(text: string) | Info(text: string) | Silent

  const RenamedPrefix: string := "Renamed "
  const RenamedSuffix: string := " items successfully."
  const FailedPrefix: string := " Failed to rename "
  const NothingToRename: string := "No items needed renaming."

  /** The summary: a success message when something was renamed (with the failure count appended
      only when some rename failed), the info message when nothing was renamed and nothing failed,
      and no message at all when only failures occurred. */
  function Summary(renamed: nat, errors: nat): Notice {
    if renamed > 0 then
      Success(RenamedPrefix + NatToString(renamed) + RenamedSuffix
              + (if errors > 0 then FailedPrefix + NatToString(errors) + " items." else ""))
    else if errors == 0 then Info(NothingToRename)
    else Silent
  }

  /** The summary's three outcomes. */
  lemma SummaryCases(renamed: nat, errors: nat)
    ensures Summary(renamed, errors).Success? <==> renamed > 0
    ensures Summary(renamed, errors).Info? <==> renamed == 0 && errors == 0
    ensures Summary(renamed, errors).Silent? <==> renamed == 0 && errors > 0
    ensures Summary(renamed, errors).Info? ==> Summary(renamed, errors).text == NothingToRename
  {
  }

  /** The success message reports the renamed count, readable right after "Renamed ". */
  lemma SummaryRenamedCount(renamed: nat, errors: nat)
    requires renamed > 0
    ensures var m := Summary(renamed, errors).text;
            && StartsWith(m, RenamedPrefix)
            && DigitsValue(LeadingDigits(m[|RenamedPrefix|..])) == renamed
  {
    var tail := if errors > 0 then FailedPrefix + NatToString(errors) + " items." else "";
    assert Summary(renamed, errors).text == RenamedPrefix + NatToString(renamed) + (RenamedSuffix + tail);
    assert (RenamedSuffix + tail)[0] == ' ';
    CountAfter(RenamedPrefix, renamed, RenamedSuffix + tail);
  }

  /** The success message ends with " items successfully." exactly when no rename failed. */
  lemma SummaryMentionsFailures(renamed: nat, errors: nat)
    requires renamed > 0
    ensures EndsWith(Summary(renamed, errors).text, RenamedSuffix) <==> errors == 0
  {
    var head := RenamedPrefix + NatToString(renamed);
    var m := Summary(renamed, errors).text;
    if errors > 0 {
      var tail := FailedPrefix + NatToString(errors) + " items.";
      assert m == (head + RenamedSuffix) + tail;
      assert m[|m| - 2] == tail[|tail| - 2] == 's';
      assert RenamedSuffix[|RenamedSuffix| - 2] == 'y';
    } else {
      assert m == head + RenamedSuffix;
      assert m[|m| - |RenamedSuffix|..] == RenamedSuffix;
    }
  }

  /** Where the middle and the last part of a three-part concatenation sit. */
  lemma Slice3(a: string, b: string, c: string)
    ensures (a + b + c)[|a|..|a| + |b|] == b
    ensures (a + b + c)[|a| + |b|..] == c
  {
  }

  /** When some rename failed, the failure count can be read right after " Failed to rename ". */
  lemma SummaryFailedCount(renamed: nat, errors: nat)
    requires renamed > 0 && errors > 0
    ensures var m := Summary(renamed, errors).text;
            var k := |RenamedPrefix| + |NatToString(renamed)| + |RenamedSuffix| + |FailedPrefix|;
            && k <= |m|
            && m[k - |FailedPrefix|..k] == FailedPrefix
            && DigitsValue(LeadingDigits(m[k..])) == errors
  {
    var head := RenamedPrefix + NatToString(renamed) + RenamedSuffix;
    var e := NatToString(errors) + " items.";
    var m := Summary(renamed, errors).text;
    assert m == head + FailedPrefix + e;
    Slice3(head, FailedPrefix, e);
    LeadingDigitsOf(NatToString(errors), " items.");
    NatToStringRoundTrip(errors);
  }
}
