/** The selection list `selected_items`: an ordered list of (path, is_folder) entries
    with the operations the renamer performs on it. */
module Selection {
  import opened Wrappers
  import opened Search
  import opened Paths

  /** One entry (path, is_folder) of selected_items. */
  datatype Item = Item(path: string, isFolder: bool)

  predicate HasPath(s: seq<Item>, p: string) {
    exists i :: 0 <= i < |s| && s[i].path == p
  }

  predicate UniquePaths(s: seq<Item>) {
    forall i, j :: 0 <= i < j < |s| ==> s[i].path != s[j].path
  }

  /** The first index whose entry has path p. */
  function IndexOfPath(s: seq<Item>, p: string): (r: Option<nat>)
    ensures r.Some? ==> r.value < |s| && s[r.value].path == p
    ensures r.Some? ==> forall j :: 0 <= j < r.value ==> s[j].path != p
    ensures r.None? <==> !HasPath(s, p)
  {
    FirstIndex(s, (e: Item) => e.path == p)
  }

  /** The first index whose entry's basename is name. */
  function IndexOfBasename(s: seq<Item>, name: string): (r: Option<nat>)
    ensures r.Some? ==> r.value < |s| && Basename(s[r.value].path) == name
    ensures r.Some? ==> forall j :: 0 <= j < r.value ==> Basename(s[j].path) != name
    ensures r.None? <==> forall j :: 0 <= j < |s| ==> Basename(s[j].path) != name
  {
    FirstIndex(s, (e: Item) => Basename(e.path) == name)
  }

  /** A first index is the only one: any index with the two first-index properties is it. */
  lemma IndexOfPathIsFirst(s: seq<Item>, p: string, i: nat)
    requires i < |s| && s[i].path == p
    requires forall j :: 0 <= j < i ==> s[j].path != p
    ensures IndexOfPath(s, p) == Some(i)
  {
  }

  lemma IndexOfBasenameIsFirst(s: seq<Item>, name: string, i: nat)
    requires i < |s| && Basename(s[i].path) == name
    requires forall j :: 0 <= j < i ==> Basename(s[j].path) != name
    ensures IndexOfBasename(s, name) == Some(i)
  {
  }

  function RemoveAt(s: seq<Item>, i: nat): seq<Item>
    requires i < |s|
  {
    s[..i] + s[i + 1..]
  }

  /** add_tree_item_to_selection: append the entry unless some entry already has its path. */
  function Add(s: seq<Item>, it: Item): seq<Item> {
    if HasPath(s, it.path) then s else s + [it]
  }

  /** remove_tree_item_from_selection: delete the first entry with path p, if any. */
  function RemovePath(s: seq<Item>, p: string): seq<Item> {
    match IndexOfPath(s, p)
    case None => s
    case Some(i) => RemoveAt(s, i)
  }

  /** One step of remove_selected_item: delete the first entry whose basename is name,
      and report the entry deleted. */
  function RemoveBasename(s: seq<Item>, name: string): (seq<Item>, Option<Item>) {
    match IndexOfBasename(s, name)
    case None => (s, None)
    case Some(i) => (RemoveAt(s, i), Some(s[i]))
  }

  /** A run of Add over items, in order (the loop of select_tree_item_contents). */
  function AddAll(s: seq<Item>, items: seq<Item>): seq<Item> {
    if items == [] then s else Add(AddAll(s, items[..|items| - 1]), items[|items| - 1])
  }

  /** Adding keeps paths unique, appends exactly when the path is new, and adds exactly that path. */
  lemma AddProperties(s: seq<Item>, it: Item)
    ensures !HasPath(s, it.path) ==> Add(s, it) == s + [it]
    ensures HasPath(s, it.path) ==> Add(s, it) == s
    ensures UniquePaths(s) ==> UniquePaths(Add(s, it))
    ensures forall p :: HasPath(Add(s, it), p) <==> HasPath(s, p) || p == it.path
  {
    var r := Add(s, it);
    forall p ensures HasPath(r, p) <==> HasPath(s, p) || p == it.path {
      if HasPath(s, p) {
        var i :| 0 <= i < |s| && s[i].path == p;
        assert r[i] == s[i];
      }
      if p == it.path && !HasPath(s, p) {
        assert r[|s|] == it;
      }
    }
  }

  /** Where the entries of a list sit after one is deleted. */
  lemma RemoveAtFacts(s: seq<Item>, i: nat)
    requires i < |s|
    ensures var r := RemoveAt(s, i);
            && |r| == |s| - 1
            && (forall k :: 0 <= k < i ==> r[k] == s[k])
            && (forall k :: i <= k < |r| ==> r[k] == s[k + 1])
  {
  }

  /** Deleting an entry of a list with unique paths keeps them unique and removes its path. */
  lemma RemoveAtUniquePaths(s: seq<Item>, i: nat)
    requires i < |s| && UniquePaths(s)
    ensures UniquePaths(RemoveAt(s, i))
    ensures forall k :: 0 <= k < |RemoveAt(s, i)| ==> RemoveAt(s, i)[k].path != s[i].path
  {
    RemoveAtFacts(s, i);
  }

  /** Deleting an entry keeps every other path it does not hold. */
  lemma RemoveAtHasPath(s: seq<Item>, i: nat, q: string)
    requires i < |s| && s[i].path != q
    ensures HasPath(RemoveAt(s, i), q) <==> HasPath(s, q)
  {
    var r := RemoveAt(s, i);
    RemoveAtFacts(s, i);
    if HasPath(s, q) {
      var k :| 0 <= k < |s| && s[k].path == q;
      if k < i { assert r[k] == s[k]; } else { assert r[k - 1] == s[k]; }
    }
  }

  /** Removing by path deletes only the first entry with that path and keeps the order of the
      rest; with unique paths the path is gone afterwards; an absent path changes nothing. */
  lemma RemovePathProperties(s: seq<Item>, p: string)
    ensures !HasPath(s, p) ==> RemovePath(s, p) == s
    ensures HasPath(s, p) ==>
              exists i :: (0 <= i < |s| && s[i].path == p &&
                           (forall j :: 0 <= j < i ==> s[j].path != p) &&
                           RemovePath(s, p) == s[..i] + s[i + 1..])
    ensures HasPath(s, p) ==> |RemovePath(s, p)| == |s| - 1
    ensures UniquePaths(s) ==> UniquePaths(RemovePath(s, p)) && !HasPath(RemovePath(s, p), p)
    ensures forall q :: q != p ==> (HasPath(RemovePath(s, p), q) <==> HasPath(s, q))
  {
    match IndexOfPath(s, p) {
      case None =>
      case Some(i) =>
        assert RemovePath(s, p) == RemoveAt(s, i) == s[..i] + s[i + 1..];
        RemoveAtFacts(s, i);
        forall q | q != p ensures HasPath(RemoveAt(s, i), q) <==> HasPath(s, q) {
          RemoveAtHasPath(s, i, q);
        }
        if UniquePaths(s) {
          RemoveAtUniquePaths(s, i);
        }
    }
  }

  /** Toggling an unselected node on and then off restores the list exactly. */
  lemma RemoveAfterAdd(s: seq<Item>, it: Item)
    requires !HasPath(s, it.path)
    ensures RemovePath(Add(s, it), it.path) == s
  {
    var t := s + [it];
    assert Add(s, it) == t;
    IndexOfPathIsFirst(t, it.path, |s|);
    assert RemoveAt(t, |s|) == s;
  }

  /** Toggling a selected node off and then on again keeps the same entries, but the entry
      moves to the end of the list. */
  lemma AddAfterRemove(s: seq<Item>, i: nat)
    requires UniquePaths(s) && i < |s|
    ensures Add(RemovePath(s, s[i].path), s[i]) == s[..i] + s[i + 1..] + [s[i]]
    ensures multiset(Add(RemovePath(s, s[i].path), s[i])) == multiset(s)
  {
    IndexOfPathIsFirst(s, s[i].path, i);
    var r := RemovePath(s, s[i].path);
    assert r == s[..i] + s[i + 1..];
    RemovePathProperties(s, s[i].path);
    assert !HasPath(r, s[i].path);
    assert s == s[..i] + [s[i]] + s[i + 1..];
  }

  /** remove_selected_item's step deletes the first entry with that basename and reports it. */
  lemma RemoveBasenameProperties(s: seq<Item>, name: string)
    ensures RemoveBasename(s, name).1.None? <==> forall j :: 0 <= j < |s| ==> Basename(s[j].path) != name
    ensures RemoveBasename(s, name).1.None? ==> RemoveBasename(s, name).0 == s
    ensures RemoveBasename(s, name).1.Some? ==>
              exists i :: (0 <= i < |s| && Basename(s[i].path) == name &&
                           (forall j :: 0 <= j < i ==> Basename(s[j].path) != name) &&
                           RemoveBasename(s, name) == (s[..i] + s[i + 1..], Some(s[i])))
    ensures UniquePaths(s) ==> UniquePaths(RemoveBasename(s, name).0)
  {
    match IndexOfBasename(s, name) {
      case None =>
      case Some(i) =>
        assert RemoveBasename(s, name) == (RemoveAt(s, i), Some(s[i])) == (s[..i] + s[i + 1..], Some(s[i]));
        if UniquePaths(s) {
          RemoveAtUniquePaths(s, i);
        }
    }
  }

  /** Adding a run keeps the old list as a prefix and appends only entries of the run. */
  lemma {:induction false} AddAllPrefix(s: seq<Item>, items: seq<Item>)
    ensures |AddAll(s, items)| >= |s| && AddAll(s, items)[..|s|] == s
    ensures forall k :: |s| <= k < |AddAll(s, items)| ==> AddAll(s, items)[k] in items
  {
    if items != [] {
      var init := items[..|items| - 1];
      var last := items[|items| - 1];
      var prev := AddAll(s, init);
      AddAllPrefix(s, init);
      var r := Add(prev, last);
      assert r == prev || r == prev + [last];
      assert r[..|s|] == prev[..|s|];
      forall k | |s| <= k < |r| ensures r[k] in items {
        if k < |prev| {
          assert r[k] == prev[k];
          assert prev[k] in init;
        } else {
          assert r[k] == last;
        }
      }
    }
  }

  lemma {:induction false} AddAllUnique(s: seq<Item>, items: seq<Item>)
    requires UniquePaths(s)
    ensures UniquePaths(AddAll(s, items))
  {
    if items != [] {
      AddAllUnique(s, items[..|items| - 1]);
      AddProperties(AddAll(s, items[..|items| - 1]), items[|items| - 1]);
    }
  }

  lemma {:induction false} AddAllPaths(s: seq<Item>, items: seq<Item>)
    ensures forall p :: HasPath(AddAll(s, items), p) <==>
              HasPath(s, p) || exists k :: 0 <= k < |items| && items[k].path == p
  {
    if items != [] {
      var init := items[..|items| - 1];
      var last := items[|items| - 1];
      AddAllPaths(s, init);
      AddProperties(AddAll(s, init), last);
      forall p ensures HasPath(AddAll(s, items), p) <==> HasPath(s, p) || exists k :: 0 <= k < |items| && items[k].path == p {
        if exists k :: 0 <= k < |init| && init[k].path == p {
          var k :| 0 <= k < |init| && init[k].path == p;
          assert items[k].path == p;
        }
        if exists k :: 0 <= k < |items| && items[k].path == p {
          var k :| 0 <= k < |items| && items[k].path == p;
          if k < |init| { assert init[k].path == p; } else { assert p == last.path; }
        }
      }
    }
  }

  /** Adding a run of entries keeps the old list as a prefix, keeps paths unique, and afterwards
      holds exactly the old paths and the paths of the run. */
  lemma AddAllProperties(s: seq<Item>, items: seq<Item>)
    ensures |AddAll(s, items)| >= |s| && AddAll(s, items)[..|s|] == s
    ensures UniquePaths(s) ==> UniquePaths(AddAll(s, items))
    ensures forall p :: HasPath(AddAll(s, items), p) <==>
              HasPath(s, p) || exists k :: 0 <= k < |items| && items[k].path == p
    ensures forall k :: |s| <= k < |AddAll(s, items)| ==> AddAll(s, items)[k] in items
  {
    AddAllPrefix(s, items);
    AddAllPaths(s, items);
    if UniquePaths(s) {
      AddAllUnique(s, items);
    }
  }
}
