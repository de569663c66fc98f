/** The lazily loaded directory tree (the `dir_tree` Treeview): its nodes, how a directory's
    children are materialised, how a folder is expanded, get_full_path, and the two checkbox
    updates (every node at once, or the node found by path). */
module DirTree {
  import opened Wrappers
  import opened Search
  import opened Paths
  import opened Selection
  import opened Listing

  /** The "Selected" cell of a row: "☑", "☐", or "" on the placeholder row. */
  datatype Mark = Checked | Unchecked | Blank

  /** The "Type" cell of a row: "Folder", "File", or "" on the placeholder row. */
  datatype NodeType = Folder | File | Untyped

  /** One row of the tree: its text (a basename), its two cells, whether it is open, and its children. */
  datatype TreeNode = TreeNode(text: string, check: Mark, kind: NodeType, open: bool, children: seq<TreeNode>)

  const LoadingText: string := "Loading..."

  /** The dummy child every folder gets so that it can be expanded later. */
  const Placeholder: TreeNode := TreeNode(LoadingText, Blank, Untyped, false, [])

  /** A node is addressed by the child indices leading to it from the root. */
  type Addr = seq<nat>

  predicate ValidAddr(t: TreeNode, a: Addr)
    decreases a
  {
    a == [] || (a[0] < |t.children| && ValidAddr(t.children[a[0]], a[1..]))
  }

  function NodeAt(t: TreeNode, a: Addr): TreeNode
    requires ValidAddr(t, a)
    decreases a
  {
    if a == [] then t else NodeAt(t.children[a[0]], a[1..])
  }

  /** The tree with the subtree at a replaced by n. */
  function ReplaceAt(t: TreeNode, a: Addr, n: TreeNode): TreeNode
    requires ValidAddr(t, a)
    decreases a
  {
    if a == [] then n
    else t.(children := t.children[a[0] := ReplaceAt(t.children[a[0]], a[1..], n)])
  }

  lemma {:induction false} ValidPrefix(t: TreeNode, a: Addr, k: nat)
    requires ValidAddr(t, a) && k <= |a|
    ensures ValidAddr(t, a[..k])
    decreases a
  {
    if k > 0 {
      ValidPrefix(t.children[a[0]], a[1..], k - 1);
      assert a[..k][1..] == a[1..][..k - 1];
    }
  }

  lemma {:induction false} NodeAtAppend(t: TreeNode, a: Addr, i: nat)
    requires ValidAddr(t, a) && i < |NodeAt(t, a).children|
    ensures ValidAddr(t, a + [i]) && NodeAt(t, a + [i]) == NodeAt(t, a).children[i]
    decreases a
  {
    if a == [] {
      assert a + [i] == [i];
      assert [i][1..] == [];
    } else {
      assert (a + [i])[1..] == a[1..] + [i];
      NodeAtAppend(t.children[a[0]], a[1..], i);
    }
  }

  lemma {:induction false} ReplaceAtNode(t: TreeNode, a: Addr, n: TreeNode)
    requires ValidAddr(t, a)
    ensures ValidAddr(ReplaceAt(t, a, n), a) && NodeAt(ReplaceAt(t, a, n), a) == n
    decreases a
  {
    if a != [] {
      ReplaceAtNode(t.children[a[0]], a[1..], n);
    }
  }

  lemma {:induction false} ReplaceAtSame(t: TreeNode, a: Addr)
    requires ValidAddr(t, a)
    ensures ReplaceAt(t, a, NodeAt(t, a)) == t
    decreases a
  {
    if a != [] {
      ReplaceAtSame(t.children[a[0]], a[1..]);
    }
  }

  lemma {:induction false} ReplaceAtTwice(t: TreeNode, a: Addr, n: TreeNode, m: TreeNode)
    requires ValidAddr(t, a)
    ensures ValidAddr(ReplaceAt(t, a, n), a)
    ensures ReplaceAt(ReplaceAt(t, a, n), a, m) == ReplaceAt(t, a, m)
    decreases a
  {
    ReplaceAtNode(t, a, n);
    if a != [] {
      ReplaceAtTwice(t.children[a[0]], a[1..], n, m);
    }
  }

  /** Above the replaced node the tree keeps its shape, and each node on the way is the old one
      with the replacement made further down. */
  lemma {:induction false} ReplaceAtPrefix(t: TreeNode, a: Addr, n: TreeNode, k: nat)
    requires ValidAddr(t, a) && k <= |a|
    ensures ValidAddr(t, a[..k]) && ValidAddr(ReplaceAt(t, a, n), a[..k])
    ensures ValidAddr(NodeAt(t, a[..k]), a[k..])
    ensures NodeAt(ReplaceAt(t, a, n), a[..k]) == ReplaceAt(NodeAt(t, a[..k]), a[k..], n)
    decreases a
  {
    if k == 0 {
      assert a[..k] == [] && a[k..] == a;
    } else {
      ReplaceAtPrefix(t.children[a[0]], a[1..], n, k - 1);
      assert a[..k][1..] == a[1..][..k - 1];
      assert a[k..] == a[1..][k - 1..];
    }
  }

  /** get_full_path: the root's path is the root directory; any other node's path is its
      parent's path joined with its text. */
  function FullPath(t: TreeNode, root: string, a: Addr): string
    requires ValidAddr(t, a)
    decreases |a|
  {
    if a == [] then root
    else
      ValidPrefix(t, a, |a| - 1);
      Join(FullPath(t, root, a[..|a| - 1]), NodeAt(t, a).text)
  }

  lemma FullPathOfChild(t: TreeNode, root: string, a: Addr, i: nat)
    requires ValidAddr(t, a) && i < |NodeAt(t, a).children|
    ensures ValidAddr(t, a + [i])
    ensures FullPath(t, root, a + [i]) == Join(FullPath(t, root, a), NodeAt(t, a).children[i].text)
  {
    NodeAtAppend(t, a, i);
    assert (a + [i])[..|a|] == a;
  }

  /** A node's text is the basename of its full path. */
  lemma BasenameOfFullPath(t: TreeNode, root: string, a: Addr)
    requires ValidAddr(t, a) && a != [] && IsName(NodeAt(t, a).text)
    ensures Basename(FullPath(t, root, a)) == NodeAt(t, a).text
  {
    ValidPrefix(t, a, |a| - 1);
    BasenameOfJoin(FullPath(t, root, a[..|a| - 1]), NodeAt(t, a).text);
  }

  /** Replacing a node by one with the same text leaves the full paths of it and of every node
      above it unchanged. */
  lemma {:induction false} FullPathAfterReplace(t: TreeNode, root: string, a: Addr, n: TreeNode, k: nat)
    requires ValidAddr(t, a) && k <= |a| && n.text == NodeAt(t, a).text
    ensures ValidAddr(t, a[..k]) && ValidAddr(ReplaceAt(t, a, n), a[..k])
    ensures FullPath(ReplaceAt(t, a, n), root, a[..k]) == FullPath(t, root, a[..k])
    decreases k
  {
    var t' := ReplaceAt(t, a, n);
    ReplaceAtPrefix(t, a, n, k);
    if k > 0 {
      var p := a[..k];
      FullPathAfterReplace(t, root, a, n, k - 1);
      assert p[..|p| - 1] == a[..k - 1];
      if k < |a| {
        assert a[k..] != [];
      } else {
        assert a[..k] == a && a[k..] == [];
      }
      assert NodeAt(t', p).text == NodeAt(t, p).text;
    }
  }

  lemma FullPathAfterReplaceAt(t: TreeNode, root: string, a: Addr, n: TreeNode)
    requires ValidAddr(t, a) && n.text == NodeAt(t, a).text
    ensures ValidAddr(ReplaceAt(t, a, n), a)
    ensures FullPath(ReplaceAt(t, a, n), root, a) == FullPath(t, root, a)
  {
    FullPathAfterReplace(t, root, a, n, |a|);
    assert a[..|a|] == a;
  }

  /** The row populate_directory_subtree inserts for one listed entry: ☑ exactly when its path is
      selected, and, for a folder, one "Loading..." placeholder child. */
  function ChildNode(e: DirEntry, parentPath: string, sel: seq<Item>): TreeNode {
    TreeNode(e.name,
             if HasPath(sel, Join(parentPath, e.name)) then Checked else Unchecked,
             if e.isFolder then Folder else File,
             false,
             if e.isFolder then [Placeholder] else [])
  }

  /** The children populate_directory_subtree gives a directory: the sorted listing, or nothing
      when the directory cannot be listed (None). */
  function Children(listing: Option<seq<DirEntry>>, parentPath: string, sel: seq<Item>): seq<TreeNode> {
    match listing
    case None => []
    case Some(es) =>
      var sorted := SortListing(es);
      seq(|sorted|, i requires 0 <= i < |sorted| => ChildNode(sorted[i], parentPath, sel))
  }

  /** The listed entry a row stands for. */
  function EntryOf(n: TreeNode): DirEntry {
    DirEntry(n.text, n.kind == Folder)
  }

  function EntriesOf(ns: seq<TreeNode>): seq<DirEntry> {
    seq(|ns|, i requires 0 <= i < |ns| => EntryOf(ns[i]))
  }

  /** The populated children are the listed entries, folders first and then by lower-cased name;
      each one's checkbox is ☑ exactly when its path is selected; each folder has exactly one
      "Loading..." placeholder child and each file none; an unreadable directory gets none. */
  lemma ChildrenProperties(listing: Option<seq<DirEntry>>, parentPath: string, sel: seq<Item>)
    ensures listing.None? ==> Children(listing, parentPath, sel) == []
    ensures listing.Some? ==> multiset(EntriesOf(Children(listing, parentPath, sel))) == multiset(listing.value)
    ensures Sorted(EntriesOf(Children(listing, parentPath, sel)))
    ensures forall i :: 0 <= i < |Children(listing, parentPath, sel)| ==>
              var c := Children(listing, parentPath, sel)[i];
              && (c.check == Checked <==> HasPath(sel, Join(parentPath, c.text)))
              && c.check != Blank
              && c.kind != Untyped
              && !c.open
              && c.children == (if c.kind == Folder then [Placeholder] else [])
  {
    if listing.Some? {
      var sorted := SortListing(listing.value);
      SortListingProperties(listing.value);
      var cs := Children(listing, parentPath, sel);
      assert EntriesOf(cs) == sorted;
    }
  }

  /** populate_directory_subtree: lists the directory (None when listing it is refused), sorts the
      entries and inserts one row per entry. */
  method PopulateSubtree(listing: Option<seq<DirEntry>>, parentPath: string, sel: seq<Item>)
    returns (kids: seq<TreeNode>)
    ensures kids == Children(listing, parentPath, sel)
  {
    kids := [];
    if listing.Some? {
      var items := SortListing(listing.value);
      var k := 0;
      while k < |items|
        invariant k <= |items|
        invariant |kids| == k
        invariant forall i :: 0 <= i < k ==> kids[i] == ChildNode(items[i], parentPath, sel)
      {
        var item := items[k];
        var itemPath := Join(parentPath, item.name);
        var isSelected := HasPath(sel, itemPath);
        var node := TreeNode(item.name, if isSelected then Checked else Unchecked,
                             if item.isFolder then Folder else File, false, []);
        if item.isFolder {
          node := node.(children := [Placeholder]);
        }
        kids := kids + [node];
        k := k + 1;
      }
    }
  }

  /** The root row's text: the root directory's basename, or the whole path when that is empty. */
  function RootText(root: string): string {
    if Basename(root) != "" then Basename(root) else root
  }

  /** populate_directory_tree: a fresh tree whose open root row is unchecked and whose first level
      is populated from the root directory. */
  function FreshTree(root: string, listing: Option<seq<DirEntry>>, sel: seq<Item>): TreeNode {
    TreeNode(RootText(root), Unchecked, Folder, true, Children(listing, root, sel))
  }

  /** The test on_folder_expanded makes: the only child is a row whose text is "Loading...". */
  predicate NeedsLoad(n: TreeNode) {
    |n.children| == 1 && n.children[0].text == LoadingText
  }

  /** on_folder_expanded for the node at a (the Treeview has already marked it open): if its only
      child reads "Loading...", that child is deleted and kids are loaded in its place; otherwise
      nothing else changes. */
  function OnExpand(t: TreeNode, a: Addr, kids: seq<TreeNode>): TreeNode
    requires ValidAddr(t, a)
  {
    var n := NodeAt(t, a).(open := true);
    ReplaceAt(t, a, if NeedsLoad(n) then n.(children := kids) else n)
  }

  /** Expanding opens the node and replaces its children exactly when its only child reads
      "Loading..."; text and checkbox stay as they were. */
  lemma ExpandEffect(t: TreeNode, a: Addr, kids: seq<TreeNode>)
    requires ValidAddr(t, a)
    ensures ValidAddr(OnExpand(t, a, kids), a)
    ensures var n := NodeAt(OnExpand(t, a, kids), a);
            && n.open && n.text == NodeAt(t, a).text && n.check == NodeAt(t, a).check
            && n.kind == NodeAt(t, a).kind
            && n.children == (if NeedsLoad(NodeAt(t, a)) then kids else NodeAt(t, a).children)
  {
    var n := NodeAt(t, a).(open := true);
    ReplaceAtNode(t, a, if NeedsLoad(n) then n.(children := kids) else n);
  }

  /** Expanding the same node a second time changes nothing, whatever the directory lists by then,
      unless the first expansion loaded a single entry whose name is "Loading...". */
  lemma ExpandIdempotent(t: TreeNode, a: Addr, kids: seq<TreeNode>, kids2: seq<TreeNode>)
    requires ValidAddr(t, a)
    requires !(|kids| == 1 && kids[0].text == LoadingText)
    ensures ValidAddr(OnExpand(t, a, kids), a)
    ensures OnExpand(OnExpand(t, a, kids), a, kids2) == OnExpand(t, a, kids)
  {
    var t1 := OnExpand(t, a, kids);
    ExpandEffect(t, a, kids);
    var n1 := NodeAt(t1, a);
    assert !NeedsLoad(n1.(open := true));
    assert n1.(open := true) == n1;
    ReplaceAtSame(t1, a);
  }

  /** A folder whose only entry is itself named "Loading..." is loaded afresh on every expansion. */
  lemma ExpandReloadsLoadingEntry(t: TreeNode, a: Addr, kids: seq<TreeNode>, kids2: seq<TreeNode>)
    requires ValidAddr(t, a) && NeedsLoad(NodeAt(t, a))
    requires |kids| == 1 && kids[0].text == LoadingText
    ensures ValidAddr(OnExpand(t, a, kids), a)
    ensures ValidAddr(OnExpand(OnExpand(t, a, kids), a, kids2), a)
    ensures NodeAt(OnExpand(OnExpand(t, a, kids), a, kids2), a).children == kids2
  {
    ExpandEffect(t, a, kids);
    ExpandEffect(OnExpand(t, a, kids), a, kids2);
  }

  /** Expanding keeps the full path of the expanded node. */
  lemma ExpandKeepsPath(t: TreeNode, root: string, a: Addr, kids: seq<TreeNode>)
    requires ValidAddr(t, a)
    ensures ValidAddr(OnExpand(t, a, kids), a)
    ensures FullPath(OnExpand(t, a, kids), root, a) == FullPath(t, root, a)
  {
    var n := NodeAt(t, a).(open := true);
    FullPathAfterReplaceAt(t, root, a, if NeedsLoad(n) then n.(children := kids) else n);
  }

  /** After a folder is loaded, each new child's checkbox is ☑ exactly when its full path, as
      get_full_path rebuilds it, is selected. */
  lemma ExpandedChildrenSynced(t: TreeNode, root: string, a: Addr, listing: Option<seq<DirEntry>>,
                               sel: seq<Item>, i: nat)
    requires ValidAddr(t, a) && NeedsLoad(NodeAt(t, a))
    requires i < |Children(listing, FullPath(t, root, a), sel)|
    ensures var t' := OnExpand(t, a, Children(listing, FullPath(t, root, a), sel));
            && ValidAddr(t', a + [i])
            && (NodeAt(t', a + [i]).check == Checked <==> HasPath(sel, FullPath(t', root, a + [i])))
  {
    var kids := Children(listing, FullPath(t, root, a), sel);
    var t' := OnExpand(t, a, kids);
    ExpandEffect(t, a, kids);
    ExpandKeepsPath(t, root, a, kids);
    FullPathOfChild(t', root, a, i);
    ChildrenProperties(listing, FullPath(t, root, a), sel);
    assert NodeAt(t', a).children[i] == kids[i];
    var c := kids[i];
    assert c.check == Checked <==> HasPath(sel, Join(FullPath(t, root, a), c.text));
    assert FullPath(t', root, a + [i]) == Join(FullPath(t, root, a), c.text);
    NodeAtAppend(t', a, i);
    assert NodeAt(t', a + [i]) == c;
  }

  /** update_all_dir_tree_checkboxes: puts the same mark in every row's checkbox cell. */
  function SetAll(t: TreeNode, m: Mark): TreeNode
    decreases t
  {
    t.(check := m, children := seq(|t.children|, i requires 0 <= i < |t.children| => SetAll(t.children[i], m)))
  }

  /** Every row, the root and the placeholders included, carries the mark afterwards; every
      address stays valid and nothing but the marks changes. */
  lemma {:induction false} SetAllAt(t: TreeNode, m: Mark, a: Addr)
    requires ValidAddr(t, a)
    ensures ValidAddr(SetAll(t, m), a)
    ensures NodeAt(SetAll(t, m), a) == SetAll(NodeAt(t, a), m)
    ensures NodeAt(SetAll(t, m), a).check == m
    ensures NodeAt(SetAll(t, m), a).text == NodeAt(t, a).text
    ensures NodeAt(SetAll(t, m), a).kind == NodeAt(t, a).kind
    ensures |NodeAt(SetAll(t, m), a).children| == |NodeAt(t, a).children|
    decreases a
  {
    if a != [] {
      SetAllAt(t.children[a[0]], m, a[1..]);
    }
  }

  /** Every node reachable in the tree after SetAll was reachable before. */
  lemma {:induction false} SetAllValidAddr(t: TreeNode, m: Mark, a: Addr)
    requires ValidAddr(SetAll(t, m), a)
    ensures ValidAddr(t, a)
    decreases a
  {
    if a != [] {
      SetAllValidAddr(t.children[a[0]], m, a[1..]);
    }
  }

  /** The full path of a node rebuilt from the root down, as find_item_by_path computes it. */
  function PathFrom(t: TreeNode, cur: string, a: Addr): string
    requires ValidAddr(t, a)
    decreases a
  {
    if a == [] then cur else PathFrom(t.children[a[0]], Join(cur, t.children[a[0]].text), a[1..])
  }

  lemma {:induction false} PathFromIsFullPath(t: TreeNode, root: string, p: Addr, s: Addr)
    requires ValidAddr(t, p + s)
    ensures ValidAddr(t, p) && ValidAddr(NodeAt(t, p), s)
    ensures PathFrom(NodeAt(t, p), FullPath(t, root, p), s) == FullPath(t, root, p + s)
    decreases s
  {
    ValidPrefix(t, p + s, |p|);
    assert (p + s)[..|p|] == p;
    ReplaceAtPrefix(t, p + s, NodeAt(t, p + s), |p|);
    assert (p + s)[|p|..] == s;
    if s != [] {
      var i := s[0];
      NodeAtAppend(t, p, i);
      FullPathOfChild(t, root, p, i);
      assert p + s == (p + [i]) + s[1..];
      PathFromIsFullPath(t, root, p + [i], s[1..]);
    } else {
      assert p + s == p;
    }
  }

  /** Every node on the way to a, a itself excluded, is an open folder. */
  predicate OpenPath(t: TreeNode, a: Addr)
    requires ValidAddr(t, a)
    decreases a
  {
    a == [] || (t.kind == Folder && t.open && OpenPath(t.children[a[0]], a[1..]))
  }

  /** find_item_by_path: a depth-first search for the node whose path is `path`, descending only
      into open folders. */
  function FindFrom(t: TreeNode, cur: string, path: string): (r: Option<Addr>)
    ensures r.Some? ==> ValidAddr(t, r.value) && PathFrom(t, cur, r.value) == path && OpenPath(t, r.value)
    decreases t, |t.children| + 1
  {
    if cur == path then Some([])
    else if t.kind == Folder && t.open then FindAmong(t, cur, path, 0)
    else None
  }

  /** The loop of find_item_by_path over the children of t, from the i-th on. */
  function FindAmong(t: TreeNode, cur: string, path: string, i: nat): (r: Option<Addr>)
    requires i <= |t.children|
    ensures r.Some? ==> r.value != [] && ValidAddr(t, r.value) && PathFrom(t, cur, r.value) == path
    ensures r.Some? ==> OpenPath(t.children[r.value[0]], r.value[1..])
    decreases t, |t.children| - i
  {
    if i == |t.children| then None
    else
      var child := t.children[i];
      match FindFrom(child, Join(cur, child.text), path)
      case Some(a) =>
        assert ([i] + a)[1..] == a;
        Some([i] + a)
      case None => FindAmong(t, cur, path, i + 1)
  }

  /** The search is complete: when a node reachable through open folders has the path, the
      search finds a node. */
  lemma {:induction false} FindComplete(t: TreeNode, cur: string, path: string, a: Addr)
    requires ValidAddr(t, a) && OpenPath(t, a) && PathFrom(t, cur, a) == path
    ensures FindFrom(t, cur, path).Some?
    decreases |a|, 1, 0
  {
    if cur != path {
      FindAmongComplete(t, cur, path, a, 0);
    }
  }

  /** The child loop is complete: when the node at a, under an open folder, has the path and the
      loop has not yet passed the child a leads into, the loop finds a node. */
  lemma {:induction false} FindAmongComplete(t: TreeNode, cur: string, path: string, a: Addr, i: nat)
    requires ValidAddr(t, a) && a != [] && i <= a[0]
    requires OpenPath(t.children[a[0]], a[1..]) && PathFrom(t, cur, a) == path
    ensures FindAmong(t, cur, path, i).Some?
    decreases |a|, 0, a[0] - i
  {
    var child := t.children[i];
    if i == a[0] {
      FindComplete(child, Join(cur, child.text), path, a[1..]);
    } else if FindFrom(child, Join(cur, child.text), path).None? {
      FindAmongComplete(t, cur, path, a, i + 1);
    }
  }

  /** update_dir_tree_checkbox: sets the mark of the node found by path, if the search finds one. */
  function UpdateCheckbox(t: TreeNode, root: string, path: string, m: Mark): TreeNode {
    match FindFrom(t, root, path)
    case None => t
    case Some(a) => ReplaceAt(t, a, NodeAt(t, a).(check := m))
  }

  /** The search finds nothing exactly when no node reachable through open folders has the path. */
  lemma FindNoneIffHidden(t: TreeNode, root: string, path: string)
    ensures FindFrom(t, root, path).None? <==>
              forall a :: ValidAddr(t, a) && OpenPath(t, a) ==> FullPath(t, root, a) != path
  {
    forall a | ValidAddr(t, a) && OpenPath(t, a) && FullPath(t, root, a) == path
      ensures FindFrom(t, root, path).Some?
    {
      assert [] + a == a;
      PathFromIsFullPath(t, root, [], a);
      FindComplete(t, root, path, a);
    }
    if FindFrom(t, root, path).Some? {
      var a := FindFrom(t, root, path).value;
      assert [] + a == a;
      PathFromIsFullPath(t, root, [], a);
    }
  }

  /** The node update_dir_tree_checkbox changes has exactly that full path and is reachable through
      open folders; nothing else changes, and when no node reachable through open folders has the
      path the tree is unchanged. */
  lemma UpdateCheckboxEffect(t: TreeNode, root: string, path: string, m: Mark)
    ensures FindFrom(t, root, path).None? <==>
              forall a :: ValidAddr(t, a) && OpenPath(t, a) ==> FullPath(t, root, a) != path
    ensures FindFrom(t, root, path).None? ==> UpdateCheckbox(t, root, path, m) == t
    ensures FindFrom(t, root, path).Some? ==>
              var a := FindFrom(t, root, path).value;
              && ValidAddr(t, a) && OpenPath(t, a) && FullPath(t, root, a) == path
              && UpdateCheckbox(t, root, path, m) == ReplaceAt(t, a, NodeAt(t, a).(check := m))
              && ValidAddr(UpdateCheckbox(t, root, path, m), a)
              && NodeAt(UpdateCheckbox(t, root, path, m), a).check == m
              && FullPath(UpdateCheckbox(t, root, path, m), root, a) == path
  {
    FindNoneIffHidden(t, root, path);
    match FindFrom(t, root, path)
    case None =>
    case Some(a) =>
      assert [] + a == a;
      PathFromIsFullPath(t, root, [], a);
      ReplaceAtNode(t, a, NodeAt(t, a).(check := m));
      FullPathAfterReplaceAt(t, root, a, NodeAt(t, a).(check := m));
  }

  /** The tree with the checkbox of the node at a set to m. */
  function SetCheckAt(t: TreeNode, a: Addr, m: Mark): (r: TreeNode)
    requires ValidAddr(t, a)
    ensures ValidAddr(r, a) && NodeAt(r, a) == NodeAt(t, a).(check := m)
  {
    ReplaceAtNode(t, a, NodeAt(t, a).(check := m));
    ReplaceAt(t, a, NodeAt(t, a).(check := m))
  }

  /** The tree with the node at a opened or closed. */
  function SetOpenAt(t: TreeNode, a: Addr, b: bool): (r: TreeNode)
    requires ValidAddr(t, a)
    ensures ValidAddr(r, a) && NodeAt(r, a) == NodeAt(t, a).(open := b)
  {
    ReplaceAtNode(t, a, NodeAt(t, a).(open := b));
    ReplaceAt(t, a, NodeAt(t, a).(open := b))
  }

  /** Changing a node's checkbox or open flag keeps every address valid that the node's own is a prefix of,
      and keeps the node's own full path. */
  lemma SetFieldKeepsPath(t: TreeNode, root: string, a: Addr, n: TreeNode)
    requires ValidAddr(t, a) && n.text == NodeAt(t, a).text && n.children == NodeAt(t, a).children
    ensures ValidAddr(ReplaceAt(t, a, n), a)
    ensures NodeAt(ReplaceAt(t, a, n), a) == n
    ensures FullPath(ReplaceAt(t, a, n), root, a) == FullPath(t, root, a)
  {
    ReplaceAtNode(t, a, n);
    FullPathAfterReplaceAt(t, root, a, n);
  }

  /** The first child whose text is name (the loop over get_children in select_tree_item_contents). */
  function IndexOfText(cs: seq<TreeNode>, name: string): (r: Option<nat>)
    ensures r.Some? ==> r.value < |cs| && cs[r.value].text == name
    ensures r.Some? ==> forall j :: 0 <= j < r.value ==> cs[j].text != name
    ensures r.None? ==> forall j :: 0 <= j < |cs| ==> cs[j].text != name
  {
    FirstIndex(cs, (c: TreeNode) => c.text == name)
  }

  /** Ticks the first child of the node at a whose text is name, if it has one. */
  function MarkChild(t: TreeNode, a: Addr, name: string): (r: TreeNode)
    requires ValidAddr(t, a)
    ensures ValidAddr(r, a)
    ensures NodeAt(r, a).text == NodeAt(t, a).text && NodeAt(r, a).open == NodeAt(t, a).open
    ensures NodeAt(r, a).kind == NodeAt(t, a).kind
    ensures EntriesOf(NodeAt(r, a).children) == EntriesOf(NodeAt(t, a).children)
  {
    match IndexOfText(NodeAt(t, a).children, name)
    case None => t
    case Some(j) =>
      NodeAtAppend(t, a, j);
      var r := SetCheckAt(t, a + [j], Checked);
      ReplaceAtPrefix(t, a + [j], NodeAt(t, a + [j]).(check := Checked), |a|);
      assert (a + [j])[..|a|] == a && (a + [j])[|a|..] == [j];
      var parent := NodeAt(t, a);
      assert NodeAt(r, a) == ReplaceAt(parent, [j], parent.children[j].(check := Checked));
      assert EntriesOf(NodeAt(r, a).children) == EntriesOf(parent.children);
      r
  }
}
