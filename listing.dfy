/** The ordering populate_directory_subtree gives a directory listing:
    `items.sort(key=lambda x: (0 if isdir(x) else 1, x.lower()))`. */
module Listing {
  import opened Text

  /** A name os.listdir returned, with what os.path.isdir says of it. */
  datatype DirEntry = DirEntry(name: string, isFolder: bool)

  /** Python's `a <= b` on str: code-point lexicographic order. */
  predicate StrLe(a: string, b: string) {
    if a == [] then true
    else if b == [] then false
    else if a[0] != b[0] then a[0] < b[0]
    else StrLe(a[1..], b[1..])
  }

  lemma {:induction false} StrLeTotal(a: string, b: string)
    ensures StrLe(a, b) || StrLe(b, a)
  {
    if a != [] && b != [] && a[0] == b[0] {
      StrLeTotal(a[1..], b[1..]);
    }
  }

  lemma {:induction false} StrLeTransitive(a: string, b: string, c: string)
    requires StrLe(a, b) && StrLe(b, c)
    ensures StrLe(a, c)
  {
    if a != [] && b != [] && c != [] && a[0] == b[0] == c[0] {
      StrLeTransitive(a[1..], b[1..], c[1..]);
    }
  }

  /** The first component of the sort key: folders 0, files 1. */
  function Rank(e: DirEntry): nat {
    if e.isFolder then 0 else 1
  }

  /** Python's tuple comparison of the two sort keys: key(a) <= key(b). */
  predicate KeyLe(a: DirEntry, b: DirEntry) {
    Rank(a) < Rank(b) || (Rank(a) == Rank(b) && StrLe(Lower(a.name), Lower(b.name)))
  }

  lemma KeyLeTotal(a: DirEntry, b: DirEntry)
    ensures KeyLe(a, b) || KeyLe(b, a)
  {
    StrLeTotal(Lower(a.name), Lower(b.name));
  }

  lemma KeyLeTransitive(a: DirEntry, b: DirEntry, c: DirEntry)
    requires KeyLe(a, b) && KeyLe(b, c)
    ensures KeyLe(a, c)
  {
    if Rank(a) == Rank(b) == Rank(c) {
      StrLeTransitive(Lower(a.name), Lower(b.name), Lower(c.name));
    }
  }

  predicate Sorted(s: seq<DirEntry>) {
    forall i, j :: 0 <= i < j < |s| ==> KeyLe(s[i], s[j])
  }

  /** Insert x after every element whose key is not greater than x's. */
  function Insert(x: DirEntry, s: seq<DirEntry>): seq<DirEntry> {
    if s == [] then [x]
    else if !KeyLe(s[0], x) then [x] + s
    else [s[0]] + Insert(x, s[1..])
  }

  /** The sorted listing: each entry inserted, in listing order, into the sorted prefix. */
  function SortListing(s: seq<DirEntry>): seq<DirEntry> {
    if s == [] then [] else Insert(s[|s| - 1], SortListing(s[..|s| - 1]))
  }

  lemma {:induction false} InsertMultiset(x: DirEntry, s: seq<DirEntry>)
    ensures multiset(Insert(x, s)) == multiset(s) + multiset{x}
  {
    if s != [] && KeyLe(s[0], x) {
      InsertMultiset(x, s[1..]);
      assert s == [s[0]] + s[1..];
    }
  }

  /** Every element of Insert(x, s) is x or an element of s. */
  lemma InsertElements(x: DirEntry, s: seq<DirEntry>, k: nat)
    requires k < |Insert(x, s)|
    ensures Insert(x, s)[k] == x || Insert(x, s)[k] in s
  {
    InsertMultiset(x, s);
    assert Insert(x, s)[k] in multiset(Insert(x, s));
  }

  lemma {:induction false} InsertSorted(x: DirEntry, s: seq<DirEntry>)
    requires Sorted(s)
    ensures Sorted(Insert(x, s))
  {
    if s == [] {
    } else if !KeyLe(s[0], x) {
      KeyLeTotal(s[0], x);
      var r := [x] + s;
      forall i, j | 0 <= i < j < |r| ensures KeyLe(r[i], r[j]) {
        if i > 0 {
          assert r[i] == s[i - 1] && r[j] == s[j - 1];
        } else if j > 1 {
          KeyLeTransitive(x, s[0], s[j - 1]);
        }
      }
    } else {
      var tail := s[1..];
      assert Sorted(tail) by {
        forall i, j | 0 <= i < j < |tail| ensures KeyLe(tail[i], tail[j]) {
          assert tail[i] == s[i + 1] && tail[j] == s[j + 1];
        }
      }
      InsertSorted(x, tail);
      var ins := Insert(x, tail);
      var r := [s[0]] + ins;
      forall k | 0 <= k < |ins| ensures KeyLe(s[0], ins[k]) {
        InsertElements(x, tail, k);
        if ins[k] != x {
          var m :| 0 <= m < |tail| && tail[m] == ins[k];
          assert s[m + 1] == ins[k];
        }
      }
      forall i, j | 0 <= i < j < |r| ensures KeyLe(r[i], r[j]) {
        assert r[j] == ins[j - 1];
        if i > 0 { assert r[i] == ins[i - 1]; }
      }
    }
  }

  /** The sorted listing is ordered by the sort key and holds exactly the listed entries. */
  lemma {:induction false} SortListingProperties(s: seq<DirEntry>)
    ensures Sorted(SortListing(s))
    ensures multiset(SortListing(s)) == multiset(s)
    ensures |SortListing(s)| == |s|
  {
    if s != [] {
      var init := s[..|s| - 1];
      SortListingProperties(init);
      InsertSorted(s[|s| - 1], SortListing(init));
      InsertMultiset(s[|s| - 1], SortListing(init));
      assert s == init + [s[|s| - 1]];
    }
    assert |SortListing(s)| == |multiset(SortListing(s))|;
  }

  /** In a sorted listing every folder comes before every file, and entries of one kind are
      in order of their lower-cased names. */
  lemma FoldersFirst(s: seq<DirEntry>, i: nat, j: nat)
    requires Sorted(s) && i < j < |s|
    ensures s[j].isFolder ==> s[i].isFolder
    ensures s[i].isFolder == s[j].isFolder ==> StrLe(Lower(s[i].name), Lower(s[j].name))
  {
    assert KeyLe(s[i], s[j]);
  }
}
