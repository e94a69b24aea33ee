/**
 * Directory listings as the build scripts read them. A listing is the
 * sequence `os.listdir` returns, in no particular order; each entry carries
 * its name, what `os.path.isfile` / `os.path.isdir` say of it, and its
 * content. `sorted(...)` over the names, followed by a lookup of each name,
 * is `SortByName` over the entries.
 */
module Listing {
  import opened Names
  import opened Wrappers

  datatype Kind = RegularFile | Directory | Special

  /** What an image file holds, as far as the optimiser looks at it (PIL's `img.format`, `img.mode`, size). */
  datatype Content =
    | Picture(format: string, mode: string, width: nat, height: nat)
    | Unreadable

  /** A file's modification time (`os.path.getmtime`, abstract) and what it holds. */
  datatype FileData = FileData(mtime: int, image: Content)

  datatype Entry<C> = Entry(name: string, kind: Kind, content: C)

  /** An entry of a category folder. */
  type FileEntry = Entry<FileData>

  /** An entry of a top-level folder; a directory's content is its own listing. */
  type FolderEntry = Entry<seq<FileEntry>>

  /** The top-level folder: `None` when it does not exist (`os.path.exists` is false). */
  type Tree = Option<seq<FolderEntry>>

  /** `os.path.isdir` of a top-level entry. */
  predicate IsDirectory(c: FolderEntry)
  {
    c.kind == Directory
  }

  ghost predicate Sorted<C>(s: seq<Entry<C>>)
  {
    forall i, j :: 0 <= i < j < |s| ==> LessEq(s[i].name, s[j].name)
  }

  ghost predicate StrictlySorted<C>(s: seq<Entry<C>>)
  {
    forall i, j :: 0 <= i < j < |s| ==> Less(s[i].name, s[j].name)
  }

  /** No two entries of a listing share a name: what a real directory guarantees. */
  ghost predicate DistinctNames<C>(s: seq<Entry<C>>)
  {
    forall i, j :: 0 <= i < j < |s| ==> s[i].name != s[j].name
  }

  /** A list comprehension `[e for e in s if keep(e)]`. */
  function Filter<C(!new)>(s: seq<Entry<C>>, keep: Entry<C> -> bool): (r: seq<Entry<C>>)
    ensures forall e :: e in r <==> e in s && keep(e)
    ensures |r| <= |s|
    decreases |s|
  {
    if s == [] then []
    else
      assert s == s[..|s| - 1] + [s[|s| - 1]];
      Filter(s[..|s| - 1], keep) + (if keep(s[|s| - 1]) then [s[|s| - 1]] else [])
  }

  /** Filtering keeps a strictly ascending listing ascending, and distinct names distinct. */
  lemma {:induction false} FilterKeepsOrder<C(!new)>(s: seq<Entry<C>>, keep: Entry<C> -> bool)
    ensures StrictlySorted(s) ==> StrictlySorted(Filter(s, keep))
    ensures DistinctNames(s) ==> DistinctNames(Filter(s, keep))
    decreases |s|
  {
    if s != [] {
      var init, last := s[..|s| - 1], s[|s| - 1];
      FilterKeepsOrder(init, keep);
      var ri := Filter(init, keep);
      var r := Filter(s, keep);
      if keep(last) {
        assert r == ri + [last];
        // every kept entry of `init` sits at some index before `last`
        forall i | 0 <= i < |ri|
          ensures Less(ri[i].name, last.name) <== StrictlySorted(s)
          ensures ri[i].name != last.name <== DistinctNames(s)
        {
          assert ri[i] in init;
          var k :| 0 <= k < |init| && init[k] == ri[i];
          assert s[k] == ri[i];
        }
      } else {
        assert r == ri;
      }
    }
  }

  /** Inserts `e` into a listing in front of the first name not below its own. */
  function Insert<C(!new)>(e: Entry<C>, s: seq<Entry<C>>): (r: seq<Entry<C>>)
    ensures multiset(r) == multiset(s) + multiset{e}
    ensures forall x :: x in r <==> x == e || x in s
    decreases |s|
  {
    if s == [] then [e]
    else if !Less(s[0].name, e.name) then
      assert s == [s[0]] + s[1..];
      [e] + s
    else
      assert s == [s[0]] + s[1..];
      [s[0]] + Insert(e, s[1..])
  }

  /** An entry not above any name of a sorted listing may head it. */
  lemma ConsSorted<C>(a: Entry<C>, rest: seq<Entry<C>>)
    ensures Sorted(rest) && (forall j :: 0 <= j < |rest| ==> LessEq(a.name, rest[j].name)) ==> Sorted([a] + rest)
    ensures StrictlySorted(rest) && (forall j :: 0 <= j < |rest| ==> Less(a.name, rest[j].name)) ==> StrictlySorted([a] + rest)
  {
    var r := [a] + rest;
    assert forall j :: 0 < j < |r| ==> r[j] == rest[j - 1];
  }

  /** Insertion into a sorted listing keeps it sorted, strictly so for a new name. */
  lemma {:induction false} InsertSorted<C(!new)>(e: Entry<C>, s: seq<Entry<C>>)
    requires Sorted(s)
    ensures Sorted(Insert(e, s))
    ensures StrictlySorted(s) && (forall x :: x in s ==> x.name != e.name) ==> StrictlySorted(Insert(e, s))
    decreases |s|
  {
    if s == [] {
    } else if !Less(s[0].name, e.name) {
      InsertInFront(e, s);
    } else {
      var tail := s[1..];
      assert s == [s[0]] + tail;
      InsertSorted(e, tail);
      var rest := Insert(e, tail);
      assert Insert(e, s) == [s[0]] + rest;
      var strict := StrictlySorted(s) && (forall x :: x in s ==> x.name != e.name);
      forall j | 0 <= j < |rest|
        ensures LessEq(s[0].name, rest[j].name)
        ensures strict ==> Less(s[0].name, rest[j].name)
      {
        if rest[j] != e {
          assert rest[j] in tail;
          var k :| 0 <= k < |tail| && tail[k] == rest[j];
          assert s[k + 1] == rest[j];
        }
      }
      assert StrictlySorted(tail) <== StrictlySorted(s);
      ConsSorted(s[0], rest);
    }
  }

  /** An entry whose name is not above the first name of a sorted listing may go in front of it. */
  lemma InsertInFront<C>(e: Entry<C>, s: seq<Entry<C>>)
    requires Sorted(s) && s != [] && !Less(s[0].name, e.name)
    ensures Sorted([e] + s)
    ensures StrictlySorted(s) && (forall x :: x in s ==> x.name != e.name) ==> StrictlySorted([e] + s)
  {
    LessTotal(s[0].name, e.name);
    forall j | 0 <= j < |s| ensures LessEq(e.name, s[j].name) {
      LessEqTransitive(e.name, s[0].name, s[j].name);
    }
    if StrictlySorted(s) && (forall x :: x in s ==> x.name != e.name) {
      assert e.name != s[0].name;
      forall j | 0 <= j < |s| ensures Less(e.name, s[j].name) {
        if j > 0 {
          LessTransitive(e.name, s[0].name, s[j].name);
        }
      }
    }
  }

  /** Python's `sorted` on the names of a listing (an insertion sort). */
  function SortByName<C(!new)>(s: seq<Entry<C>>): (r: seq<Entry<C>>)
    ensures multiset(r) == multiset(s)
    ensures forall x :: x in r <==> x in s
    decreases |s|
  {
    if s == [] then []
    else
      assert s == [s[0]] + s[1..];
      Insert(s[0], SortByName(s[1..]))
  }

  /** `SortByName` sorts, strictly when the names are distinct. */
  lemma {:induction false} SortByNameSorts<C(!new)>(s: seq<Entry<C>>)
    ensures Sorted(SortByName(s))
    ensures DistinctNames(s) ==> StrictlySorted(SortByName(s))
    decreases |s|
  {
    if s != [] {
      assert s == [s[0]] + s[1..];
      SortByNameSorts(s[1..]);
      var rest := SortByName(s[1..]);
      InsertSorted(s[0], rest);
      if DistinctNames(s) {
        assert DistinctNames(s[1..]);
        forall x | x in rest ensures x.name != s[0].name {
          var j :| 0 <= j < |s[1..]| && s[1..][j] == x;
          assert s[j + 1] == x;
        }
      }
    }
  }

  /** `[f for f in names if os.path.exists(f)]`, keeping the order of `names`. */
  function Existing(names: seq<string>, present: set<string>): (r: seq<string>)
    ensures |r| <= |names|
    decreases |names|
  {
    if names == [] then []
    else Existing(names[..|names| - 1], present)
         + (if names[|names| - 1] in present then [names[|names| - 1]] else [])
  }

  /** The names kept are exactly those of the list that exist. */
  lemma {:induction false} ExistingMembers(names: seq<string>, present: set<string>)
    ensures forall f :: f in Existing(names, present) <==> f in names && f in present
    decreases |names|
  {
    if names != [] {
      ExistingMembers(names[..|names| - 1], present);
      assert names == names[..|names| - 1] + [names[|names| - 1]];
    }
  }

  lemma ExistingSnoc(init: seq<string>, last: string, present: set<string>)
    ensures Existing(init + [last], present) == Existing(init, present) + (if last in present then [last] else [])
  {
    assert (init + [last])[..|init|] == init;
  }

  /** The existing names of a list followed by another: those of the first list come first. */
  lemma {:induction false} ExistingAppend(a: seq<string>, b: seq<string>, present: set<string>)
    ensures Existing(a + b, present) == Existing(a, present) + Existing(b, present)
    decreases |b|
  {
    if b != [] {
      var init, last := b[..|b| - 1], b[|b| - 1];
      ExistingAppend(a, init, present);
      assert b == init + [last];
      assert a + b == (a + init) + [last];
      ExistingSnoc(a + init, last, present);
      ExistingSnoc(init, last, present);
    } else {
      assert a + b == a;
    }
  }
}
