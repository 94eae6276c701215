/**
  The orchestrator's item getters (`get_pending_items`, `get_approved_items`).
  A folder listing is filtered, then sorted by modification time with
  Python's stable `sorted`. A listing that fails gives no items at all.
 */
module Items {
  import opened Text
  import opened Paths
  import opened Watcher

  /** What `stat` and `read_text` report for a directory entry. */
  datatype Node = Node(isFile: bool, mtime: int, content: string)

  /** One entry of a folder listing: its name and what is behind it. */
  datatype Entry = Entry(name: string, node: Node)

  /** The outcome of listing a folder: its entries in listing order, or an error from
      `iterdir` or from a `stat` made while sorting. */
  datatype Listing = Listed(entries: seq<Entry>) | ListFailed

  /** The Needs_Action filter: a regular file, suffix `.md`, not hidden. */
  predicate IsPending(e: Entry) {
    e.node.isFile && Suffix(e.name) == ".md" && !StartsWith(e.name, ".")
  }

  /** The Approved filter: a regular file with suffix `.md` (hidden names are not excluded). */
  predicate IsApproved(e: Entry) {
    e.node.isFile && Suffix(e.name) == ".md"
  }

  /** The list comprehension `[f for f in es if p(f)]`. */
  function Select(es: seq<Entry>, p: Entry -> bool): seq<Entry>
    decreases |es|
  {
    if |es| == 0 then []
    else Select(es[..|es| - 1], p) + (if p(es[|es| - 1]) then [es[|es| - 1]] else [])
  }

  /** The entries with modification time `t`, in their order. */
  function AtTime(es: seq<Entry>, t: int): seq<Entry>
    decreases |es|
  {
    if |es| == 0 then []
    else AtTime(es[..|es| - 1], t) + (if es[|es| - 1].node.mtime == t then [es[|es| - 1]] else [])
  }

  predicate Sorted(es: seq<Entry>) {
    forall i, j :: 0 <= i < j < |es| ==> es[i].node.mtime <= es[j].node.mtime
  }

  /** Insert `e` after every entry whose time is not later than its own. */
  function InsertLast(s: seq<Entry>, e: Entry): seq<Entry>
    decreases |s|
  {
    if |s| == 0 || s[|s| - 1].node.mtime <= e.node.mtime then s + [e]
    else InsertLast(s[..|s| - 1], e) + [s[|s| - 1]]
  }

  /** `sorted(es, key=mtime)`, as a stable insertion sort. */
  function SortByMtime(es: seq<Entry>): seq<Entry>
    decreases |es|
  {
    if |es| == 0 then [] else InsertLast(SortByMtime(es[..|es| - 1]), es[|es| - 1])
  }

  /** `get_pending_items`. */
  function PendingItems(l: Listing): seq<Entry> {
    match l
    case ListFailed => []
    case Listed(es) => SortByMtime(Select(es, IsPending))
  }

  /** `get_approved_items`. */
  function ApprovedItems(l: Listing): seq<Entry> {
    match l
    case ListFailed => []
    case Listed(es) => SortByMtime(Select(es, IsApproved))
  }

  lemma {:induction false} SelectCounts(es: seq<Entry>, p: Entry -> bool)
    ensures forall e :: multiset(Select(es, p))[e] == if p(e) then multiset(es)[e] else 0
    decreases |es|
  {
    if |es| > 0 {
      var init := es[..|es| - 1];
      SelectCounts(init, p);
      assert es == init + [es[|es| - 1]];
    }
  }

  lemma {:induction false} SelectAll(es: seq<Entry>, p: Entry -> bool)
    ensures forall i :: 0 <= i < |Select(es, p)| ==> p(Select(es, p)[i])
    decreases |es|
  {
    if |es| > 0 {
      SelectAll(es[..|es| - 1], p);
    }
  }

  /** The comprehension keeps exactly the entries that pass the test, each as often as it occurs. */
  lemma SelectExact(es: seq<Entry>, p: Entry -> bool)
    ensures forall e :: e in Select(es, p) <==> e in es && p(e)
    ensures forall e :: p(e) ==> multiset(Select(es, p))[e] == multiset(es)[e]
    ensures forall i :: 0 <= i < |Select(es, p)| ==> p(Select(es, p)[i])
  {
    SelectCounts(es, p);
    SelectAll(es, p);
    forall e ensures e in Select(es, p) <==> e in es && p(e) {
      assert e in Select(es, p) <==> e in multiset(Select(es, p));
      assert e in es <==> e in multiset(es);
    }
  }

  lemma {:induction false} InsertLastPerm(s: seq<Entry>, e: Entry)
    ensures multiset(InsertLast(s, e)) == multiset(s) + multiset{e}
    decreases |s|
  {
    if |s| > 0 && s[|s| - 1].node.mtime > e.node.mtime {
      var init := s[..|s| - 1];
      InsertLastPerm(init, e);
      assert s == init + [s[|s| - 1]];
    }
  }

  lemma {:induction false} InsertLastSorted(s: seq<Entry>, e: Entry)
    requires Sorted(s)
    ensures Sorted(InsertLast(s, e))
    decreases |s|
  {
    if |s| > 0 && s[|s| - 1].node.mtime > e.node.mtime {
      var init := s[..|s| - 1];
      var x := s[|s| - 1];
      var r := InsertLast(init, e);
      InsertLastSorted(init, e);
      InsertLastPerm(init, e);
      forall i | 0 <= i < |r| ensures r[i].node.mtime <= x.node.mtime {
        assert r[i] in multiset(r);
        if r[i] != e {
          assert r[i] in multiset(init);
          var k :| 0 <= k < |init| && init[k] == r[i];
          assert s[k] == r[i];
        }
      }
      assert InsertLast(s, e) == r + [x];
    }
  }

  /** Inserting `e` only moves it past entries with a later time, so per time the order is kept. */
  lemma {:induction false} InsertLastStable(s: seq<Entry>, e: Entry, t: int)
    ensures AtTime(InsertLast(s, e), t) == AtTime(s, t) + (if e.node.mtime == t then [e] else [])
    decreases |s|
  {
    var r := InsertLast(s, e);
    if |s| == 0 || s[|s| - 1].node.mtime <= e.node.mtime {
      assert r[..|r| - 1] == s;
    } else {
      var init := s[..|s| - 1];
      var ri := InsertLast(init, e);
      InsertLastStable(init, e, t);
      assert r == ri + [s[|s| - 1]];
      assert r[..|r| - 1] == ri;
    }
  }

  /** The sort is non-decreasing in time. */
  lemma {:induction false} SortSorted(es: seq<Entry>)
    ensures Sorted(SortByMtime(es))
    decreases |es|
  {
    if |es| > 0 {
      SortSorted(es[..|es| - 1]);
      InsertLastSorted(SortByMtime(es[..|es| - 1]), es[|es| - 1]);
    }
  }

  /** The sort is a permutation. */
  lemma {:induction false} SortPerm(es: seq<Entry>)
    ensures multiset(SortByMtime(es)) == multiset(es)
    decreases |es|
  {
    if |es| > 0 {
      var init := es[..|es| - 1];
      SortPerm(init);
      InsertLastPerm(SortByMtime(init), es[|es| - 1]);
      assert es == init + [es[|es| - 1]];
    }
  }

  /** The sort is stable: entries with equal times keep their listing order. */
  lemma {:induction false} SortStable(es: seq<Entry>, t: int)
    ensures AtTime(SortByMtime(es), t) == AtTime(es, t)
    decreases |es|
  {
    if |es| > 0 {
      var init := es[..|es| - 1];
      SortStable(init, t);
      InsertLastStable(SortByMtime(init), es[|es| - 1], t);
      assert es[..|es| - 1] == init;
    }
  }

  /** The selected entries of a listing, sorted, as both getters compute them. */
  lemma SelectSorted(es: seq<Entry>, p: Entry -> bool, t: int)
    ensures Sorted(SortByMtime(Select(es, p)))
    ensures forall e :: e in SortByMtime(Select(es, p)) <==> e in es && p(e)
    ensures forall e :: p(e) ==> multiset(SortByMtime(Select(es, p)))[e] == multiset(es)[e]
    ensures AtTime(SortByMtime(Select(es, p)), t) == AtTime(Select(es, p), t)
  {
    var sel := Select(es, p);
    SelectExact(es, p);
    SortSorted(sel);
    SortPerm(sel);
    SortStable(sel, t);
    forall e ensures e in SortByMtime(sel) <==> e in sel {
      assert e in SortByMtime(sel) <==> e in multiset(SortByMtime(sel));
    }
  }

  /** `get_pending_items`: nothing on a listing error; otherwise exactly the pending entries,
      as often as listed, non-decreasing in time, and in listing order among equal times. */
  lemma PendingItemsSpec(l: Listing, t: int)
    ensures l.ListFailed? ==> PendingItems(l) == []
    ensures l.Listed? ==> Sorted(PendingItems(l))
    ensures l.Listed? ==> forall e :: e in PendingItems(l) <==> e in l.entries && IsPending(e)
    ensures l.Listed? ==> forall e :: IsPending(e) ==> multiset(PendingItems(l))[e] == multiset(l.entries)[e]
    ensures l.Listed? ==> AtTime(PendingItems(l), t) == AtTime(Select(l.entries, IsPending), t)
  {
    if l.Listed? {
      SelectSorted(l.entries, IsPending, t);
    }
  }

  /** `get_approved_items`: the same rule with the Approved filter. */
  lemma ApprovedItemsSpec(l: Listing, t: int)
    ensures l.ListFailed? ==> ApprovedItems(l) == []
    ensures l.Listed? ==> Sorted(ApprovedItems(l))
    ensures l.Listed? ==> forall e :: e in ApprovedItems(l) <==> e in l.entries && IsApproved(e)
    ensures l.Listed? ==> forall e :: IsApproved(e) ==> multiset(ApprovedItems(l))[e] == multiset(l.entries)[e]
    ensures l.Listed? ==> AtTime(ApprovedItems(l), t) == AtTime(Select(l.entries, IsApproved), t)
  {
    if l.Listed? {
      SelectSorted(l.entries, IsApproved, t);
    }
  }

  /** A hidden `.md` file is approved but never pending. */
  lemma HiddenOnlyApproved(e: Entry)
    ensures IsPending(e) ==> IsApproved(e)
    ensures StartsWith(e.name, ".") ==> !IsPending(e)
  {
  }

  /** Every action file a watcher writes (a regular file named by `_generate_filename` with a
      prefix that does not start with a dot) is picked up as a pending item. */
  lemma WatcherFilesPending(prefix: string, uniqueId: string, timestamp: string, node: Node)
    requires node.isFile
    requires !StartsWith(prefix, ".")
    ensures IsPending(Entry(GenerateFilename(prefix, uniqueId, timestamp), node))
  {
    var name := GenerateFilename(prefix, uniqueId, timestamp);
    GeneratedNameShape(prefix, uniqueId, timestamp);
    if |prefix| > 0 {
      assert name[0] == prefix[0];
      assert prefix[..1] != ".";
    } else {
      assert name[0] == '_';
    }
    assert name[..1] != ".";
  }
}
