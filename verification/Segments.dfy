/**
 The pre-roll segments of a directory as values: which entries are eligible, their
 stable order by modification time, and what removing entries does to that order.
 */
module Segments {
  import opened Wrappers

  /** A directory entry; `statFails` is a file that vanished or cannot be examined. */
  datatype Entry = File(size: nat, mtime: real, statFails: bool) | Subdirectory

  datatype Segment = Segment(name: string, mtime: real)

  const MIN_SIZE: nat := 1024

  predicate Eligible(e: Entry) {
    e.File? && !e.statFails && e.size >= MIN_SIZE
  }

  /** The eligible names of a listing, with their times, in listing order. */
  function Collect(names: seq<string>, entries: map<string, Entry>): seq<Segment> {
    if names == [] then []
    else (if names[0] in entries && Eligible(entries[names[0]])
          then [Segment(names[0], entries[names[0]].mtime)] else [])
         + Collect(names[1..], entries)
  }

  function Insert(x: Segment, ys: seq<Segment>): seq<Segment> {
    if ys == [] || x.mtime <= ys[0].mtime then [x] + ys else [ys[0]] + Insert(x, ys[1..])
  }

  /** `list.sort(key=mtime)`: ascending and stable. */
  function SortByTime(xs: seq<Segment>): seq<Segment> {
    if xs == [] then [] else Insert(xs[0], SortByTime(xs[1..]))
  }

  /** `list_preroll_segments` on a listing that can be read. */
  function SegmentsOf(names: seq<string>, entries: map<string, Entry>): seq<Segment> {
    SortByTime(Collect(names, entries))
  }

  function Without(xs: seq<Segment>, gone: set<string>): seq<Segment> {
    if xs == [] then []
    else (if xs[0].name in gone then [] else [xs[0]]) + Without(xs[1..], gone)
  }

  function NamesWithout(names: seq<string>, gone: set<string>): seq<string> {
    if names == [] then []
    else (if names[0] in gone then [] else [names[0]]) + NamesWithout(names[1..], gone)
  }

  ghost predicate Ascending(xs: seq<Segment>) {
    forall i, j | 0 <= i < j < |xs| :: xs[i].mtime <= xs[j].mtime
  }

  ghost predicate DistinctNames(xs: seq<Segment>) {
    forall i, j | 0 <= i < j < |xs| :: xs[i].name != xs[j].name
  }

  ghost predicate Distinct(names: seq<string>) {
    forall i, j | 0 <= i < j < |names| :: names[i] != names[j]
  }

  // ---- Sorting ----

  lemma {:induction false} InsertAdds(x: Segment, ys: seq<Segment>)
    ensures multiset(Insert(x, ys)) == multiset(ys) + multiset{x}
    ensures forall s | s in Insert(x, ys) :: s == x || s in ys
  {
    if ys != [] && x.mtime > ys[0].mtime {
      assert ys == [ys[0]] + ys[1..];
      InsertAdds(x, ys[1..]);
    }
  }

  lemma AscendingCons(y: Segment, ys: seq<Segment>)
    requires Ascending(ys) && forall s | s in ys :: y.mtime <= s.mtime
    ensures Ascending([y] + ys)
  {
  }

  lemma {:induction false} InsertSorts(x: Segment, ys: seq<Segment>)
    requires Ascending(ys)
    ensures Ascending(Insert(x, ys))
  {
    if ys == [] || x.mtime <= ys[0].mtime {
      AscendingCons(x, ys);
    } else {
      InsertSorts(x, ys[1..]);
      InsertAdds(x, ys[1..]);
      AscendingCons(ys[0], Insert(x, ys[1..]));
    }
  }

  lemma {:induction false} SortSorts(xs: seq<Segment>)
    ensures Ascending(SortByTime(xs)) && multiset(SortByTime(xs)) == multiset(xs)
  {
    if xs != [] {
      SortSorts(xs[1..]);
      InsertSorts(xs[0], SortByTime(xs[1..]));
      InsertAdds(xs[0], SortByTime(xs[1..]));
      assert xs == [xs[0]] + xs[1..];
    }
  }

  /** The segments of one modification time, in order. */
  function AtTime(xs: seq<Segment>, t: real): seq<Segment> {
    if xs == [] then [] else (if xs[0].mtime == t then [xs[0]] else []) + AtTime(xs[1..], t)
  }

  lemma AtTimeCons(x: Segment, ys: seq<Segment>, t: real)
    ensures AtTime([x] + ys, t) == (if x.mtime == t then [x] else []) + AtTime(ys, t)
  {
    assert ([x] + ys)[1..] == ys;
  }

  lemma {:induction false} InsertIsStable(x: Segment, ys: seq<Segment>, t: real)
    ensures AtTime(Insert(x, ys), t) == AtTime([x] + ys, t)
  {
    if ys != [] && x.mtime > ys[0].mtime {
      var y, rest := ys[0], ys[1..];
      InsertIsStable(x, rest, t);
      AtTimeCons(y, Insert(x, rest), t);
      AtTimeCons(x, rest, t);
      AtTimeCons(x, ys, t);
    }
  }

  /** Segments of equal time keep the order of the listing. */
  lemma {:induction false} SortIsStable(xs: seq<Segment>, t: real)
    ensures AtTime(SortByTime(xs), t) == AtTime(xs, t)
  {
    if xs != [] {
      var sorted := SortByTime(xs[1..]);
      SortIsStable(xs[1..], t);
      InsertIsStable(xs[0], sorted, t);
      AtTimeCons(xs[0], sorted, t);
    }
  }

  lemma WithoutCons(x: Segment, ys: seq<Segment>, gone: set<string>)
    ensures Without([x] + ys, gone) == if x.name in gone then Without(ys, gone) else [x] + Without(ys, gone)
  {
    assert ([x] + ys)[1..] == ys;
  }

  lemma InsertInFront(x: Segment, ys: seq<Segment>)
    requires forall y | y in ys :: x.mtime <= y.mtime
    ensures Insert(x, ys) == [x] + ys
  {
  }

  /** Removing names commutes with inserting into an ascending list. */
  lemma {:induction false} WithoutInsert(x: Segment, ys: seq<Segment>, gone: set<string>)
    requires Ascending(ys)
    ensures Without(Insert(x, ys), gone) ==
            if x.name in gone then Without(ys, gone) else Insert(x, Without(ys, gone))
  {
    if ys == [] || x.mtime <= ys[0].mtime {
      WithoutCons(x, ys, gone);
      WithoutKeepsBound(ys, gone, x.mtime);
      InsertInFront(x, Without(ys, gone));
    } else {
      var y, rest := ys[0], ys[1..];
      WithoutInsert(x, rest, gone);
      WithoutCons(y, Insert(x, rest), gone);
      WithoutCons(y, rest, gone);
      assert ys == [y] + rest;
      assert ([y] + Without(rest, gone))[1..] == Without(rest, gone);
    }
  }

  lemma {:induction false} WithoutKeepsBound(ys: seq<Segment>, gone: set<string>, t: real)
    requires forall y | y in ys :: t <= y.mtime
    ensures forall y | y in Without(ys, gone) :: t <= y.mtime
  {
    if ys != [] { WithoutKeepsBound(ys[1..], gone, t); }
  }

  lemma {:induction false} WithoutSort(xs: seq<Segment>, gone: set<string>)
    ensures Without(SortByTime(xs), gone) == SortByTime(Without(xs, gone))
  {
    if xs != [] {
      WithoutSort(xs[1..], gone);
      SortSorts(xs[1..]);
      WithoutInsert(xs[0], SortByTime(xs[1..]), gone);
      WithoutCons(xs[0], xs[1..], gone);
      assert xs == [xs[0]] + xs[1..];
      assert ([xs[0]] + Without(xs[1..], gone))[1..] == Without(xs[1..], gone);
    }
  }

  lemma {:induction false} WithoutCollect(names: seq<string>, entries: map<string, Entry>, gone: set<string>)
    ensures Collect(NamesWithout(names, gone), entries - gone) == Without(Collect(names, entries), gone)
  {
    if names != [] {
      WithoutCollect(names[1..], entries, gone);
      var rest := Collect(names[1..], entries);
      if names[0] in entries && Eligible(entries[names[0]]) {
        assert Collect(names, entries)[1..] == rest;
      } else {
        assert Collect(names, entries) == rest;
      }
      if names[0] in gone {
        assert NamesWithout(names, gone) == NamesWithout(names[1..], gone);
      } else {
        assert NamesWithout(names, gone)[1..] == NamesWithout(names[1..], gone);
      }
    }
  }

  /** Removing entries removes their segments and leaves the order of the others. */
  lemma RemovalKeepsOrder(names: seq<string>, entries: map<string, Entry>, gone: set<string>)
    ensures SegmentsOf(NamesWithout(names, gone), entries - gone) == Without(SegmentsOf(names, entries), gone)
  {
    WithoutCollect(names, entries, gone);
    WithoutSort(Collect(names, entries), gone);
  }

  // ---- Distinct names ----

  lemma {:induction false} CollectTakesFromListing(names: seq<string>, entries: map<string, Entry>)
    requires Distinct(names)
    ensures DistinctNames(Collect(names, entries))
    ensures forall s | s in Collect(names, entries) ::
              s.name in names && s.name in entries && Eligible(entries[s.name]) && s.mtime == entries[s.name].mtime
    ensures forall n | n in names && n in entries && Eligible(entries[n]) ::
              Segment(n, entries[n].mtime) in Collect(names, entries)
  {
    if names != [] {
      CollectTakesFromListing(names[1..], entries);
      var rest := Collect(names[1..], entries);
      assert names[0] !in names[1..];
      if names[0] in entries && Eligible(entries[names[0]]) {
        assert Collect(names, entries) == [Segment(names[0], entries[names[0]].mtime)] + rest;
      } else {
        assert Collect(names, entries) == rest;
      }
    }
  }

  lemma {:induction false} InsertKeepsDistinct(x: Segment, ys: seq<Segment>)
    requires DistinctNames(ys) && forall y | y in ys :: y.name != x.name
    ensures DistinctNames(Insert(x, ys))
    ensures forall s :: s in Insert(x, ys) <==> s == x || s in ys
  {
    if ys != [] && x.mtime > ys[0].mtime {
      InsertKeepsDistinct(x, ys[1..]);
      assert ys == [ys[0]] + ys[1..];
      forall s | s in Insert(x, ys[1..]) ensures s.name != ys[0].name {
        if s != x {
          var i :| 0 <= i < |ys[1..]| && ys[1..][i] == s;
          assert ys[i + 1] == s;
        }
      }
    }
  }

  lemma {:induction false} SortKeepsDistinct(xs: seq<Segment>)
    requires DistinctNames(xs)
    ensures DistinctNames(SortByTime(xs))
    ensures forall s :: s in SortByTime(xs) <==> s in xs
  {
    if xs != [] {
      SortKeepsDistinct(xs[1..]);
      forall y | y in SortByTime(xs[1..]) ensures y.name != xs[0].name {
        var i :| 0 <= i < |xs[1..]| && xs[1..][i] == y;
        assert xs[i + 1] == y;
      }
      InsertKeepsDistinct(xs[0], SortByTime(xs[1..]));
      assert xs == [xs[0]] + xs[1..];
    }
  }

  /** The list is ascending, names each eligible entry of the listing once, and nothing else. */
  lemma SegmentsAreTheEligible(names: seq<string>, entries: map<string, Entry>)
    requires Distinct(names)
    ensures var segs := SegmentsOf(names, entries);
      && Ascending(segs) && DistinctNames(segs)
      && (forall s :: s in segs <==>
            s.name in names && s.name in entries && Eligible(entries[s.name]) && s.mtime == entries[s.name].mtime)
      && (forall s | s in segs :: var e := entries[s.name]; e.File? && !e.statFails && e.size >= 1024)
      && (forall n, size: nat, mtime |
            n in names && Get(entries, n) == Some(File(size, mtime, false)) && size >= 1024 ::
            Segment(n, mtime) in segs)
  {
    var xs := Collect(names, entries);
    CollectTakesFromListing(names, entries);
    SortSorts(xs);
    SortKeepsDistinct(xs);
    forall s: Segment | s.name in names && s.name in entries && Eligible(entries[s.name])
                        && s.mtime == entries[s.name].mtime
      ensures s in xs
    {
      assert s == Segment(s.name, entries[s.name].mtime);
    }
  }

  // ---- Dropping the oldest ----

  function NamesOf(xs: seq<Segment>): set<string> {
    set s | s in xs :: s.name
  }

  lemma {:induction false} WithoutAbsent(xs: seq<Segment>, gone: set<string>)
    requires forall s | s in xs :: s.name !in gone
    ensures Without(xs, gone) == xs
  {
    if xs != [] { WithoutAbsent(xs[1..], gone); }
  }

  lemma {:induction false} WithoutFront(xs: seq<Segment>, k: nat)
    requires k <= |xs| && DistinctNames(xs)
    ensures Without(xs, NamesOf(xs[..k])) == xs[k..]
  {
    WithoutSplit(xs, k, NamesOf(xs[..k]));
  }

  lemma {:induction false} WithoutSplit(xs: seq<Segment>, k: nat, gone: set<string>)
    requires k <= |xs|
    requires forall i | 0 <= i < |xs| :: xs[i].name in gone <==> i < k
    ensures Without(xs, gone) == xs[k..]
  {
    if k == 0 {
      WithoutAbsent(xs, gone);
    } else {
      WithoutSplit(xs[1..], k - 1, gone);
    }
  }
}
