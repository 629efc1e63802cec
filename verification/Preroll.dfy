/** The pre-roll cache directory of one camera, as listing and pruning use and change it. */
module Preroll {
  import opened Wrappers
  import opened Text
  import opened Segments

  function PruneCount(n: nat, maxSegments: int): (k: nat)
    ensures k <= n
  {
    if maxSegments <= 0 then n else if n <= maxSegments then 0 else n - maxSegments
  }

  class CameraDir {
    const isDir: bool          // os.path.isdir
    var listFails: bool        // os.listdir raises
    var names: seq<string>     // the order in which os.listdir yields the names
    var entries: map<string, Entry>

    ghost predicate Valid() reads this {
      Distinct(names) && forall n :: n in names <==> n in entries
    }

    /** What `list_preroll_segments` returns. */
    function Listed(): seq<Segment> reads this {
      if !isDir || listFails then [] else SegmentsOf(names, entries)
    }

    /** `list_preroll_segments`. */
    method ListPrerollSegments() returns (segs: seq<Segment>)
      ensures segs == Listed()
    {
      segs := [];
      if !isDir || listFails {
        return;
      }
      var i := 0;
      while i < |names|
        invariant 0 <= i <= |names|
        invariant segs + Collect(names[i..], entries) == Collect(names, entries)
      {
        var name := names[i];
        CollectStep(names, i, entries);
        i := i + 1;
        if name !in entries || !entries[name].File? {
          continue;
        }
        var st := entries[name];
        if st.statFails {
          continue;
        }
        if st.size < MIN_SIZE {
          continue;
        }
        Regroup(segs, [Segment(name, st.mtime)], Collect(names[i..], entries));
        segs := segs + [Segment(name, st.mtime)];
      }
      assert names[|names|..] == [] && segs + [] == segs;
      segs := SortByTime(segs);
    }

    /**
     `newest_preroll_path`: an eligible entry that none is newer than, the last of the
     listing among those of its time; None exactly when there is none to be seen.
     */
    method NewestPrerollPath() returns (newest: Option<string>)
      requires Valid()
      ensures newest.None? <==> !isDir || listFails || forall n | n in entries :: !Eligible(entries[n])
      ensures newest.Some? ==>
                && newest.value in entries && Eligible(entries[newest.value])
                && forall n | n in entries && Eligible(entries[n]) :: entries[n].mtime <= entries[newest.value].mtime
      ensures newest.Some? ==> Listed() != [] && newest.value == Listed()[|Listed()| - 1].name
    {
      var segs := ListPrerollSegments();
      if isDir && !listFails {
        LastIsNewest(names, entries);
      }
      newest := if segs == [] then None else Some(segs[|segs| - 1].name);
    }

    /** `os.unlink`; it raises for the names in `stuck`. */
    method Unlink(name: string, stuck: set<string>) returns (ok: bool)
      requires Valid() && name in entries
      modifies this`names, this`entries
      ensures Valid()
      ensures ok <==> name !in stuck
      ensures names == NamesWithout(old(names), if ok then {name} else {})
      ensures entries == old(entries) - (if ok then {name} else {})
    {
      ok := name !in stuck;
      if ok {
        NamesWithoutIs(names, {name});
        names := NamesWithout(names, {name});
        entries := entries - {name};
      } else {
        NothingGone(names);
      }
    }

    /**
     `prune_preroll_cache`: it removes the oldest segments beyond the limit, except those
     that cannot be removed, touches nothing else, and returns how many it removed.
     */
    method PrunePrerollCache(maxSegments: int, stuck: set<string>) returns (deleted: nat)
      requires Valid()
      modifies this`names, this`entries
      ensures Valid()
      ensures var gone := Removed(old(Listed())[..PruneCount(|old(Listed())|, maxSegments)], stuck);
        && entries == old(entries) - gone
        && names == NamesWithout(old(names), gone)
        && deleted == |gone| == |old(entries)| - |entries|
    {
      var segs := ListPrerollSegments();
      var excess := |segs| - maxSegments;
      var k := if excess < 0 then 0 else excess;
      var toDelete := segs[..if k < |segs| then k else |segs|];
      if isDir && !listFails {
        OldestAreRemovable(names, entries, |toDelete|);
      }
      deleted := RemoveAll(toDelete, stuck);
    }

    /** The loop over the segments to delete, with its counter. */
    method RemoveAll(toDelete: seq<Segment>, stuck: set<string>) returns (deleted: nat)
      requires Valid() && Removable(toDelete, entries)
      modifies this`names, this`entries
      ensures Valid()
      ensures entries == old(entries) - Removed(toDelete, stuck)
      ensures names == NamesWithout(old(names), Removed(toDelete, stuck))
      ensures deleted == |Removed(toDelete, stuck)| == |old(entries)| - |entries|
    {
      deleted := 0;
      NothingGone(names);
      assert Removed(toDelete[..0], stuck) == {};
      for i := 0 to |toDelete|
        invariant Valid()
        invariant entries == old(entries) - Removed(toDelete[..i], stuck)
        invariant names == NamesWithout(old(names), Removed(toDelete[..i], stuck))
        invariant deleted == |Removed(toDelete[..i], stuck)|
      {
        var path := toDelete[i].name;
        OneMoreGone(old(names), old(entries), toDelete, i, stuck);
        var ok := Unlink(path, stuck);
        if ok {
          deleted := deleted + 1;
        }
      }
      assert toDelete[..|toDelete|] == toDelete;
      RemovedAreThere(toDelete, old(entries), stuck);
      SizeOfDifference(old(entries), Removed(toDelete, stuck));
    }

    /** `prune_and_count`. */
    method PruneAndCount(maxSegments: int, stuck: set<string>) returns (remaining: nat)
      requires Valid()
      modifies this`names, this`entries
      ensures Valid() && remaining == |Listed()|
      ensures stuck == {} ==> remaining == |old(Listed())| - PruneCount(|old(Listed())|, maxSegments)
    {
      ghost var names0, entries0, segs0 := names, entries, Listed();
      var _ := PrunePrerollCache(maxSegments, stuck);
      var segs := ListPrerollSegments();
      remaining := |segs|;
      if stuck == {} && isDir && !listFails {
        PruneKeepsTheNewest(names0, entries0, maxSegments);
        ghost var k := PruneCount(|segs0|, maxSegments);
        assert Removed(segs0[..k], {}) == NamesOf(segs0[..k]);
      }
    }
  }

  lemma LastIsNewest(names: seq<string>, entries: map<string, Entry>)
    requires Distinct(names) && forall n :: n in names <==> n in entries
    ensures var segs := SegmentsOf(names, entries);
      && (segs == [] <==> forall n | n in entries :: !Eligible(entries[n]))
      && (segs != [] ==> var last := segs[|segs| - 1].name;
            && last in entries && Eligible(entries[last])
            && forall n | n in entries && Eligible(entries[n]) :: entries[n].mtime <= entries[last].mtime)
  {
    var segs := SegmentsOf(names, entries);
    SegmentsAreTheEligible(names, entries);
    forall n | n in entries && Eligible(entries[n])
      ensures segs != [] && entries[n].mtime <= segs[|segs| - 1].mtime
    {
      assert Segment(n, entries[n].mtime) in segs;
    }
    if segs != [] { assert segs[|segs| - 1] in segs; }
  }

  lemma CollectStep(names: seq<string>, i: nat, entries: map<string, Entry>)
    requires i < |names|
    ensures var rest := Collect(names[i + 1..], entries); var name := names[i];
            Collect(names[i..], entries) ==
            if name in entries && Eligible(entries[name]) then [Segment(name, entries[name].mtime)] + rest else rest
  {
    assert names[i..][0] == names[i] && names[i..][1..] == names[i + 1..];
  }

  /** Segments that can be unlinked one after the other. */
  ghost predicate Removable(segs: seq<Segment>, entries: map<string, Entry>) {
    DistinctNames(segs) && forall i | 0 <= i < |segs| :: segs[i].name in entries
  }

  lemma OldestAreRemovable(names: seq<string>, entries: map<string, Entry>, k: nat)
    requires Distinct(names) && k <= |SegmentsOf(names, entries)|
    ensures Removable(SegmentsOf(names, entries)[..k], entries)
  {
    SegmentsAreTheEligible(names, entries);
    var segs := SegmentsOf(names, entries);
    forall i | 0 <= i < k ensures segs[..k][i].name in entries { assert segs[i] in segs; }
  }

  lemma MinusTwice(m: map<string, Entry>, a: set<string>, b: set<string>)
    ensures (m - a) - b == m - (a + b)
  {
  }

  lemma RemovedOneMore(segs: seq<Segment>, i: nat, stuck: set<string>)
    requires i < |segs| && DistinctNames(segs)
    ensures segs[i].name !in NamesOf(segs[..i])
    ensures Removed(segs[..i + 1], stuck) ==
            Removed(segs[..i], stuck) + if segs[i].name in stuck then {} else {segs[i].name}
  {
    assert segs[..i + 1] == segs[..i] + [segs[i]];
    assert NamesOf(segs[..i + 1]) == NamesOf(segs[..i]) + {segs[i].name};
  }

  /** What one more turn of the loop does to the directory. */
  lemma OneMoreGone(names: seq<string>, entries: map<string, Entry>, segs: seq<Segment>, i: nat, stuck: set<string>)
    requires i < |segs| && Removable(segs, entries)
    ensures var gone, next := Removed(segs[..i], stuck), Removed(segs[..i + 1], stuck);
      var more := if segs[i].name in stuck then {} else {segs[i].name};
      && segs[i].name in entries - gone
      && |next| == |gone| + |more|
      && (entries - gone) - more == entries - next
      && NamesWithout(NamesWithout(names, gone), more) == NamesWithout(names, next)
  {
    RemovedOneMore(segs, i, stuck);
    var gone := Removed(segs[..i], stuck);
    var more := if segs[i].name in stuck then {} else {segs[i].name};
    MinusTwice(entries, gone, more);
    NamesWithoutTwice(names, gone, more);
  }

  lemma RemovedAreThere(segs: seq<Segment>, entries: map<string, Entry>, stuck: set<string>)
    requires Removable(segs, entries)
    ensures Removed(segs, stuck) <= entries.Keys
  {
  }

  lemma SizeOfDifference(m: map<string, Entry>, gone: set<string>)
    requires gone <= m.Keys
    ensures |gone| == |m| - |m - gone|
  {
    assert (m - gone).Keys == m.Keys - gone;
    assert |m.Keys| == |m| && |(m - gone).Keys| == |m - gone|;
  }

  lemma PruneLeavesTheTail(names: seq<string>, entries: map<string, Entry>, k: nat)
    requires Distinct(names) && k <= |SegmentsOf(names, entries)|
    ensures var gone := NamesOf(SegmentsOf(names, entries)[..k]);
            SegmentsOf(NamesWithout(names, gone), entries - gone) == SegmentsOf(names, entries)[k..]
  {
    var segs := SegmentsOf(names, entries);
    SegmentsAreTheEligible(names, entries);
    RemovalKeepsOrder(names, entries, NamesOf(segs[..k]));
    WithoutFront(segs, k);
  }

  lemma OnlyEligibleAreGone(names: seq<string>, entries: map<string, Entry>, k: nat, n: string)
    requires Distinct(names) && k <= |SegmentsOf(names, entries)|
    requires n in NamesOf(SegmentsOf(names, entries)[..k])
    ensures n in entries && Eligible(entries[n])
  {
    SegmentsAreTheEligible(names, entries);
    var segs := SegmentsOf(names, entries);
    var s :| s in segs[..k] && s.name == n;
    assert s in segs;
  }

  lemma TailIsNewer(segs: seq<Segment>, k: nat, s: Segment, d: Segment)
    requires Ascending(segs) && k <= |segs| && s in segs[k..] && d in segs[..k]
    ensures d.mtime <= s.mtime
  {
    var i :| 0 <= i < |segs[k..]| && segs[k..][i] == s;
    var j :| 0 <= j < k && segs[..k][j] == d;
    assert segs[k + i] == s && segs[j] == d;
  }

  /** Each of the segments left is at least as new as each removed one. */
  ghost predicate TailNewer(segs: seq<Segment>, k: nat)
    requires k <= |segs|
  {
    forall s, d | s in segs[k..] && d in segs[..k] :: d.mtime <= s.mtime
  }

  /** Only eligible segments are removed, so small files and subdirectories are left alone. */
  ghost predicate AllEligible(gone: set<string>, entries: map<string, Entry>) {
    forall n | n in gone :: n in entries && Eligible(entries[n])
  }

  lemma RemovedAreOlder(names: seq<string>, entries: map<string, Entry>, k: nat)
    requires Distinct(names) && k <= |SegmentsOf(names, entries)|
    ensures TailNewer(SegmentsOf(names, entries), k)
    ensures AllEligible(NamesOf(SegmentsOf(names, entries)[..k]), entries)
  {
    var segs := SegmentsOf(names, entries);
    SortSorts(Collect(names, entries));
    forall s, d | s in segs[k..] && d in segs[..k] ensures d.mtime <= s.mtime { TailIsNewer(segs, k, s, d); }
    forall n | n in NamesOf(segs[..k]) ensures n in entries && Eligible(entries[n]) {
      OnlyEligibleAreGone(names, entries, k, n);
    }
  }

  /**
   With no failing removal, pruning to m leaves exactly the newest min(n, m) segments in
   the same order: each at least as new as each removed one, every entry that is not an
   eligible segment untouched, and the newest unchanged when m is at least 1.
   */
  lemma PruneKeepsTheNewest(names: seq<string>, entries: map<string, Entry>, maxSegments: int)
    requires Distinct(names)
    ensures var segs := SegmentsOf(names, entries);
      var k := PruneCount(|segs|, maxSegments);
      var gone := NamesOf(segs[..k]);
      var after := SegmentsOf(NamesWithout(names, gone), entries - gone);
      && after == segs[k..]
      && |after| == (if maxSegments < 0 then 0 else if |segs| <= maxSegments then |segs| else maxSegments)
      && TailNewer(segs, k) && AllEligible(gone, entries)
      && (maxSegments >= 1 && segs != [] ==> after != [] && after[|after| - 1] == segs[|segs| - 1])
  {
    var segs := SegmentsOf(names, entries);
    var k := PruneCount(|segs|, maxSegments);
    PruneLeavesTheTail(names, entries, k);
    RemovedAreOlder(names, entries, k);
  }

  /** The names the loop removes from the segments it is given. */
  ghost function Removed(segs: seq<Segment>, stuck: set<string>): set<string> {
    NamesOf(segs) - stuck
  }

  lemma {:induction false} NothingGone(names: seq<string>)
    ensures NamesWithout(names, {}) == names
  {
    if names != [] { NothingGone(names[1..]); }
  }

  lemma {:induction false} NamesWithoutIs(names: seq<string>, gone: set<string>)
    ensures forall n :: n in NamesWithout(names, gone) <==> n in names && n !in gone
    ensures Distinct(names) ==> Distinct(NamesWithout(names, gone))
  {
    if names != [] {
      NamesWithoutIs(names[1..], gone);
      assert names == [names[0]] + names[1..];
      if Distinct(names) {
        assert names[0] !in names[1..];
      }
    }
  }

  lemma {:induction false} NamesWithoutTwice(names: seq<string>, a: set<string>, b: set<string>)
    ensures NamesWithout(NamesWithout(names, a), b) == NamesWithout(names, a + b)
  {
    if names != [] {
      NamesWithoutTwice(names[1..], a, b);
      var rest := NamesWithout(names[1..], a);
      if names[0] in a {
        assert NamesWithout(names, a) == rest;
      } else {
        assert NamesWithout(names, a) == [names[0]] + rest;
        assert ([names[0]] + rest)[1..] == rest;
      }
    }
  }
}
