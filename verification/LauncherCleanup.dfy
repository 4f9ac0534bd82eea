/**
 The launcher's registry and run directories as the server updates them, one request at a
 time: the retention policy of the cleanup and the rollback of a failed launch.
 */
module LauncherCleanup {
  import opened LauncherRegistry
  import opened Text

  /** An entry under the runs directory; a modification time is missing when the entry vanished
      after it was listed. */
  datatype Entry = Entry(name: RunId, mtime: Option<real>, isDir: bool)

  datatype Dated = Dated(name: RunId, mtime: real)

  /** The directories of a listing that still have a modification time. */
  function DatedDirs(listing: seq<Entry>): seq<Dated> {
    if listing == [] then []
    else
      var e := listing[|listing| - 1];
      DatedDirs(listing[..|listing| - 1])
      + if e.mtime.Some? && e.isDir then [Dated(e.name, e.mtime.value)] else []
  }

  /** A directory is dated exactly when the listing has it with that modification time. */
  lemma {:induction false} DatedExactly(listing: seq<Entry>, name: RunId, mtime: real)
    ensures Dated(name, mtime) in DatedDirs(listing) <==> Entry(name, Some(mtime), true) in listing
  {
    if listing != [] {
      var n := |listing| - 1;
      DatedExactly(listing[..n], name, mtime);
      assert listing == listing[..n] + [listing[n]];
    }
  }

  /** The dated directories come in listing order, each as often as it is listed. */
  lemma {:induction false} DatedInOrder(a: seq<Entry>, b: seq<Entry>)
    ensures DatedDirs(a + b) == DatedDirs(a) + DatedDirs(b)
    ensures |b| == 1 ==>
              DatedDirs(b) == if b[0].mtime.Some? && b[0].isDir then [Dated(b[0].name, b[0].mtime.value)] else []
  {
    if b == [] {
      assert a + b == a;
    } else {
      var n := |b| - 1;
      assert (a + b)[..|a + b| - 1] == a + b[..n] && (a + b)[|a + b| - 1] == b[n];
      DatedInOrder(a, b[..n]);
      if n == 0 {
        assert b[..n] == [];
      }
    }
  }

  // ---- Ranks and the sort -------------------------------------------------------------------

  /** `j` ranks before `i`: newer, or as new and listed earlier. */
  predicate Before(xs: seq<Dated>, j: nat, i: nat)
    requires j < |xs| && i < |xs|
  {
    xs[j].mtime > xs[i].mtime || (xs[j].mtime == xs[i].mtime && j < i)
  }

  function Rank(xs: seq<Dated>, i: nat): nat
    requires i < |xs|
  {
    |set j: nat | j < |xs| && Before(xs, j, i)|
  }

  predicate Descending(s: seq<Dated>) {
    forall i, j | 0 <= i < j < |s| :: s[i].mtime >= s[j].mtime
  }

  /** How many of the leading elements of `s` are at least as new as `t`. */
  function InsertPos(s: seq<Dated>, t: real): (p: nat)
    ensures p <= |s|
    ensures forall k | 0 <= k < p :: s[k].mtime >= t
    ensures p < |s| ==> s[p].mtime < t
  {
    if s == [] || s[0].mtime < t then 0 else 1 + InsertPos(s[1..], t)
  }

  function Insert(s: seq<Dated>, x: Dated): (r: seq<Dated>)
    ensures |r| == |s| + 1
  {
    var p := InsertPos(s, x.mtime);
    s[..p] + [x] + s[p..]
  }

  lemma InsertAt(s: seq<Dated>, x: Dated, k: nat)
    requires k <= |s|
    ensures var p := InsertPos(s, x.mtime);
            Insert(s, x)[k] == if k < p then s[k] else if k == p then x else s[k - 1]
  {
  }

  lemma InsertKeepsDescending(s: seq<Dated>, x: Dated)
    requires Descending(s)
    ensures Descending(Insert(s, x))
  {
    var r := Insert(s, x);
    forall i, j | 0 <= i < j < |r| ensures r[i].mtime >= r[j].mtime {
      InsertAt(s, x, i);
      InsertAt(s, x, j);
    }
  }

  /** A stable sort by descending modification time. */
  function SortDesc(xs: seq<Dated>): (s: seq<Dated>)
    ensures |s| == |xs|
  {
    if xs == [] then [] else Insert(SortDesc(xs[..|xs| - 1]), xs[|xs| - 1])
  }

  lemma {:induction false} SortIsDescending(xs: seq<Dated>)
    ensures Descending(SortDesc(xs))
  {
    if xs != [] {
      SortIsDescending(xs[..|xs| - 1]);
      InsertKeepsDescending(SortDesc(xs[..|xs| - 1]), xs[|xs| - 1]);
    }
  }

  function CountGe(s: seq<Dated>, t: real): nat {
    if s == [] then 0 else CountGe(s[1..], t) + if s[0].mtime >= t then 1 else 0
  }

  lemma {:induction false} CountGeConcat(a: seq<Dated>, b: seq<Dated>, t: real)
    ensures CountGe(a + b, t) == CountGe(a, t) + CountGe(b, t)
  {
    if a == [] {
      assert a + b == b;
    } else {
      assert (a + b)[1..] == a[1..] + b;
      CountGeConcat(a[1..], b, t);
    }
  }

  lemma {:induction false} CountGeSorted(s: seq<Dated>, t: real)
    requires Descending(s)
    ensures CountGe(s, t) == InsertPos(s, t)
  {
    if s != [] {
      CountGeSorted(s[1..], t);
      if s[0].mtime < t {
        assert InsertPos(s[1..], t) == 0;
      }
    }
  }

  lemma CountGeInsert(s: seq<Dated>, x: Dated, t: real)
    ensures CountGe(Insert(s, x), t) == CountGe(s + [x], t)
  {
    var p := InsertPos(s, x.mtime);
    CountGeConcat(s[..p] + [x], s[p..], t);
    CountGeConcat(s[..p], [x], t);
    CountGeConcat(s[..p], s[p..], t);
    assert s[..p] + s[p..] == s;
    CountGeConcat(s, [x], t);
  }

  lemma {:induction false} CountGeSort(xs: seq<Dated>, t: real)
    ensures CountGe(SortDesc(xs), t) == CountGe(xs, t)
  {
    if xs != [] {
      var n := |xs| - 1;
      CountGeSort(xs[..n], t);
      CountGeInsert(SortDesc(xs[..n]), xs[n], t);
      CountGeConcat(SortDesc(xs[..n]), [xs[n]], t);
      CountGeConcat(xs[..n], [xs[n]], t);
      assert xs[..n] + [xs[n]] == xs;
    }
  }

  lemma {:induction false} CountGeIsCardinality(xs: seq<Dated>, t: real)
    ensures |set j: nat | j < |xs| && xs[j].mtime >= t| == CountGe(xs, t)
  {
    var b := set j: nat | j < |xs| && xs[j].mtime >= t;
    if xs == [] {
      assert b == {};
    } else {
      var n := |xs| - 1;
      var ys := xs[..n];
      CountGeIsCardinality(ys, t);
      CountGeConcat(ys, [xs[n]], t);
      assert ys + [xs[n]] == xs;
      var a := set j: nat | j < |ys| && ys[j].mtime >= t;
      assert b == if xs[n].mtime >= t then a + {n} else a;
    }
  }

  lemma RankOfLast(xs: seq<Dated>)
    requires xs != []
    ensures Rank(xs, |xs| - 1) == InsertPos(SortDesc(xs[..|xs| - 1]), xs[|xs| - 1].mtime)
  {
    var n := |xs| - 1;
    var ys := xs[..n];
    CountGeIsCardinality(ys, xs[n].mtime);
    CountGeSort(ys, xs[n].mtime);
    SortIsDescending(ys);
    CountGeSorted(SortDesc(ys), xs[n].mtime);
    assert (set j: nat | j < |xs| && Before(xs, j, n)) == (set j: nat | j < |ys| && ys[j].mtime >= xs[n].mtime);
  }

  lemma RankOfEarlier(xs: seq<Dated>, i: nat)
    requires i < |xs| - 1
    ensures Rank(xs, i) == Rank(xs[..|xs| - 1], i) + if xs[|xs| - 1].mtime > xs[i].mtime then 1 else 0
  {
    var n := |xs| - 1;
    var ys := xs[..n];
    var a := set j: nat | j < |ys| && Before(ys, j, i);
    var b := set j: nat | j < |xs| && Before(xs, j, i);
    assert b == if xs[n].mtime > xs[i].mtime then a + {n} else a;
  }

  /** Sorting puts every directory at its rank. */
  lemma {:induction false} SortedByRank(xs: seq<Dated>, i: nat)
    requires i < |xs|
    ensures Rank(xs, i) < |xs| && SortDesc(xs)[Rank(xs, i)] == xs[i]
  {
    var n := |xs| - 1;
    var s := SortDesc(xs[..n]);
    if i == n {
      RankOfLast(xs);
      InsertAt(s, xs[n], InsertPos(s, xs[n].mtime));
    } else {
      SortedByRank(xs[..n], i);
      RankOfEarlier(xs, i);
      SortIsDescending(xs[..n]);
      InsertAt(s, xs[n], Rank(xs, i));
    }
  }

  /** Every sorted position is the rank of some directory. */
  lemma {:induction false} AtRank(xs: seq<Dated>, k: nat) returns (i: nat)
    requires k < |xs|
    ensures i < |xs| && Rank(xs, i) == k && SortDesc(xs)[k] == xs[i]
  {
    var n := |xs| - 1;
    var s := SortDesc(xs[..n]);
    var p := InsertPos(s, xs[n].mtime);
    if k == p {
      i := n;
      RankOfLast(xs);
    } else {
      i := AtRank(xs[..n], if k < p then k else k - 1);
      RankOfEarlier(xs, i);
      SortIsDescending(xs[..n]);
    }
    SortedByRank(xs, i);
  }

  // ---- What a cleanup deletes ---------------------------------------------------------------

  datatype Policy = Policy(retain: nat, minAge: real, now: real)

  predicate OldEnough(pol: Policy, d: Dated) {
    pol.now - d.mtime >= pol.minAge
  }

  predicate DistinctNames(xs: seq<Dated>) {
    forall i, j | 0 <= i < j < |xs| :: xs[i].name != xs[j].name
  }

  /** The `i`-th directory is beyond the retention limit, old enough and not in use. */
  predicate Doomed<P(==)>(xs: seq<Dated>, pol: Policy, g: Registry<P>, running: set<P>, i: nat)
    requires i < |xs|
  {
    Rank(xs, i) >= pol.retain && OldEnough(pol, xs[i]) && !InUse(g, running, xs[i].name)
  }

  ghost predicate IsVictim<P>(xs: seq<Dated>, pol: Policy, g: Registry<P>, running: set<P>, name: RunId) {
    exists i: nat :: i < |xs| && xs[i].name == name && Doomed(xs, pol, g, running, i)
  }

  /** Who is a victim: at least `retain` directories are newer, or as new and listed earlier; the minimum age
      has passed; and the name is neither reserved nor that of a process that runs. */
  lemma VictimExactly<P>(xs: seq<Dated>, pol: Policy, g: Registry<P>, running: set<P>, name: RunId)
    ensures IsVictim(xs, pol, g, running, name) <==>
            && name !in g.reserved
            && !(name in g.runs && g.runs[name] in running)
            && exists i: nat | i < |xs| ::
                 && xs[i].name == name
                 && xs[i].mtime + pol.minAge <= pol.now
                 && |Ahead(xs, i)| >= pol.retain
  {
    forall i: nat | i < |xs| ensures |Ahead(xs, i)| == Rank(xs, i) {
      assert Ahead(xs, i) == set j: nat | j < |xs| && Before(xs, j, i);
    }
  }

  /** The directories newer than the `i`-th, or as new and listed earlier. */
  function Ahead(xs: seq<Dated>, i: nat): set<nat>
    requires i < |xs|
  {
    set j: nat | j < |xs| && (xs[j].mtime > xs[i].mtime || (xs[j].mtime == xs[i].mtime && j < i))
  }

  /** Some directory sorted into `[retain, hi)` has this name, is old enough and not in use. */
  ghost predicate Sliced<P>(s: seq<Dated>, pol: Policy, g: Registry<P>, running: set<P>, name: RunId, hi: nat)
    requires hi <= |s|
  {
    exists k: nat :: pol.retain <= k < hi && s[k].name == name && OldEnough(pol, s[k]) && !InUse(g, running, name)
  }

  /** Being beyond the first `retain` in sorted order is having a rank of at least `retain`. */
  lemma VictimsBySortedPosition<P>(xs: seq<Dated>, pol: Policy, g: Registry<P>, running: set<P>, name: RunId)
    ensures IsVictim(xs, pol, g, running, name) <==> Sliced(SortDesc(xs), pol, g, running, name, |xs|)
  {
    if IsVictim(xs, pol, g, running, name) {
      VictimIsSliced(xs, SortDesc(xs), pol, g, running, name);
    }
    if Sliced(SortDesc(xs), pol, g, running, name, |xs|) {
      SlicedIsVictim(xs, SortDesc(xs), pol, g, running, name);
    }
  }

  lemma VictimIsSliced<P>(xs: seq<Dated>, s: seq<Dated>, pol: Policy, g: Registry<P>, running: set<P>, name: RunId)
    requires s == SortDesc(xs) && IsVictim(xs, pol, g, running, name)
    ensures Sliced(s, pol, g, running, name, |xs|)
  {
    var i: nat :| i < |xs| && xs[i].name == name && Doomed(xs, pol, g, running, i);
    SortedByRank(xs, i);
    var k := Rank(xs, i);
    assert s[k].name == name && OldEnough(pol, s[k]);
  }

  lemma SlicedIsVictim<P>(xs: seq<Dated>, s: seq<Dated>, pol: Policy, g: Registry<P>, running: set<P>, name: RunId)
    requires s == SortDesc(xs) && Sliced(s, pol, g, running, name, |xs|)
    ensures IsVictim(xs, pol, g, running, name)
  {
    var k: nat :| pol.retain <= k < |xs| && s[k].name == name && OldEnough(pol, s[k]) && !InUse(g, running, name);
    var i := AtRank(xs, k);
    assert Doomed(xs, pol, g, running, i);
  }

  /** A victim leaves at least `retain` other directories that are no older and no victims themselves. */
  lemma RetainsNewer<P>(xs: seq<Dated>, pol: Policy, g: Registry<P>, running: set<P>, i: nat)
    requires i < |xs| && Doomed(xs, pol, g, running, i)
    ensures |set j: nat | j < |xs| && j != i && xs[j].mtime >= xs[i].mtime && !Doomed(xs, pol, g, running, j)|
            >= pol.retain
  {
    var a := set j: nat | j < |xs| && Rank(xs, j) < pol.retain;
    var b := set j: nat | j < |xs| && j != i && xs[j].mtime >= xs[i].mtime && !Doomed(xs, pol, g, running, j);
    SortedByRank(xs, i);
    RanksBelow(xs, pol.retain);
    forall j | j in a ensures j in b {
      LowerRankIsNewer(xs, j, i);
    }
    SubsetCardinality(a, b);
  }

  lemma LowerRankIsNewer(xs: seq<Dated>, j: nat, i: nat)
    requires j < |xs| && i < |xs| && Rank(xs, j) < Rank(xs, i)
    ensures xs[j].mtime >= xs[i].mtime
  {
    SortedByRank(xs, i);
    SortedByRank(xs, j);
    SortIsDescending(xs);
  }

  lemma {:induction false} RanksBelow(xs: seq<Dated>, k: nat)
    requires k <= |xs|
    ensures |set j: nat | j < |xs| && Rank(xs, j) < k| >= k
  {
    if k > 0 {
      RanksBelow(xs, k - 1);
      var i := AtRank(xs, k - 1);
      var below := set j: nat | j < |xs| && Rank(xs, j) < k - 1;
      SubsetCardinality(below + {i}, set j: nat | j < |xs| && Rank(xs, j) < k);
    }
  }

  lemma SlicedNext<P>(s: seq<Dated>, pol: Policy, g: Registry<P>, running: set<P>, k: nat)
    requires pol.retain <= k < |s|
    ensures forall name :: Sliced(s, pol, g, running, name, k + 1) <==>
              Sliced(s, pol, g, running, name, k)
              || (name == s[k].name && OldEnough(pol, s[k]) && !InUse(g, running, name))
  {
  }

  lemma RemoveNext<P>(runs: map<RunId, P>, dirs: set<RunId>, deleted: set<RunId>, stuck: set<RunId>, x: RunId)
    ensures runs - deleted - {x} == runs - (deleted + {x})
    ensures dirs - ((deleted + {x}) - stuck)
            == if x in stuck then dirs - (deleted - stuck) else dirs - (deleted - stuck) - {x}
  {
  }

  class Launcher {
    var runs: map<RunId, nat>
    var reserved: set<RunId>
    var dirs: set<RunId>

    function Contents(): Registry<nat>
      reads this
    {
      Registry(runs, reserved)
    }

    constructor (dirs: set<RunId>)
      ensures Contents() == Registry(map[], {}) && this.dirs == dirs
    {
      runs, reserved := map[], {};
      this.dirs := dirs;
    }

    /** The listing loop of the cleanup. */
    method ListDirs(listing: seq<Entry>) returns (dated: seq<Dated>)
      ensures dated == DatedDirs(listing)
    {
      dated := [];
      for i := 0 to |listing|
        invariant dated == DatedDirs(listing[..i])
      {
        assert listing[..i + 1][..i] == listing[..i];
        if listing[i].mtime.Some? && listing[i].isDir {
          dated := dated + [Dated(listing[i].name, listing[i].mtime.value)];
        }
      }
      assert listing[..|listing|] == listing;
    }

    /** A cleanup running alone forgets and deletes exactly the victims. `stuck` names the
        directories a recursive delete cannot remove; its errors are ignored. */
    method CleanupOldRuns(listing: seq<Entry>, pol: Policy, running: set<nat>, stuck: set<RunId>)
      returns (deleted: set<RunId>)
      requires DistinctNames(DatedDirs(listing))
      modifies this
      ensures forall name :: name in deleted <==>
                IsVictim(DatedDirs(listing), pol, old(Contents()), running, name)
      ensures runs == old(runs) - deleted && reserved == old(reserved)
      ensures dirs == old(dirs) - (deleted - stuck)
    {
      var dated := ListDirs(listing);
      var sorted := SortDesc(dated);
      ghost var g := Contents();
      forall i, j | 0 <= i < j < |sorted| ensures sorted[i].name != sorted[j].name {
        SortedDistinct(dated, i, j);
      }
      deleted := {};
      for k := (if pol.retain <= |sorted| then pol.retain else |sorted|) to |sorted|
        invariant forall name :: name in deleted <==> Sliced(sorted, pol, g, running, name, k)
        invariant runs == old(runs) - deleted && reserved == old(reserved)
        invariant dirs == old(dirs) - (deleted - stuck)
      {
        var d := sorted[k];
        assert !Sliced(sorted, pol, g, running, d.name, k);
        assert InUse(Contents(), running, d.name) <==> InUse(g, running, d.name);
        SlicedNext(sorted, pol, g, running, k);
        RemoveNext(old(runs), old(dirs), deleted, stuck, d.name);
        if pol.now - d.mtime >= pol.minAge && !InUse(Contents(), running, d.name) {
          runs := runs - {d.name};
          deleted := deleted + {d.name};
          if d.name !in stuck {
            dirs := dirs - {d.name};
          }
        }
      }
      forall name ensures name in deleted <==> IsVictim(dated, pol, g, running, name) {
        VictimsBySortedPosition(dated, pol, g, running, name);
      }
    }

    /** One launch running alone, after its cleanup. A refused launch leaves the registry as it
        was, and the directories too unless its own new one cannot be removed. */
    method LaunchRun(id: RunId, mkdirWorks: bool, process: Option<nat>, stuck: bool) returns (launched: bool)
      modifies this
      ensures launched <==>
              id !in old(runs) && id !in old(reserved) && id !in old(dirs) && mkdirWorks && process.Some?
      ensures launched ==> Contents() == Registry(old(runs)[id := process.value], old(reserved))
                           && dirs == old(dirs) + {id}
      ensures !launched ==> Contents() == old(Contents())
      ensures !launched && !stuck ==> dirs == old(dirs)
    {
      match Contents().Reserve(id) {
        case None => return false;
        case Some(g) => reserved := g.reserved;
      }
      if !mkdirWorks || id in dirs {
        reserved := reserved - {id};
        return false;
      }
      dirs := dirs + {id};
      if process.None? {
        reserved := reserved - {id};
        if !stuck {
          dirs := dirs - {id};
        }
        return false;
      }
      var g := Register(Contents(), id, process.value);
      runs, reserved := g.runs, g.reserved;
      return true;
    }
  }

  lemma SortedDistinct(xs: seq<Dated>, i: nat, j: nat)
    requires DistinctNames(xs) && i < j < |xs|
    ensures SortDesc(xs)[i].name != SortDesc(xs)[j].name
  {
    var a := AtRank(xs, i);
    var b := AtRank(xs, j);
  }
}
