/** Daily snapshots of which the latest fourteen are kept, under any failures. */
module Backup {
  import opened TextOrder
  import opened Sorting
  import opened FiniteSets
  import opened Timestamps
  import opened Wrappers

  const RETAIN_COUNT: nat := 14

  function SnapshotName(t: int): string
    requires IsSecond(t)
  {
    "points-" + (FileStamp(t) + ".db")
  }

  lemma NameOfParts(y: string, n: string, d: string, h: string, m: string, x: string)
    ensures "points-" + ((y + n + d + "-" + h + m + x) + ".db")
            == "points-" + y + n + d + "-" + h + m + x + ".db"
  {
  }

  /** The name is the second's RFC 3339 text, made compact, between a fixed start and end. */
  lemma SnapshotNameInText(t: int)
    requires IsSecond(t)
    ensures var s := Rfc3339(t);
            SnapshotName(t) == "points-" + s[..4] + s[5..7] + s[8..10] + "-" + s[11..13] + s[14..16] + s[17..19] + ".db"
  {
    FileStampIsCompact(t);
    var s := Rfc3339(t);
    NameOfParts(s[..4], s[5..7], s[8..10], s[11..13], s[14..16], s[17..19]);
  }

  lemma NameOfStamp(x: string, y: string)
    ensures "points-" + (x + ".db") == "points-" + (y + ".db") <==> x == y
  {
    var (u, v) := ("points-" + (x + ".db"), "points-" + (y + ".db"));
    assert u[7..|u| - 3] == x && v[7..|v| - 3] == y;
  }

  /** Later snapshots have greater names, and snapshots of different seconds have different names. */
  lemma SnapshotNameOrder(s: int, t: int)
    requires IsSecond(s) && IsSecond(t)
    ensures Less(SnapshotName(s), SnapshotName(t)) <==> s < t
    ensures SnapshotName(s) == SnapshotName(t) <==> s == t
  {
    NameOfStamp(FileStamp(s), FileStamp(t));
    LessAfterSeparator("points-", FileStamp(s) + ".db", FileStamp(t) + ".db");
    LessByParts(FileStamp(s), FileStamp(t), ".db", ".db");
    LessIsIrreflexive(".db");
    FileStampOrder(s, t);
  }

  // ----- The greatest k of a set of names -----

  function Above(names: set<string>, x: string): set<string> {
    set y | y in names && Less(x, y)
  }

  function Top(k: nat, names: set<string>): set<string> {
    set x | x in names && |Above(names, x)| < k
  }

  ghost predicate IsLeast(names: set<string>, x: string) {
    x in names && forall y :: y in names && y != x ==> Less(x, y)
  }

  lemma {:induction false} LeastExists(names: set<string>) returns (x: string)
    requires names != {}
    ensures IsLeast(names, x)
  {
    var y :| y in names;
    if names == {y} {
      x := y;
    } else {
      assert names - {y} != {};
      var z := LeastExists(names - {y});
      LessIsTotal(y, z);
      x := if Less(y, z) then y else z;
      forall w | w in names && w != x
        ensures Less(x, w)
      {
        if x == y && w != z {
          LessIsTransitive(y, z, w);
        }
      }
    }
  }

  lemma AboveLeast(names: set<string>, x: string)
    requires IsLeast(names, x)
    ensures Above(names, x) == names - {x} && |Above(names, x)| == |names| - 1
    ensures forall y :: y in names && y != x ==> Above(names, y) == Above(names - {x}, y)
  {
    LessIsIrreflexive(x);
    forall y | y in names && y != x
      ensures !Less(y, x)
    {
      if Less(y, x) {
        LessIsTransitive(x, y, x);
      }
    }
  }

  /** The top k are k names, or all if there are fewer. */
  lemma {:induction false} TopSize(k: nat, names: set<string>)
    ensures |Top(k, names)| == if |names| <= k then |names| else k
    ensures |names| <= k ==> Top(k, names) == names
    decreases |names|
  {
    if |names| <= k {
      forall x | x in names
        ensures |Above(names, x)| < k
      {
        LessIsIrreflexive(x);
        SubsetSize(Above(names, x), names - {x});
      }
      assert Top(k, names) == names;
    } else {
      var x := LeastExists(names);
      AboveLeast(names, x);
      TopSize(k, names - {x});
      assert Top(k, names) == Top(k, names - {x});
    }
  }

  // ----- The greatest names are the latest snapshots -----

  ghost predicate Seconds(times: set<int>) {
    forall t :: t in times ==> IsSecond(t)
  }

  ghost function Names(times: set<int>): set<string>
    requires Seconds(times)
  {
    set t | t in times :: SnapshotName(t)
  }

  ghost function Later(times: set<int>, t: int): set<int> {
    set u | u in times && t < u
  }

  /** The k latest of a set of times. */
  ghost function Latest(k: nat, times: set<int>): set<int> {
    set t | t in times && |Later(times, t)| < k
  }

  lemma NamesWithout(times: set<int>, t: int)
    requires Seconds(times) && t in times
    ensures Names(times) == Names(times - {t}) + {SnapshotName(t)} && SnapshotName(t) !in Names(times - {t})
  {
    forall u | u in times - {t}
      ensures SnapshotName(u) != SnapshotName(t)
    {
      SnapshotNameOrder(u, t);
    }
  }

  lemma {:induction false} NamesSize(times: set<int>)
    requires Seconds(times)
    ensures |Names(times)| == |times|
  {
    if times == {} {
      assert Names(times) == {};
    } else {
      var t := Member(times);
      NamesSize(times - {t});
      NamesWithout(times, t);
    }
  }

  lemma AboveIsLater(times: set<int>, t: int)
    requires Seconds(times) && IsSecond(t)
    ensures Above(Names(times), SnapshotName(t)) == Names(Later(times, t))
  {
    forall u | u in times
      ensures Less(SnapshotName(t), SnapshotName(u)) <==> t < u
    {
      SnapshotNameOrder(t, u);
    }
  }

  lemma TopIsLatest(k: nat, times: set<int>)
    requires Seconds(times)
    ensures Top(k, Names(times)) == Names(Latest(k, times))
  {
    forall t | t in times
      ensures |Above(Names(times), SnapshotName(t))| == |Later(times, t)|
    {
      AboveIsLater(times, t);
      NamesSize(Later(times, t));
    }
  }

  // ----- What stays in the directory -----

  /** Everything in the directory was written, and the top k of what was written is still there. */
  ghost predicate Retains(k: nat, files: set<string>, written: set<string>) {
    files <= written && Top(k, written) <= files
  }

  lemma WriteKeepsTop(k: nat, files: set<string>, written: set<string>, name: string)
    requires Retains(k, files, written)
    ensures Retains(k, files + {name}, written + {name})
  {
    forall x | x in Top(k, written + {name}) && x != name
      ensures x in files
    {
      SubsetSize(Above(written, x), Above(written + {name}, x));
      assert x in Top(k, written);
    }
  }

  /** Removing the least of more than k files removes none of the top k. */
  lemma RemoveKeepsTop(k: nat, files: set<string>, written: set<string>, name: string)
    requires Retains(k, files, written) && |files| > k && IsLeast(files, name)
    ensures Retains(k, files - {name}, written)
  {
    AboveLeast(files, name);
    SubsetSize(Above(files, name), Above(written, name));
  }

  lemma FewFilesAreTheTop(k: nat, files: set<string>, written: set<string>)
    requires Retains(k, files, written) && |files| <= k
    ensures files == Top(k, written)
  {
    TopSize(k, written);
    SubsetSize(Top(k, written), files);
    SubsetSize(files, written);
  }

  // ----- The scheduler -----

  function InNameOrder(): (string, string) -> bool {
    (x: string, y: string) => AtMost(x, y)
  }

  lemma NameOrderIsTotal()
    ensures TotalOrder(InNameOrder())
  {
    forall x: string, y: string
      ensures AtMost(x, y) || AtMost(y, x)
    {
      LessIsTotal(x, y);
    }
    forall x: string, y: string, z: string | AtMost(x, y) && AtMost(y, z)
      ensures AtMost(x, z)
    {
      if x != y && y != z {
        LessIsTransitive(x, y, z);
      }
    }
  }

  lemma {:induction false} SizeOfDistinct(names: seq<string>, files: set<string>)
    requires Distinct(names) && forall x :: x in names <==> x in files
    ensures |files| == |names|
  {
    if names != [] {
      var rest := names[1..];
      assert names == [names[0]] + rest;
      forall x ensures x in rest <==> x in files - {names[0]} {
        assert x in names <==> x == names[0] || x in rest;
      }
      SizeOfDistinct(rest, files - {names[0]});
    }
  }

  lemma SortedNamesAreTheNames(found: seq<string>, files: set<string>)
    requires Distinct(found) && forall x :: x in found <==> x in files
    ensures var names := Sort(found, InNameOrder());
            && Sorted(names, InNameOrder()) && Distinct(names) && |names| == |files|
            && forall x :: x in names <==> x in files
  {
    var names := Sort(found, InNameOrder());
    NameOrderIsTotal();
    SortSorts(found, InNameOrder());
    DistinctPermutation(found, names);
    forall x ensures x in names <==> x in files {
      assert x in names <==> x in multiset(names);
      assert x in found <==> x in multiset(found);
    }
    SizeOfDistinct(names, files);
  }

  lemma RestOfNames(names: seq<string>, i: nat)
    requires i < |names| && Distinct(names)
    ensures forall x :: x in names[i..] <==> x == names[i] || x in names[i + 1..]
    ensures names[i] !in names[i + 1..]
  {
    assert names[i..] == [names[i]] + names[i + 1..];
  }

  lemma NextIsLeast(names: seq<string>, i: nat, files: set<string>)
    requires Sorted(names, InNameOrder()) && Distinct(names) && i < |names|
    requires forall x :: x in files <==> x in names[i..]
    ensures IsLeast(files, names[i])
  {
    assert names[i..][0] == names[i];
    forall y | y in files && y != names[i]
      ensures Less(names[i], y)
    {
      var j :| 0 <= j < |names[i..]| && names[i..][j] == y;
      assert InNameOrder()(names[i], names[i + j]);
    }
  }

  class BackupScheduler {
    var files: set<string>
    /** Every name that was in the directory at some time. */
    ghost var written: set<string>

    ghost predicate Valid()
      reads this
    {
      Retains(RETAIN_COUNT, files, written)
    }

    constructor (files: set<string>)
      ensures Valid() && this.files == files && written == files
    {
      this.files, written := files, files;
    }

    /** A failed check, copy or permission change ends the run; only the last leaves a new file. */
    method Snapshot(now: int, healthy: bool) returns (ok: bool)
      requires Valid() && IsSecond(now)
      modifies this
      ensures Valid()
      ensures || (files == old(files) && written == old(written))
              || (files == old(files) + {SnapshotName(now)} && written == old(written) + {SnapshotName(now)})
      ensures ok ==> SnapshotName(now) in files
      ensures healthy ==> ok
    {
      var dirFails := Fails(healthy);
      if dirFails {
        return false;
      }
      var name := SnapshotName(now);
      if name in files {
        return true;
      }
      var vacuumFails := Fails(healthy);
      if vacuumFails {
        return false;
      }
      WriteKeepsTop(RETAIN_COUNT, files, written, name);
      files, written := files + {name}, written + {name};
      var chmodFails := Fails(healthy);
      ok := !chmodFails;
    }

    /** The directory's names, in the order of sort.Strings. */
    method SortedNames() returns (names: seq<string>)
      ensures Sorted(names, InNameOrder()) && Distinct(names)
      ensures (forall x :: x in names <==> x in files) && |names| == |files|
    {
      var found := [];
      var left := files;
      while left != {}
        invariant left <= files && Distinct(found) && forall x :: x in found <==> x in files - left
        decreases left
      {
        var x :| x in left;
        assert x !in found;
        found := found + [x];
        left := left - {x};
      }
      names := Sort(found, InNameOrder());
      SortedNamesAreTheNames(found, files);
    }

    method Prune(healthy: bool) returns (ok: bool)
      requires Valid()
      modifies this`files
      ensures Valid() && files <= old(files)
      ensures |old(files)| <= RETAIN_COUNT ==> files == old(files)
      ensures ok ==> files == Top(RETAIN_COUNT, written)
      ensures healthy ==> ok
    {
      var listFails := Fails(healthy);
      if listFails {
        return false;
      }
      var names := SortedNames();
      if |names| <= RETAIN_COUNT {
        FewFilesAreTheTop(RETAIN_COUNT, files, written);
        return true;
      }
      var excess := |names| - RETAIN_COUNT;
      for i := 0 to excess
        invariant Valid() && files <= old(files)
        invariant (forall x :: x in files <==> x in names[i..]) && |files| == |names| - i
      {
        NextIsLeast(names, i, files);
        RemoveKeepsTop(RETAIN_COUNT, files, written, names[i]);
        var removeFails := Fails(healthy);
        if removeFails {
          return false;
        }
        RestOfNames(names, i);
        files := files - {names[i]};
      }
      FewFilesAreTheTop(RETAIN_COUNT, files, written);
      ok := true;
    }

    /** After any run the top 14 of all names ever written are there; after a successful run nothing
        else is.  If those are the names of snapshots, the files are the 14 latest snapshots; the one
        just taken is among them unless 14 names or more are greater. */
    method RunOnce(now: int, healthy: bool) returns (ok: bool)
      requires Valid() && IsSecond(now)
      modifies this
      ensures Valid()
      ensures old(written) <= written <= old(written) + {SnapshotName(now)}
      ensures ok ==> files == Top(RETAIN_COUNT, written) && SnapshotName(now) in written
      ensures ok ==> forall times :: Seconds(times) && written == Names(times) ==>
                       files == Names(Latest(14, times))
      ensures ok ==> (SnapshotName(now) in files <==> |Above(written, SnapshotName(now))| < 14)
      ensures healthy ==> ok
    {
      ok := Snapshot(now, healthy);
      if ok {
        ok := Prune(healthy);
      }
      forall times | Seconds(times) {
        TopIsLatest(RETAIN_COUNT, times);
      }
    }
  }
}
