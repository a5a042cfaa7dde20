/** The batch order of a run: the feed files of the input directory, taken in
    sorted order of their names, each applied in full before the next. */
module Batch {
  import opened Listings
  import opened Reconciliation

  /** One feed file of the input directory, already parsed: its name and the
      `residential` records of its property list, in document order. */
  datatype FeedFile = FeedFile(name: string, residential: seq<Listing>)

  /** Names never decrease along `fs`. */
  ghost predicate SortedByName(fs: seq<FeedFile>) {
    forall i, j :: 0 <= i < j < |fs| ==> !LexLess(fs[j].name, fs[i].name)
  }

  /** A directory listing: two entries with the same name are the same file. */
  ghost predicate UniqueNames(fs: seq<FeedFile>) {
    forall f, g :: f in fs && g in fs && f.name == g.name ==> f == g
  }

  /** An entry that no entry of the sorted `fs` precedes can go in front. */
  lemma ConsSortedByName(x: FeedFile, fs: seq<FeedFile>)
    requires SortedByName(fs)
    requires forall j :: 0 <= j < |fs| ==> !LexLess(fs[j].name, x.name)
    ensures SortedByName([x] + fs)
  {
  }

  /** `f` placed into the sorted `fs` before the first entry it does not
      follow. */
  function InsertByName(f: FeedFile, fs: seq<FeedFile>): (r: seq<FeedFile>)
    requires SortedByName(fs)
    ensures SortedByName(r)
    ensures multiset(r) == multiset(fs) + multiset{f}
  {
    if fs == [] then [f]
    else if !LexLess(fs[0].name, f.name) then
      assert forall j :: 0 <= j < |fs| ==> !LexLess(fs[j].name, f.name) by {
        forall j | 0 < j < |fs| ensures !LexLess(fs[j].name, f.name) {
          LexLeqTransitive(f.name, fs[0].name, fs[j].name);
        }
      }
      ConsSortedByName(f, fs);
      [f] + fs
    else
      var rest := InsertByName(f, fs[1..]);
      assert forall j :: 0 <= j < |rest| ==> !LexLess(rest[j].name, fs[0].name) by {
        LexLessAsymmetric(fs[0].name, f.name);
        forall j | 0 <= j < |rest| ensures !LexLess(rest[j].name, fs[0].name) {
          assert rest[j] in multiset(rest);
          if rest[j] != f {
            assert rest[j] in multiset(fs[1..]);
            var k :| 0 <= k < |fs[1..]| && fs[1..][k] == rest[j];
            assert fs[k + 1] == rest[j];
          }
        }
      }
      ConsSortedByName(fs[0], rest);
      assert fs == [fs[0]] + fs[1..];
      [fs[0]] + rest
  }

  /** `files.sort()`: the directory's files ordered by name. */
  function SortByName(fs: seq<FeedFile>): (r: seq<FeedFile>)
    ensures SortedByName(r)
    ensures multiset(r) == multiset(fs)
  {
    if fs == [] then []
    else
      assert fs == [fs[0]] + fs[1..];
      InsertByName(fs[0], SortByName(fs[1..]))
  }

  /** Two name-sorted orders of one directory start with the same file. */
  lemma SortedByNameSameHead(a: seq<FeedFile>, b: seq<FeedFile>)
    requires SortedByName(a) && SortedByName(b) && UniqueNames(a)
    requires multiset(a) == multiset(b) && a != []
    ensures b != [] && a[0] == b[0]
  {
    assert a[0] in multiset(b) && b[0] in multiset(a);
    var k :| 0 <= k < |b| && b[k] == a[0];
    var m :| 0 <= m < |a| && a[m] == b[0];
    LexLessIrreflexive(a[0].name);
    assert !LexLess(a[0].name, b[0].name) by {
      if k > 0 {
        assert !LexLess(b[k].name, b[0].name);
      }
    }
    assert !LexLess(b[0].name, a[0].name) by {
      if m > 0 {
        assert !LexLess(a[m].name, a[0].name);
      }
    }
    LexLessTotal(a[0].name, b[0].name);
    assert b[0] in a;
  }

  /** Dropping the first file keeps a list sorted and its names unique. */
  lemma DropFirstFile(a: seq<FeedFile>)
    requires a != []
    ensures SortedByName(a) ==> SortedByName(a[1..])
    ensures UniqueNames(a) ==> UniqueNames(a[1..])
  {
  }

  /** Two name-sorted orders of one directory are the same order. */
  lemma {:induction false} SortedByNameUnique(a: seq<FeedFile>, b: seq<FeedFile>)
    requires SortedByName(a) && SortedByName(b) && UniqueNames(a)
    requires multiset(a) == multiset(b)
    ensures a == b
    decreases |a|
  {
    if a == [] {
      assert |b| == |multiset(b)| == 0;
    } else {
      SortedByNameSameHead(a, b);
      assert a == [a[0]] + a[1..] && b == [b[0]] + b[1..];
      assert multiset(a[1..]) == multiset(a) - multiset{a[0]};
      assert multiset(b[1..]) == multiset(b) - multiset{b[0]};
      DropFirstFile(a);
      DropFirstFile(b);
      SortedByNameUnique(a[1..], b[1..]);
    }
  }

  /** `processFiles`: each file's feed applied in turn, every file seeing the
      state the files before it left. */
  function ApplyFiles(db: Databases, fs: seq<FeedFile>): Databases
    decreases |fs|
  {
    if fs == [] then db
    else ApplyFeed(ApplyFiles(db, fs[..|fs| - 1]), fs[|fs| - 1].residential)
  }

  /** A run: the directory's files applied in name order. */
  function Run(db: Databases, dir: seq<FeedFile>): Databases {
    ApplyFiles(db, SortByName(dir))
  }

  /** The order in which the directory lists its files does not matter. */
  lemma RunIgnoresListingOrder(db: Databases, dir1: seq<FeedFile>, dir2: seq<FeedFile>)
    requires UniqueNames(dir1) && multiset(dir1) == multiset(dir2)
    ensures Run(db, dir1) == Run(db, dir2)
  {
    var a, b := SortByName(dir1), SortByName(dir2);
    assert UniqueNames(a) by {
      forall f, g | f in a && g in a && f.name == g.name ensures f == g {
        assert f in multiset(dir1) && g in multiset(dir1);
      }
    }
    SortedByNameUnique(a, b);
  }

  lemma {:induction false} ApplyFilesAppend(db: Databases, a: seq<FeedFile>, b: seq<FeedFile>)
    ensures ApplyFiles(db, a + b) == ApplyFiles(ApplyFiles(db, a), b)
    decreases |b|
  {
    if b == [] {
      assert a + b == a;
    } else {
      assert (a + b)[..|a + b| - 1] == a + b[..|b| - 1];
      ApplyFilesAppend(db, a, b[..|b| - 1]);
    }
  }

  /** Every record of the files, file after file, in document order. */
  function AllRecords(fs: seq<FeedFile>): seq<Listing>
    decreases |fs|
  {
    if fs == [] then [] else AllRecords(fs[..|fs| - 1]) + fs[|fs| - 1].residential
  }

  /** A run over several files is one fold of the per-record step over all
      their records, in file order and then document order. */
  lemma {:induction false} ApplyFilesIsOneFold(db: Databases, fs: seq<FeedFile>)
    ensures ApplyFiles(db, fs) == ApplyFeed(db, AllRecords(fs))
    decreases |fs|
  {
    if fs != [] {
      var init := fs[..|fs| - 1];
      var last := fs[|fs| - 1].residential;
      ApplyFilesIsOneFold(db, init);
      InScopeAppend(AllRecords(init), last);
      ReconcileAllAppend(db, InScope(AllRecords(init)), InScope(last));
    }
  }

  /** Sold stays within the limit over a whole run. */
  lemma {:induction false} ApplyFilesKeepsSoldBound(db: Databases, fs: seq<FeedFile>)
    requires |db.sold| <= SoldListingsLimit
    ensures |ApplyFiles(db, fs).sold| <= SoldListingsLimit
    decreases |fs|
  {
    if fs != [] {
      ApplyFilesKeepsSoldBound(db, fs[..|fs| - 1]);
      ReconcileAllKeepsSoldBound(ApplyFiles(db, fs[..|fs| - 1]), InScope(fs[|fs| - 1].residential));
    }
  }
}
