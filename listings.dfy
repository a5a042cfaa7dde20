/** Listing records, the string order used for `modTime` and file names, and
    the two list operations the reconciliation is built from: looking entries
    up by `uniqueID` and removing every entry with a given `uniqueID`. */
module Listings {

  /** One `residential` record of a feed, with the fields the reconciliation
      reads already extracted from the parser's wrapper arrays. `attributes`
      stands for every other field, carried along unchanged. */
  datatype Listing = Listing(
    uniqueID: string,
    status: string,
    agentName: string,
    modTime: string,
    attributes: map<string, string>)

  /** `a` sorts strictly before `b` in JavaScript's relational order on
      strings: the first differing character decides, and a proper prefix
      sorts first. */
  predicate LexLess(a: string, b: string)
    decreases |a|
  {
    |b| > 0 && (|a| == 0 || a[0] < b[0] || (a[0] == b[0] && LexLess(a[1..], b[1..])))
  }

  lemma {:induction false} LexLessIrreflexive(a: string)
    ensures !LexLess(a, a)
    decreases |a|
  {
    if |a| > 0 {
      LexLessIrreflexive(a[1..]);
    }
  }

  lemma {:induction false} LexLessTransitive(a: string, b: string, c: string)
    requires LexLess(a, b) && LexLess(b, c)
    ensures LexLess(a, c)
    decreases |a|
  {
    if |a| > 0 && a[0] == b[0] && b[0] == c[0] {
      LexLessTransitive(a[1..], b[1..], c[1..]);
    }
  }

  lemma {:induction false} LexLessTotal(a: string, b: string)
    ensures a == b || LexLess(a, b) || LexLess(b, a)
    decreases |a|
  {
    if |a| > 0 && |b| > 0 && a[0] == b[0] {
      LexLessTotal(a[1..], b[1..]);
      if a[1..] == b[1..] {
        assert a == [a[0]] + a[1..] && b == [b[0]] + b[1..];
      }
    }
  }

  lemma LexLessAsymmetric(a: string, b: string)
    requires LexLess(a, b)
    ensures !LexLess(b, a)
  {
  }

  /** "Not after" is transitive too. */
  lemma LexLeqTransitive(a: string, b: string, c: string)
    requires !LexLess(b, a) && !LexLess(c, b)
    ensures !LexLess(c, a)
  {
  }

  /** Some entry of `s` has this `uniqueID` (what `find({ uniqueID })` answers). */
  predicate HasId(s: seq<Listing>, id: string) {
    exists i :: 0 <= i < |s| && s[i].uniqueID == id
  }

  /** The entries of `s` with `uniqueID` `k`, in list order. */
  function WithId(s: seq<Listing>, k: string): seq<Listing> {
    if s == [] then []
    else (if s[0].uniqueID == k then [s[0]] else []) + WithId(s[1..], k)
  }

  /** lodash `remove({ uniqueID: id })` on a list: every entry with that id
      goes, every other entry stays, in its order. */
  function RemoveId(s: seq<Listing>, id: string): (r: seq<Listing>)
    ensures |r| == |s| - |WithId(s, id)|
    ensures forall x :: x in r <==> x in s && x.uniqueID != id
  {
    if s == [] then []
    else if s[0].uniqueID == id then RemoveId(s[1..], id)
    else [s[0]] + RemoveId(s[1..], id)
  }

  /** `find` succeeds exactly when there is something for `remove` to take. */
  lemma {:induction false} HasIdIsWithIdNonEmpty(s: seq<Listing>, id: string)
    ensures HasId(s, id) <==> WithId(s, id) != []
    decreases |s|
  {
    if s != [] {
      HasIdIsWithIdNonEmpty(s[1..], id);
      if HasId(s, id) && s[0].uniqueID != id {
        var i :| 0 <= i < |s| && s[i].uniqueID == id;
        assert s[1..][i - 1].uniqueID == id;
      }
      if HasId(s[1..], id) {
        var i :| 0 <= i < |s[1..]| && s[1..][i].uniqueID == id;
        assert s[i + 1].uniqueID == id;
      }
    }
  }

  /** Removing an id that is absent is a no-op. */
  lemma {:induction false} RemoveIdAbsent(s: seq<Listing>, id: string)
    requires !HasId(s, id)
    ensures RemoveId(s, id) == s
    decreases |s|
  {
    if s != [] {
      assert s[0].uniqueID != id;
      forall j | 0 <= j < |s| - 1
        ensures s[1..][j].uniqueID != id
      {
        assert s[1..][j] == s[j + 1];
      }
      RemoveIdAbsent(s[1..], id);
      assert s == [s[0]] + s[1..];
    }
  }

  /** After removal the id is gone. */
  lemma RemoveIdRemovesAll(s: seq<Listing>, id: string)
    ensures !HasId(RemoveId(s, id), id)
  {
  }

  lemma {:induction false} WithIdAppend(a: seq<Listing>, b: seq<Listing>, k: string)
    ensures WithId(a + b, k) == WithId(a, k) + WithId(b, k)
    decreases |a|
  {
    if a == [] {
      assert a + b == b;
    } else {
      assert (a + b)[1..] == a[1..] + b;
      WithIdAppend(a[1..], b, k);
    }
  }

  /** Removing one id leaves the entries of every other id exactly as they were. */
  lemma {:induction false} RemoveIdKeepsOtherIds(s: seq<Listing>, id: string, k: string)
    ensures WithId(RemoveId(s, id), k) == if k == id then [] else WithId(s, k)
    decreases |s|
  {
    if s != [] {
      RemoveIdKeepsOtherIds(s[1..], id, k);
      if s[0].uniqueID != id {
        WithIdAppend([s[0]], RemoveId(s[1..], id), k);
      }
    }
  }

  /** Removal works entry by entry, so list order across ids is kept too. */
  lemma {:induction false} RemoveIdAppend(a: seq<Listing>, b: seq<Listing>, id: string)
    ensures RemoveId(a + b, id) == RemoveId(a, id) + RemoveId(b, id)
    decreases |a|
  {
    if a == [] {
      assert a + b == b;
    } else {
      assert (a + b)[1..] == a[1..] + b;
      RemoveIdAppend(a[1..], b, id);
    }
  }
}
