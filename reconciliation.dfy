/** The reconciliation of `updateDB` as pure functions over the two lists,
    Current and Sold: the agent filter, the status classification, the
    per-record step with its sold-retention eviction, and the fold of the step
    over one feed's records in document order. */
module Reconciliation {
  import opened Listings

  /** The one agent whose listings are kept. */
  const TargetAgent: string := "Therese Plath"

  /** The most Sold entries kept after an insertion into Sold. */
  const SoldListingsLimit: nat := 3

  predicate IsTargetAgent(p: Listing) {
    p.agentName == TargetAgent
  }

  /** The feed's records of the target agent, in document order. */
  function InScope(ps: seq<Listing>): (r: seq<Listing>)
    ensures |r| <= |ps|
    ensures forall p :: p in r <==> p in ps && IsTargetAgent(p)
  {
    if ps == [] then []
    else (if IsTargetAgent(ps[0]) then [ps[0]] else []) + InScope(ps[1..])
  }

  lemma {:induction false} InScopeAppend(a: seq<Listing>, b: seq<Listing>)
    ensures InScope(a + b) == InScope(a) + InScope(b)
    decreases |a|
  {
    if a == [] {
      assert a + b == b;
    } else {
      assert (a + b)[1..] == a[1..] + b;
      InScopeAppend(a[1..], b);
    }
  }

  /** What a record's status asks for; any status other than `sold` and
      `current` means the listing is withdrawn. */
  datatype StatusClass = SoldStatus | CurrentStatus | RemovedStatus

  function Classify(status: string): (c: StatusClass)
    ensures c == SoldStatus <==> status == "sold"
    ensures c == CurrentStatus <==> status == "current"
  {
    var sold := status == "sold";
    var removed := !sold && status != "current";
    if sold then SoldStatus else if removed then RemovedStatus else CurrentStatus
  }

  /** Entry `i` is what a stable ascending sort of `s` by `modTime` puts
      first: no entry is older, and every entry before it is strictly newer. */
  ghost predicate FirstOldest(s: seq<Listing>, i: nat) {
    i < |s| &&
    (forall j :: 0 <= j < |s| ==> !LexLess(s[j].modTime, s[i].modTime)) &&
    (forall j :: 0 <= j < i ==> LexLess(s[i].modTime, s[j].modTime))
  }

  /** The index of `sortBy('$.modTime').take(1)`. */
  function OldestIndex(s: seq<Listing>): (i: nat)
    requires |s| > 0
    ensures i < |s|
  {
    if |s| == 1 then 0
    else
      var j := 1 + OldestIndex(s[1..]);
      if LexLess(s[j].modTime, s[0].modTime) then j else 0
  }

  lemma {:induction false} OldestIndexIsFirstOldest(s: seq<Listing>)
    requires |s| > 0
    ensures FirstOldest(s, OldestIndex(s))
    decreases |s|
  {
    if |s| == 1 {
      LexLessIrreflexive(s[0].modTime);
    } else {
      var t := s[1..];
      OldestIndexIsFirstOldest(t);
      var j := 1 + OldestIndex(t);
      assert forall m :: 1 <= m < |s| ==> !LexLess(s[m].modTime, s[j].modTime) by {
        forall m | 1 <= m < |s| ensures !LexLess(s[m].modTime, s[j].modTime) {
          assert s[m] == t[m - 1] && s[j] == t[j - 1];
        }
      }
      if LexLess(s[j].modTime, s[0].modTime) {
        LexLessAsymmetric(s[j].modTime, s[0].modTime);
        forall m | 1 <= m < j ensures LexLess(s[j].modTime, s[m].modTime) {
          assert s[m] == t[m - 1] && s[j] == t[j - 1];
        }
      } else {
        LexLessIrreflexive(s[0].modTime);
        forall m | 1 <= m < |s| ensures !LexLess(s[m].modTime, s[0].modTime) {
          LexLeqTransitive(s[0].modTime, s[j].modTime, s[m].modTime);
        }
      }
    }
  }

  /** Sold after one insertion: over the limit, every entry sharing the id of
      the oldest entry goes. */
  function RetainSold(s: seq<Listing>): (r: seq<Listing>)
    ensures |s| <= SoldListingsLimit ==> r == s
    ensures |s| > SoldListingsLimit ==> |r| < |s|
    ensures forall x :: x in r ==> x in s
  {
    if |s| > SoldListingsLimit then
      var oldest := s[OldestIndex(s)];
      HasIdIsWithIdNonEmpty(s, oldest.uniqueID);
      RemoveId(s, oldest.uniqueID)
    else s
  }

  /** The evicted id is the one of the first oldest entry; all its entries
      go and the entries of every other id stay as they were. */
  lemma RetainSoldEvictsFirstOldest(s: seq<Listing>, i: nat, k: string)
    requires |s| > SoldListingsLimit && FirstOldest(s, i)
    ensures RetainSold(s) == RemoveId(s, s[i].uniqueID)
    ensures WithId(RetainSold(s), k) == if k == s[i].uniqueID then [] else WithId(s, k)
  {
    OldestIndexIsFirstOldest(s);
    var o := OldestIndex(s);
    assert o == i;
    RemoveIdKeepsOtherIds(s, s[i].uniqueID, k);
  }

  /** A listing older than every entry of a full Sold is evicted by its own
      insertion, along with every entry sharing its id. */
  lemma OlderArrivalIsEvicted(s: seq<Listing>, p: Listing)
    requires |s| >= SoldListingsLimit
    requires forall j :: 0 <= j < |s| ==> LexLess(p.modTime, s[j].modTime)
    ensures RetainSold(s + [p]) == RemoveId(s, p.uniqueID)
    ensures p !in RetainSold(s + [p])
  {
    var t := s + [p];
    forall j | 0 <= j < |t| ensures !LexLess(t[j].modTime, p.modTime) {
      if j < |s| {
        LexLessAsymmetric(p.modTime, s[j].modTime);
      } else {
        LexLessIrreflexive(p.modTime);
      }
    }
    assert FirstOldest(t, |s|);
    RetainSoldEvictsFirstOldest(t, |s|, p.uniqueID);
    RemoveIdAppend(s, [p], p.uniqueID);
    assert RemoveId([p], p.uniqueID) == [] by {
      assert [p][1..] == [];
    }
    assert RemoveId(s, p.uniqueID) + [] == RemoveId(s, p.uniqueID);
  }

  /** The two lists, Current and Sold. */
  datatype Databases = Databases(current: seq<Listing>, sold: seq<Listing>)

  /** One pass of the `forEach` body for an in-scope record `p`. */
  function Reconcile(db: Databases, p: Listing): Databases {
    var current :=
      if HasId(db.current, p.uniqueID) then RemoveId(db.current, p.uniqueID) else db.current;
    match Classify(p.status)
    case RemovedStatus => Databases(current, db.sold)
    case SoldStatus => Databases(current, RetainSold(db.sold + [p]))
    case CurrentStatus => Databases(current + [p], db.sold)
  }

  /** Current after a step: every stale entry with the record's id is gone,
      the rest keep their order, and a `current` record is appended. Only a
      `sold` record touches Sold. */
  lemma ReconcileShape(db: Databases, p: Listing)
    ensures Reconcile(db, p).current ==
      RemoveId(db.current, p.uniqueID) + (if p.status == "current" then [p] else [])
    ensures p.status != "sold" ==> Reconcile(db, p).sold == db.sold
  {
    if !HasId(db.current, p.uniqueID) {
      RemoveIdAbsent(db.current, p.uniqueID);
    }
  }

  /** Entries of other ids in Current are untouched; the record's own id is
      left with exactly the record when its status is `current`, else with
      nothing. */
  lemma ReconcileCurrentEntries(db: Databases, p: Listing, k: string)
    ensures WithId(Reconcile(db, p).current, k) ==
      if k != p.uniqueID then WithId(db.current, k)
      else if p.status == "current" then [p]
      else []
  {
    ReconcileShape(db, p);
    var removed := RemoveId(db.current, p.uniqueID);
    RemoveIdKeepsOtherIds(db.current, p.uniqueID, k);
    WithIdAppend(removed, if p.status == "current" then [p] else [], k);
  }

  /** At most one entry of the record's id stays in Current; it is the
      record itself, in last position, exactly when the status is `current`. */
  lemma ReconcileCurrentHoldsRecordLast(db: Databases, p: Listing)
    ensures |WithId(Reconcile(db, p).current, p.uniqueID)| <= 1
    ensures var c := Reconcile(db, p).current;
      (|c| > 0 && c[|c| - 1] == p && |WithId(c, p.uniqueID)| == 1) <==> p.status == "current"
  {
    ReconcileShape(db, p);
    ReconcileCurrentEntries(db, p, p.uniqueID);
  }

  /** A withdrawn record (any other status) drops its id from Current and
      leaves Sold as it is, whether or not the id was known. */
  lemma ReconcileRemoved(db: Databases, p: Listing)
    requires Classify(p.status) == RemovedStatus
    ensures !HasId(Reconcile(db, p).current, p.uniqueID)
    ensures Reconcile(db, p).sold == db.sold
  {
  }

  /** A `sold` record drops its id from Current and is appended to Sold
      (with no check for an earlier Sold entry of the same id); the retention
      rule keeps Sold within the limit. */
  lemma ReconcileSold(db: Databases, p: Listing)
    requires p.status == "sold"
    ensures !HasId(Reconcile(db, p).current, p.uniqueID)
    ensures Reconcile(db, p).sold == RetainSold(db.sold + [p])
    ensures |db.sold| < SoldListingsLimit ==> Reconcile(db, p).sold == db.sold + [p]
    ensures |db.sold| <= SoldListingsLimit ==> |Reconcile(db, p).sold| <= SoldListingsLimit
  {
  }

  /** Re-applying the same `current` record changes nothing more. */
  lemma ReconcileCurrentIdempotent(db: Databases, p: Listing)
    requires p.status == "current"
    ensures Reconcile(Reconcile(db, p), p) == Reconcile(db, p)
  {
    var once := Reconcile(db, p);
    var removed := RemoveId(db.current, p.uniqueID);
    ReconcileShape(db, p);
    ReconcileShape(once, p);
    RemoveIdRemovesAll(db.current, p.uniqueID);
    RemoveIdAbsent(removed, p.uniqueID);
    RemoveIdAppend(removed, [p], p.uniqueID);
  }

  /** Sold may hold two entries with one id: the insertion does not look for
      an earlier one. */
  lemma SoldCanHoldDuplicateIds()
    ensures exists db: Databases, p: Listing ::
      p.status == "sold" && |db.sold| < SoldListingsLimit &&
      |WithId(Reconcile(db, p).sold, p.uniqueID)| == 2
  {
    var p := Listing("L1", "sold", TargetAgent, "2017-01-01", map[]);
    var db := Databases([], [p]);
    assert Reconcile(db, p).sold == [p, p];
    assert [p, p][1..] == [p] && [p][1..] == [];
    assert WithId([p], p.uniqueID) == [p];
  }

  /** An id can be in Current and Sold at once: a `current` record does not
      look at Sold. */
  lemma IdCanBeInBothLists()
    ensures exists db: Databases, p: Listing ::
      !HasId(db.current, p.uniqueID) && !HasId(db.current + db.sold, "") &&
      HasId(Reconcile(db, p).current, p.uniqueID) && HasId(Reconcile(db, p).sold, p.uniqueID)
  {
    var q := Listing("L1", "sold", TargetAgent, "2017-01-01", map[]);
    var p := Listing("L1", "current", TargetAgent, "2017-02-01", map[]);
    var db := Databases([], [q]);
    assert Reconcile(db, p) == Databases([p], [q]);
    assert Reconcile(db, p).current[0].uniqueID == p.uniqueID;
    assert Reconcile(db, p).sold[0].uniqueID == p.uniqueID;
  }

  /** The eviction can take the record just inserted, when it is the oldest. */
  lemma EvictionCanDropIncomingRecord()
    ensures exists db: Databases, p: Listing ::
      p.status == "sold" && |db.sold| == SoldListingsLimit &&
      p !in Reconcile(db, p).sold
  {
    var a := Listing("A", "sold", TargetAgent, "5", map[]);
    var b := Listing("B", "sold", TargetAgent, "6", map[]);
    var c := Listing("C", "sold", TargetAgent, "7", map[]);
    var p := Listing("D", "sold", TargetAgent, "1", map[]);
    var db := Databases([], [a, b, c]);
    assert LexLess("1", "5") && LexLess("1", "6") && LexLess("1", "7");
    OlderArrivalIsEvicted(db.sold, p);
    assert Reconcile(db, p).sold == RetainSold(db.sold + [p]);
  }

  /** The `forEach` over the in-scope records: a left fold of the step, each
      record seeing every mutation of the records before it. */
  function ReconcileAll(db: Databases, ps: seq<Listing>): Databases
    decreases |ps|
  {
    if ps == [] then db
    else Reconcile(ReconcileAll(db, ps[..|ps| - 1]), ps[|ps| - 1])
  }

  lemma {:induction false} ReconcileAllAppend(db: Databases, a: seq<Listing>, b: seq<Listing>)
    ensures ReconcileAll(db, a + b) == ReconcileAll(ReconcileAll(db, a), b)
    decreases |b|
  {
    if b == [] {
      assert a + b == a;
    } else {
      assert (a + b)[..|a + b| - 1] == a + b[..|b| - 1];
      ReconcileAllAppend(db, a, b[..|b| - 1]);
    }
  }

  /** `updateDB` on one feed: the agent filter, then the fold. */
  function ApplyFeed(db: Databases, residential: seq<Listing>): Databases {
    ReconcileAll(db, InScope(residential))
  }

  /** Appending a record to a feed adds one step when it is in scope and
      nothing otherwise. */
  lemma ApplyFeedSnoc(db: Databases, ps: seq<Listing>, p: Listing)
    ensures ApplyFeed(db, ps + [p]) ==
      if IsTargetAgent(p) then Reconcile(ApplyFeed(db, ps), p) else ApplyFeed(db, ps)
  {
    InScopeAppend(ps, [p]);
    assert InScope([p]) == if IsTargetAgent(p) then [p] else [] by {
      assert [p][1..] == [];
    }
    ReconcileAllAppend(db, InScope(ps), InScope([p]));
    if IsTargetAgent(p) {
      assert ReconcileAll(ApplyFeed(db, ps), [p]) == Reconcile(ApplyFeed(db, ps), p) by {
        assert [p][..0] == [];
      }
    } else {
      assert InScope(ps) + [] == InScope(ps);
    }
  }

  /** A record of another agent has no effect, wherever it sits in the feed. */
  lemma OtherAgentIgnored(db: Databases, a: seq<Listing>, p: Listing, b: seq<Listing>)
    requires !IsTargetAgent(p)
    ensures ApplyFeed(db, a + [p] + b) == ApplyFeed(db, a + b)
  {
    InScopeAppend(a + [p], b);
    InScopeAppend(a, [p]);
    InScopeAppend(a, b);
    assert InScope([p]) == [] by {
      assert [p][1..] == [];
    }
    assert InScope(a) + [] == InScope(a);
  }

  lemma {:induction false} ReconcileAllKeepsSoldBound(db: Databases, ps: seq<Listing>)
    requires |db.sold| <= SoldListingsLimit
    ensures |ReconcileAll(db, ps).sold| <= SoldListingsLimit
    decreases |ps|
  {
    if ps != [] {
      var before := ReconcileAll(db, ps[..|ps| - 1]);
      ReconcileAllKeepsSoldBound(db, ps[..|ps| - 1]);
      var p := ps[|ps| - 1];
      if p.status == "sold" {
        ReconcileSold(before, p);
      } else {
        ReconcileShape(before, p);
      }
    }
  }

  /** A feed of the target agent alone passes the filter whole. */
  lemma {:induction false} InScopeAllTarget(ps: seq<Listing>)
    requires forall j :: 0 <= j < |ps| ==> IsTargetAgent(ps[j])
    ensures InScope(ps) == ps
    decreases |ps|
  {
    if ps != [] {
      InScopeAllTarget(ps[1..]);
      assert ps == [ps[0]] + ps[1..];
    }
  }

  /** Below the limit, `sold` records with fresh ids into empty lists are
      simply appended to Sold. */
  lemma ThreeSoldFromEmpty(a: Listing, b: Listing, c: Listing)
    requires a.status == "sold" && b.status == "sold" && c.status == "sold"
    ensures ReconcileAll(Databases([], []), [a, b, c]) == Databases([], [a, b, c])
  {
    var empty := Databases([], []);
    assert [a][..0] == [];
    assert ReconcileAll(empty, [a]) == Databases([], [a]);
    assert [a, b][..1] == [a];
    assert ReconcileAll(empty, [a, b]) == Databases([], [a, b]);
    assert [a, b, c][..2] == [a, b];
  }

  /** Over the limit, a strictly oldest head entry whose id is unique is the
      only entry to go. */
  lemma StrictlyOldestHeadEvicted(h: Listing, t: seq<Listing>)
    requires |t| >= SoldListingsLimit && !HasId(t, h.uniqueID)
    requires forall j :: 0 <= j < |t| ==> LexLess(h.modTime, t[j].modTime)
    ensures RetainSold([h] + t) == t
  {
    var s := [h] + t;
    LexLessIrreflexive(h.modTime);
    forall j | 0 <= j < |s| ensures !LexLess(s[j].modTime, h.modTime) {
      if j > 0 {
        assert s[j] == t[j - 1];
        LexLessAsymmetric(h.modTime, t[j - 1].modTime);
      }
    }
    assert FirstOldest(s, 0);
    RetainSoldEvictsFirstOldest(s, 0, h.uniqueID);
    RemoveIdAppend([h], t, h.uniqueID);
    assert RemoveId([h], h.uniqueID) == [] by {
      assert [h][1..] == [];
    }
    RemoveIdAbsent(t, h.uniqueID);
  }

  /** A `sold` record arriving at a full Sold whose head is strictly the
      oldest, with an id of its own, pushes that head out. */
  lemma SoldArrivalEvictsOldestHead(db: Databases, p: Listing)
    requires p.status == "sold" && |db.sold| == SoldListingsLimit
    requires !HasId(db.sold[1..] + [p], db.sold[0].uniqueID)
    requires forall j :: 0 <= j < |db.sold[1..] + [p]| ==>
      LexLess(db.sold[0].modTime, (db.sold[1..] + [p])[j].modTime)
    ensures Reconcile(db, p).sold == db.sold[1..] + [p]
  {
    assert db.sold + [p] == [db.sold[0]] + (db.sold[1..] + [p]);
    StrictlyOldestHeadEvicted(db.sold[0], db.sold[1..] + [p]);
  }

  /** Four `sold` records of the agent into empty lists, the first strictly
      older than the rest and with an id of its own: the last three stay in
      Sold. */
  lemma FourSoldKeepNewestThree(l1: Listing, l2: Listing, l3: Listing, l4: Listing)
    requires forall l <- [l1, l2, l3, l4] :: l.status == "sold" && IsTargetAgent(l)
    requires forall l <- [l2, l3, l4] :: LexLess(l1.modTime, l.modTime) && l.uniqueID != l1.uniqueID
    ensures ApplyFeed(Databases([], []), [l1, l2, l3, l4]) == Databases([], [l2, l3, l4])
  {
    var s := [l1, l2, l3, l4];
    var empty := Databases([], []);
    assert InScope(s) == s by {
      assert forall j :: 0 <= j < |s| ==> s[j] in s;
      InScopeAllTarget(s);
    }
    assert s[..3] == [l1, l2, l3];
    ThreeSoldFromEmpty(l1, l2, l3);
    var three := Databases([], [l1, l2, l3]);
    assert three.sold[1..] + [l4] == [l2, l3, l4];
    SoldArrivalEvictsOldestHead(three, l4);
    assert !HasId(three.current, l4.uniqueID);
  }
}
