/** The two process-wide lists as mutable state, and the steps of a run that
    update them in place: one record (the `forEach` body of `updateDB`), one
    feed file (`updateDB`), the files in turn (`processFiles`) and a whole
    directory (`main`). Each step is proved against the pure functions of
    `Reconciliation` and `Batch`. */
module Store {
  import opened Listings
  import opened Reconciliation
  import opened Batch

  class ListingStore {
    /** The `propertyList` of the current-listings database. */
    var current: seq<Listing>
    /** The `propertyList` of the sold-listings database. */
    var sold: seq<Listing>

    function State(): Databases
      reads this
    {
      Databases(current, sold)
    }

    /** The two lists as loaded when the process starts. */
    constructor (current0: seq<Listing>, sold0: seq<Listing>)
      ensures State() == Databases(current0, sold0)
    {
      current := current0;
      sold := sold0;
    }

    /** One in-scope record: drop its stale Current entries, then append it to
        Sold (evicting the oldest id past the limit) or to Current, or stop. */
    method ReconcileListing(property: Listing)
      modifies this
      ensures State() == Reconcile(old(State()), property)
      ensures |old(sold)| <= SoldListingsLimit ==> |sold| <= SoldListingsLimit
    {
      ghost var before := State();
      var propertySold := property.status == "sold";
      var propertyRemoved := !propertySold && property.status != "current";
      var inCurrentDB := HasId(current, property.uniqueID);
      if inCurrentDB {
        current := RemoveId(current, property.uniqueID);
      }
      if propertyRemoved {
        return;
      }
      if propertySold {
        sold := sold + [property];
        var soldDBListingCount := |sold|;
        if soldDBListingCount > SoldListingsLimit {
          var oldestSoldListing := sold[OldestIndex(sold)];
          sold := RemoveId(sold, oldestSoldListing.uniqueID);
        }
        ReconcileSold(before, property);
        return;
      }
      current := current + [property];
    }

    /** `updateDB` on one parsed feed: keep the agent's records, then apply
        them one after another in document order. */
    method UpdateDB(residential: seq<Listing>)
      modifies this
      ensures State() == ApplyFeed(old(State()), residential)
      ensures |old(sold)| <= SoldListingsLimit ==> |sold| <= SoldListingsLimit
    {
      var properties := InScope(residential);
      var i := 0;
      while i < |properties|
        invariant 0 <= i <= |properties|
        invariant State() == ReconcileAll(old(State()), properties[..i])
        invariant |old(sold)| <= SoldListingsLimit ==> |sold| <= SoldListingsLimit
      {
        ReconcileListing(properties[i]);
        assert properties[..i + 1][..i] == properties[..i];
        i := i + 1;
      }
      assert properties[..i] == properties;
    }

    /** `processFiles`: the files' feeds applied in the given order, each
        file in full before the next. */
    method ProcessFiles(files: seq<FeedFile>)
      modifies this
      ensures State() == ApplyFiles(old(State()), files)
      ensures |old(sold)| <= SoldListingsLimit ==> |sold| <= SoldListingsLimit
    {
      var i := 0;
      while i < |files|
        invariant 0 <= i <= |files|
        invariant State() == ApplyFiles(old(State()), files[..i])
        invariant |old(sold)| <= SoldListingsLimit ==> |sold| <= SoldListingsLimit
      {
        UpdateDB(files[i].residential);
        assert files[..i + 1][..i] == files[..i];
        i := i + 1;
      }
      assert files[..i] == files;
    }

    /** `main`: nothing for an empty directory, else its files in name
        order. */
    method ProcessDirectory(dir: seq<FeedFile>)
      modifies this
      ensures State() == Run(old(State()), dir)
      ensures |old(sold)| <= SoldListingsLimit ==> |sold| <= SoldListingsLimit
    {
      if |dir| == 0 {
        return;
      }
      var files := SortByName(dir);
      ProcessFiles(files);
    }
  }
}
