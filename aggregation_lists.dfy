/**
 * aggregation/utils/add-to-list.ts: the module-level allow set, disposable
 * set and list size, and the two merges that reload them from the registry
 * files, fold in new candidates and write the files back.
 */
module AggregationLists {
  import opened Wrappers
  import opened Text
  import opened Ordering
  import opened DomainValidation
  import opened LineFiles
  import opened Registry

  class Lists {
    var allowlistSet: set<string>
    var disposables: set<string>
    var currentListSize: int

    /** Every stored name is a trimmed, lower-case, one-line entry. */
    predicate Valid()
      reads this
    {
      && (forall x | x in allowlistSet :: Canonical(x))
      && (forall x | x in disposables :: Canonical(x))
      && currentListSize >= 0
    }

    /** The module's initial state: two empty sets and a size of 0. */
    constructor ()
      ensures Valid()
      ensures allowlistSet == {} && disposables == {} && currentListSize == 0
    {
      allowlistSet := {};
      disposables := {};
      currentListSize := 0;
    }

    /** Lines 49-53 and 90-94: a present allow-list file replaces the allow set. */
    method LoadAllowlist(allowFile: Option<string>)
      requires Valid()
      modifies this
      ensures Valid()
      ensures allowlistSet == Reload(old(allowlistSet), allowFile, ParseList)
      ensures disposables == old(disposables) && currentListSize == old(currentListSize)
    {
      if allowFile.Some? {
        allowlistSet := SetOf(ParseList(allowFile.value));
      }
    }

    /** Lines 97-102: a present list file replaces the disposable set and records its line count. */
    method LoadDisposables(listFile: Option<string>)
      requires Valid()
      modifies this
      ensures Valid()
      ensures disposables == Reload(old(disposables), listFile, ParseList)
      ensures currentListSize == if listFile.Some? then |ParseList(listFile.value)| else old(currentListSize)
      ensures allowlistSet == old(allowlistSet)
    {
      if listFile.Some? {
        var lines := ParseList(listFile.value);
        disposables := SetOf(lines);
        currentListSize := |lines|;
      }
    }

    /** Lines 56-61: every normalised candidate that validates joins the allow set. */
    method MergeIntoAllowlist(domains: seq<string>, tldSet: set<string>)
      requires Valid()
      modifies this
      ensures Valid()
      ensures allowlistSet == old(allowlistSet) + Accepted(Normalized(domains), tldSet, {})
      ensures disposables == old(disposables) && currentListSize == old(currentListSize)
    {
      ghost var baseline := allowlistSet;
      for i := 0 to |domains|
        invariant allowlistSet == baseline + Accepted(Normalized(domains[..i]), tldSet, {})
        invariant disposables == old(disposables) && currentListSize == old(currentListSize)
      {
        var normalizedDomain := Normalize(domains[i]);
        var valid := ValidateDomain(normalizedDomain, tldSet);
        ghost var before := allowlistSet;
        if valid {
          allowlistSet := allowlistSet + {normalizedDomain};
        }
        FoldStep(baseline, domains, i, tldSet, {}, before, allowlistSet, valid);
      }
      assert domains[..|domains|] == domains;
      MergedCanonical(baseline, domains, tldSet, {});
    }

    /** Lines 105-110: every normalised candidate that validates and is not allow-listed joins the disposable set. */
    method MergeIntoDisposables(domains: seq<string>, tldSet: set<string>)
      requires Valid()
      modifies this
      ensures Valid()
      ensures disposables == old(disposables) + Accepted(Normalized(domains), tldSet, allowlistSet)
      ensures allowlistSet == old(allowlistSet) && currentListSize == old(currentListSize)
    {
      ghost var baseline := disposables;
      for i := 0 to |domains|
        invariant disposables == baseline + Accepted(Normalized(domains[..i]), tldSet, old(allowlistSet))
        invariant allowlistSet == old(allowlistSet) && currentListSize == old(currentListSize)
      {
        var normalizedDomain := Normalize(domains[i]);
        var valid := ValidateDomain(normalizedDomain, tldSet);
        ghost var before := disposables;
        if valid && normalizedDomain !in allowlistSet {
          disposables := disposables + {normalizedDomain};
        }
        FoldStep(baseline, domains, i, tldSet, allowlistSet, before, disposables, valid && normalizedDomain !in allowlistSet);
      }
      assert domains[..|domains|] == domains;
      MergedCanonical(baseline, domains, tldSet, allowlistSet);
    }

    /**
     * addToAllowlist: reload the allow set from `allowFile` when it exists,
     * add every normalised candidate that validates, and return the new
     * `data/allow_list.txt`, the allow set in sorted order under its header.
     */
    method AddToAllowlist(allowFile: Option<string>, domains: seq<string>, tldSet: set<string>, urls: seq<string>)
      returns (allowText: string)
      requires Valid()
      modifies this
      ensures Valid()
      ensures allowlistSet == Reload(old(allowlistSet), allowFile, ParseList) + Accepted(Normalized(domains), tldSet, {})
      ensures disposables == old(disposables) && currentListSize == old(currentListSize)
      ensures allowText == AllowlistText(urls, SortedList(allowlistSet))
      ensures OneLineEach(urls) && NoCommentEntries(allowlistSet) ==> ParseList(allowText) == SortedList(allowlistSet)
    {
      LoadAllowlist(allowFile);
      MergeIntoAllowlist(domains, tldSet);
      allowText := AllowlistText(urls, SortedList(allowlistSet));
      if OneLineEach(urls) && NoCommentEntries(allowlistSet) {
        AllowlistRoundTrip(urls, allowlistSet);
      }
    }

    /**
     * addToDisposableList: reload both sets from their files when they
     * exist, add every normalised candidate that validates and is not
     * allow-listed, and return the new `data/domains.txt`.
     */
    method AddToDisposableList(allowFile: Option<string>, listFile: Option<string>, domains: seq<string>,
                               tldSet: set<string>, txtUrls: seq<string>, jsonUrls: seq<string>,
                               csvUrls: seq<string>, stamp: string)
      returns (listText: string)
      requires Valid()
      modifies this
      ensures Valid()
      ensures allowlistSet == Reload(old(allowlistSet), allowFile, ParseList)
      ensures disposables == Reload(old(disposables), listFile, ParseList) + Accepted(Normalized(domains), tldSet, allowlistSet)
      ensures currentListSize == if listFile.Some? then |ParseList(listFile.value)| else old(currentListSize)
      ensures listText == ListText(txtUrls, jsonUrls, csvUrls, stamp, SortedList(disposables))
      ensures (OneLineEach(txtUrls) && OneLineEach(jsonUrls) && OneLineEach(csvUrls) && '\n' !in stamp
               && NoCommentEntries(disposables)) ==> ParseList(listText) == SortedList(disposables)
    {
      LoadAllowlist(allowFile);
      LoadDisposables(listFile);
      MergeIntoDisposables(domains, tldSet);
      listText := ListText(txtUrls, jsonUrls, csvUrls, stamp, SortedList(disposables));
      if OneLineEach(txtUrls) && OneLineEach(jsonUrls) && OneLineEach(csvUrls) && '\n' !in stamp && NoCommentEntries(disposables) {
        ListRoundTrip(txtUrls, jsonUrls, csvUrls, stamp, disposables);
      }
    }
  }
}
