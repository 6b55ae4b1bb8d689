/**
 * utils/add-to-list.ts: the module-level allow set, disposable set and list
 * size, and the default-export merge that reloads them, folds in new
 * candidates and writes `data/domains.txt` back. Unlike the aggregation
 * copy, it reads the allow list with the comment-keeping parser.
 */
module AddToList {
  import opened Wrappers
  import opened Text
  import opened Ordering
  import opened DomainValidation
  import opened LineFiles
  import opened Registry

  class Lists {
    var allowlistSet: set<string>
    var disposables: set<string>
    var currentListSize: int

    /** Every stored name is a trimmed, lower-case, one-line entry. */
    predicate Valid()
      reads this
    {
      && (forall x | x in allowlistSet :: Canonical(x))
      && (forall x | x in disposables :: Canonical(x))
      && currentListSize >= 0
    }

    /** The module's initial state: two empty sets and a size of 0. */
    constructor ()
      ensures Valid()
      ensures allowlistSet == {} && disposables == {} && currentListSize == 0
    {
      allowlistSet := {};
      disposables := {};
      currentListSize := 0;
    }

    /** Lines 16-20: a present allow list replaces the allow set, `#` lines included. */
    method LoadAllowlist(allowFile: Option<string>)
      requires Valid()
      modifies this
      ensures Valid()
      ensures allowlistSet == Reload(old(allowlistSet), allowFile, ParseAllowList)
      ensures disposables == old(disposables) && currentListSize == old(currentListSize)
    {
      if allowFile.Some? {
        allowlistSet := SetOf(ParseAllowList(allowFile.value));
      }
    }

    /** Lines 23-28: a present list file replaces the disposable set, without its `#` lines, and records its length. */
    method LoadDisposables(listFile: Option<string>)
      requires Valid()
      modifies this
      ensures Valid()
      ensures disposables == Reload(old(disposables), listFile, ParseList)
      ensures currentListSize == if listFile.Some? then |ParseList(listFile.value)| else old(currentListSize)
      ensures allowlistSet == old(allowlistSet)
    {
      if listFile.Some? {
        var lines := ParseList(listFile.value);
        disposables := SetOf(lines);
        currentListSize := |lines|;
      }
    }

    /** Lines 16-28: present files replace the sets; the allow list keeps its `#` lines. */
    method LoadBaselines(allowFile: Option<string>, listFile: Option<string>)
      requires Valid()
      modifies this
      ensures Valid()
      ensures allowlistSet == Reload(old(allowlistSet), allowFile, ParseAllowList)
      ensures disposables == Reload(old(disposables), listFile, ParseList)
      ensures currentListSize == if listFile.Some? then |ParseList(listFile.value)| else old(currentListSize)
    {
      LoadAllowlist(allowFile);
      LoadDisposables(listFile);
    }

    /** Lines 31-36: every normalised candidate that validates and is not allow-listed joins the disposable set. */
    method MergeIntoDisposables(domains: seq<string>, tldSet: set<string>)
      requires Valid()
      modifies this
      ensures Valid()
      ensures disposables == old(disposables) + Accepted(Normalized(domains), tldSet, allowlistSet)
      ensures allowlistSet == old(allowlistSet) && currentListSize == old(currentListSize)
    {
      ghost var baseline := disposables;
      for i := 0 to |domains|
        invariant disposables == baseline + Accepted(Normalized(domains[..i]), tldSet, old(allowlistSet))
        invariant allowlistSet == old(allowlistSet) && currentListSize == old(currentListSize)
      {
        var normalizedDomain := Normalize(domains[i]);
        var valid := ValidateDomain(normalizedDomain, tldSet);
        ghost var before := disposables;
        if valid && normalizedDomain !in allowlistSet {
          disposables := disposables + {normalizedDomain};
        }
        FoldStep(baseline, domains, i, tldSet, allowlistSet, before, disposables, valid && normalizedDomain !in allowlistSet);
      }
      assert domains[..|domains|] == domains;
      MergedCanonical(baseline, domains, tldSet, allowlistSet);
    }

    /**
     * The default export: reload both sets, merge the candidates, and return
     * the new `data/domains.txt`, the disposable set in sorted order under a
     * header naming the allow-list, text and JSON sources.
     */
    method AddToList(allowFile: Option<string>, listFile: Option<string>, domains: seq<string>,
                     tldSet: set<string>, allowUrls: seq<string>, txtUrls: seq<string>,
                     jsonUrls: seq<string>, stamp: string)
      returns (listText: string)
      requires Valid()
      modifies this
      ensures Valid()
      ensures allowlistSet == Reload(old(allowlistSet), allowFile, ParseAllowList)
      ensures disposables == Reload(old(disposables), listFile, ParseList) + Accepted(Normalized(domains), tldSet, allowlistSet)
      ensures currentListSize == if listFile.Some? then |ParseList(listFile.value)| else old(currentListSize)
      ensures listText == ListText(allowUrls, txtUrls, jsonUrls, stamp, SortedList(disposables))
      ensures (OneLineEach(allowUrls) && OneLineEach(txtUrls) && OneLineEach(jsonUrls) && '\n' !in stamp
               && NoCommentEntries(disposables)) ==> ParseList(listText) == SortedList(disposables)
    {
      LoadBaselines(allowFile, listFile);
      MergeIntoDisposables(domains, tldSet);
      listText := ListText(allowUrls, txtUrls, jsonUrls, stamp, SortedList(disposables));
      if OneLineEach(allowUrls) && OneLineEach(txtUrls) && OneLineEach(jsonUrls) && '\n' !in stamp && NoCommentEntries(disposables) {
        ListRoundTrip(allowUrls, txtUrls, jsonUrls, stamp, disposables);
      }
    }
  }
}
