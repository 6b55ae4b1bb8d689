/**
 * `fetchDomains` of aggregation/fetch/domains.ts: load the allow list,
 * fold every allow-list source into the allow set, then every text, JSON
 * and CSV blocklist source into the disposable set, skipping allowed names.
 * The phases run one after the other, so the allow set is complete before
 * the first disposable name is checked against it.
 */
module FetchDomains {
  import opened Wrappers
  import opened Text
  import opened DomainValidation
  import opened LineFiles
  import opened Registry
  import opened FetchData

  /** The batches of names, one after the other. */
  function Concat(batches: seq<seq<string>>): seq<string> {
    if batches == [] then []
    else Concat(batches[..|batches| - 1]) + batches[|batches| - 1]
  }

  /** Every name of every batch is among the concatenated names. */
  lemma {:induction false} ConcatCover(batches: seq<seq<string>>)
    ensures forall k, x | 0 <= k < |batches| && x in batches[k] :: x in Concat(batches)
  {
    if batches != [] {
      var init := batches[..|batches| - 1];
      ConcatCover(init);
      forall k, x | 0 <= k < |batches| && x in batches[k] ensures x in Concat(batches) {
        if k < |init| {
          assert init[k] == batches[k];
        }
      }
    }
  }

  /** The names the sources yield, source after source. */
  function FetchedNames(sources: seq<Source>): seq<string> {
    Concat(MapSeq(sources, Fetch))
  }

  /** Every name any source yields is among the fetched names. */
  lemma FetchedNamesCover(sources: seq<Source>)
    ensures forall k, x | 0 <= k < |sources| && x in Fetch(sources[k]) :: x in FetchedNames(sources)
  {
    ConcatCover(MapSeq(sources, Fetch));
  }

  lemma FetchedNamesPrefix(sources: seq<Source>, k: nat)
    requires k < |sources|
    ensures FetchedNames(sources[..k + 1]) == FetchedNames(sources[..k]) + Fetch(sources[k])
  {
    var batches := MapSeq(sources[..k + 1], Fetch);
    assert batches[..k] == MapSeq(sources[..k], Fetch);
    assert batches[k] == Fetch(sources[k]);
  }

  /** Accepting the names of two batches is accepting each batch. */
  lemma AcceptedAppend(a: seq<string>, b: seq<string>, tldSet: set<string>, excluded: set<string>)
    ensures Accepted(a + b, tldSet, excluded) == Accepted(a, tldSet, excluded) + Accepted(b, tldSet, excluded)
  {
    AcceptedExactly(a + b, tldSet, excluded);
    AcceptedExactly(a, tldSet, excluded);
    AcceptedExactly(b, tldSet, excluded);
  }

  /** The allow sources are all read in plain mode. */
  function PlainSources(responses: seq<Response>): (r: seq<Source>)
    ensures |r| == |responses|
    ensures forall k | 0 <= k < |r| :: r[k].key.None? && r[k].col.None?
  {
    MapSeq(responses, PlainSource)
  }

  class Aggregation {
    var allowlistSet: set<string>
    var disposables: set<string>

    constructor ()
      ensures allowlistSet == {} && disposables == {}
    {
      allowlistSet := {};
      disposables := {};
    }

    /** Lines 55-61: a present allow-list file replaces the allow set. */
    method LoadAllowlist(allowFile: Option<string>)
      modifies this
      ensures allowlistSet == Reload(old(allowlistSet), allowFile, ParseList)
      ensures disposables == old(disposables)
    {
      if allowFile.Some? {
        allowlistSet := SetOf(ParseList(allowFile.value));
      }
    }

    /** Lines 66-70: the `forEach` over one allow source's names, with `validateDomain` awaited. */
    method AddAllowed(domains: seq<string>, tldSet: set<string>)
      modifies this
      ensures allowlistSet == old(allowlistSet) + Accepted(domains, tldSet, {})
      ensures disposables == old(disposables)
    {
      for i := 0 to |domains|
        invariant allowlistSet == old(allowlistSet) + Accepted(domains[..i], tldSet, {})
        invariant disposables == old(disposables)
      {
        var domain := domains[i];
        var valid := ValidateDomain(domain, tldSet);
        AcceptedStep(domains, i, tldSet, {});
        assert Admissible(domain, tldSet, {}) == valid;
        if valid {
          allowlistSet := allowlistSet + {domain};
        }
      }
      assert domains[..|domains|] == domains;
    }

    /** Lines 79-84, 90-95, 101-106: the `forEach` over one blocklist source's names, with `validateDomain` awaited. */
    method AddDisposable(domains: seq<string>, tldSet: set<string>)
      modifies this
      ensures disposables == old(disposables) + Accepted(domains, tldSet, allowlistSet)
      ensures allowlistSet == old(allowlistSet)
    {
      for i := 0 to |domains|
        invariant disposables == old(disposables) + Accepted(domains[..i], tldSet, old(allowlistSet))
        invariant allowlistSet == old(allowlistSet)
      {
        var domain := domains[i];
        var valid := ValidateDomain(domain, tldSet);
        AcceptedStep(domains, i, tldSet, allowlistSet);
        assert Admissible(domain, tldSet, allowlistSet) == (valid && domain !in allowlistSet);
        if valid && domain !in allowlistSet {
          disposables := disposables + {domain};
        }
      }
      assert domains[..|domains|] == domains;
    }

    /** Lines 64-72: every allow source, fetched in plain mode. */
    method AllowPhase(sources: seq<Source>, tldSet: set<string>)
      modifies this
      ensures allowlistSet == old(allowlistSet) + Accepted(FetchedNames(sources), tldSet, {})
      ensures disposables == old(disposables)
    {
      for k := 0 to |sources|
        invariant allowlistSet == old(allowlistSet) + Accepted(FetchedNames(sources[..k]), tldSet, {})
        invariant disposables == old(disposables)
      {
        var domains := Fetch(sources[k]);
        FetchedNamesPrefix(sources, k);
        AcceptedAppend(FetchedNames(sources[..k]), domains, tldSet, {});
        AddAllowed(domains, tldSet);
      }
      assert sources[..|sources|] == sources;
    }

    /** Lines 77-107: every blocklist source, text, JSON and CSV in that order. */
    method BlockPhase(sources: seq<Source>, tldSet: set<string>)
      modifies this
      ensures disposables == old(disposables) + Accepted(FetchedNames(sources), tldSet, allowlistSet)
      ensures allowlistSet == old(allowlistSet)
    {
      for k := 0 to |sources|
        invariant disposables == old(disposables) + Accepted(FetchedNames(sources[..k]), tldSet, old(allowlistSet))
        invariant allowlistSet == old(allowlistSet)
      {
        var domains := Fetch(sources[k]);
        FetchedNamesPrefix(sources, k);
        AcceptedAppend(FetchedNames(sources[..k]), domains, tldSet, allowlistSet);
        AddDisposable(domains, tldSet);
      }
      assert sources[..|sources|] == sources;
    }

    /**
     * fetchDomains with `validateDomain` awaited: the allow set gains the
     * valid names of the allow sources, and the disposable set the valid
     * names of the blocklist sources that are not in the finished allow set.
     */
    method FetchDomains(allowFile: Option<string>, allowResponses: seq<Response>, blockSources: seq<Source>, tldSet: set<string>)
      modifies this
      ensures allowlistSet == Reload(old(allowlistSet), allowFile, ParseList) + Accepted(FetchedNames(PlainSources(allowResponses)), tldSet, {})
      ensures disposables == old(disposables) + Accepted(FetchedNames(blockSources), tldSet, allowlistSet)
      ensures forall x | x in disposables && x !in old(disposables) :: IsValidDomain(x, tldSet) && x !in allowlistSet
    {
      LoadAllowlist(allowFile);
      AllowPhase(PlainSources(allowResponses), tldSet);
      BlockPhase(blockSources, tldSet);
      AcceptedExactly(FetchedNames(blockSources), tldSet, allowlistSet);
    }
  }

  /**
   * Sequential phases: whatever allow set the first phase leaves, the names
   * the second phase adds are valid and outside it, and every valid allowed
   * name the allow sources yield is in it.
   */
  lemma PhasesKeepListsApart(allowBase: set<string>, listBase: set<string>, allowNames: seq<string>,
                             blockNames: seq<string>, tldSet: set<string>)
    ensures var allowed := allowBase + Accepted(allowNames, tldSet, {});
      && (forall x | x in allowNames && IsValidDomain(x, tldSet) :: x in allowed)
      && (forall x | x in listBase + Accepted(blockNames, tldSet, allowed) && x !in listBase
            :: IsValidDomain(x, tldSet) && x !in allowed)
  {
    var allowed := allowBase + Accepted(allowNames, tldSet, {});
    AcceptedExactly(allowNames, tldSet, {});
    AcceptedExactly(blockNames, tldSet, allowed);
  }

  /**
   * As written, lines 67, 80, 91 and 102 test the Promise `validateDomain`
   * returns without awaiting it; a Promise is truthy, so every name passes
   * and only the allow-list test is left.
   */
  function UnawaitedAccepted(names: seq<string>, excluded: set<string>): (r: set<string>)
    ensures forall x :: x in r <==> x in names && x !in excluded
  {
    set x | x in names && x !in excluded
  }

  /**
   * As written, a merge admits everything the awaited test admits, and
   * beyond that exactly the non-excluded names that fail validation.
   */
  lemma UnawaitedOverAdmits(names: seq<string>, tldSet: set<string>, excluded: set<string>)
    ensures Accepted(names, tldSet, excluded) <= UnawaitedAccepted(names, excluded)
    ensures UnawaitedAccepted(names, excluded) - Accepted(names, tldSet, excluded)
            == set x | x in names && x !in excluded && !IsValidDomain(x, tldSet)
  {
    AcceptedExactly(names, tldSet, excluded);
  }

  /** A plain-mode source yielding `localhost`, a name with one label, puts it in the allow set as written, not once awaited. */
  lemma UnawaitedAdmitsInvalidName(tldSet: set<string>)
    ensures "localhost" in UnawaitedAccepted(["localhost"], {})
    ensures !IsValidDomain("localhost", tldSet)
    ensures "localhost" !in Accepted(["localhost"], tldSet, {})
  {
    SplitWithoutSeparator("localhost", '.');
    AcceptedExactly(["localhost"], tldSet, {});
  }
}
