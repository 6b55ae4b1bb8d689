/**
 * The baseline loading of `updateDomainList` in scripts/fetch-domains.ts:
 * the module-level allow set, disposable set and list size, reloaded from
 * `data/allow_list.txt` and `data/domains.txt` when they exist. Its
 * `fetchData` is the one of module FetchData.
 */
module FetchScript {
  import opened Wrappers
  import opened Text
  import opened LineFiles
  import opened Registry

  class Baselines {
    var allowlistSet: set<string>
    var disposables: set<string>
    var currentListSize: int

    /** Every stored name is a trimmed, lower-case, one-line entry. */
    predicate Valid()
      reads this
    {
      && (forall x | x in allowlistSet :: Canonical(x))
      && (forall x | x in disposables :: Canonical(x))
      && currentListSize >= 0
    }

    /** Lines 9-12: two empty sets and a size of 0. */
    constructor ()
      ensures Valid()
      ensures allowlistSet == {} && disposables == {} && currentListSize == 0
    {
      allowlistSet := {};
      disposables := {};
      currentListSize := 0;
    }

    /** Lines 62-66: a present allow list replaces the allow set, `#` lines included. */
    method LoadAllowlist(allowFile: Option<string>)
      requires Valid()
      modifies this
      ensures Valid()
      ensures allowlistSet == Reload(old(allowlistSet), allowFile, ParseAllowList)
      ensures disposables == old(disposables) && currentListSize == old(currentListSize)
    {
      if allowFile.Some? {
        var allowlistLines := ParseAllowList(allowFile.value);
        allowlistSet := SetOf(allowlistLines);
      }
    }

    /**
     * Lines 69-74: a present list file replaces the disposable set, without
     * its `#` lines, and records how many entries it had.
     */
    method LoadDisposables(listFile: Option<string>)
      requires Valid()
      modifies this
      ensures Valid()
      ensures disposables == Reload(old(disposables), listFile, ParseList)
      ensures currentListSize == if listFile.Some? then |ParseList(listFile.value)| else old(currentListSize)
      ensures listFile.Some? ==> |disposables| <= currentListSize
      ensures allowlistSet == old(allowlistSet)
    {
      if listFile.Some? {
        var disposablesListLines := ParseList(listFile.value);
        SetOfSize(disposablesListLines);
        disposables := SetOf(disposablesListLines);
        currentListSize := |disposablesListLines|;
      }
    }

    /**
     * Lines 62-74: both baselines, the allow list keeping its `#` lines and
     * the list file dropping them.
     */
    method LoadBaselines(allowFile: Option<string>, listFile: Option<string>)
      requires Valid()
      modifies this
      ensures Valid()
      ensures allowlistSet == Reload(old(allowlistSet), allowFile, ParseAllowList)
      ensures disposables == Reload(old(disposables), listFile, ParseList)
      ensures currentListSize == if listFile.Some? then |ParseList(listFile.value)| else old(currentListSize)
      ensures listFile.Some? ==> |disposables| <= currentListSize
    {
      LoadAllowlist(allowFile);
      LoadDisposables(listFile);
    }
  }

  /** A set built from a list has at most as many elements as the list has entries. */
  lemma {:induction false} SetOfSize(xs: seq<string>)
    ensures |SetOf(xs)| <= |xs|
  {
    if xs != [] {
      SetOfSize(xs[1..]);
      assert SetOf(xs) == {xs[0]} + SetOf(xs[1..]) by {
        forall x | x in SetOf(xs) ensures x in {xs[0]} + SetOf(xs[1..]) {
          var i :| 0 <= i < |xs| && xs[i] == x;
          if i > 0 {
            assert xs[1..][i - 1] == x;
          }
        }
      }
    }
  }

  /**
   * The two baselines read a comment line differently: the allow list
   * stores `#` lines as names, the disposable list skips them.
   */
  lemma CommentLineReadTwoWays(comment: string)
    requires Canonical(comment) && StartsWith(comment, "#")
    ensures ParseAllowList(comment) == [comment]
    ensures ParseList(comment) == []
  {
    IndentedCommentLeaks(comment);
    AllowListSingleEntry(comment);
  }

  /** A one-line allow list holding a stored entry parses to that entry. */
  lemma AllowListSingleEntry(entry: string)
    requires Canonical(entry)
    ensures ParseAllowList(entry) == [entry]
  {
    SplitWithoutSeparator(entry, '\n');
    var normalized := MapSeq(Split(entry, '\n'), Normalize);
    assert normalized == [entry];
    FilterAll(normalized, IsNonEmpty);
  }
}
