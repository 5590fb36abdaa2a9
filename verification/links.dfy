/** `removeUnwantedHrefs`: turns the anchor targets of a directory listing
    into the absolute URLs to descend into. */
module Links {
  import opened Strings

  /** Name of the marker file looked for in every directory. */
  const Readme: string := "README"

  /** The parent-directory link of an "index of" listing. */
  const ParentRef: string := "../"

  /** An href that is neither the marker file nor the parent link. */
  predicate Wanted(href: string) {
    href != Readme && href != ParentRef
  }

  /** Number of wanted hrefs in `hrefs`. */
  function CountWanted(hrefs: seq<string>): nat {
    if hrefs == [] then 0
    else CountWanted(hrefs[..|hrefs| - 1]) + (if Wanted(hrefs[|hrefs| - 1]) then 1 else 0)
  }

  /** Child URLs of `currentUrl`: every wanted href, in order, prefixed with
      `currentUrl`. Written as the loop builds it, by appending. */
  function RemoveUnwantedHrefs(currentUrl: string, hrefs: seq<string>): (r: seq<string>)
    ensures |r| == CountWanted(hrefs)
    ensures forall k :: 0 <= k < |r| ==> IsPrefix(currentUrl, r[k])
  {
    if hrefs == [] then []
    else
      var href := hrefs[|hrefs| - 1];
      var front := RemoveUnwantedHrefs(currentUrl, hrefs[..|hrefs| - 1]);
      var r := front + (if Wanted(href) then [currentUrl + href] else []);
      assert forall k :: 0 <= k < |front| ==> r[k] == front[k];
      r
  }

  /** The positions of the wanted hrefs, in increasing order. */
  function WantedPositions(hrefs: seq<string>): (ps: seq<nat>)
    ensures forall k :: 0 <= k < |ps| ==> ps[k] < |hrefs| && Wanted(hrefs[ps[k]])
    ensures forall k, l :: 0 <= k < l < |ps| ==> ps[k] < ps[l]
    ensures forall j :: 0 <= j < |hrefs| && Wanted(hrefs[j]) ==> j in ps
  {
    if hrefs == [] then []
    else
      var n := |hrefs| - 1;
      var front := WantedPositions(hrefs[..n]);
      front + (if Wanted(hrefs[n]) then [n] else [])
  }

  /** The filter keeps order: the k-th child URL comes from the k-th wanted
      href, so the result is exactly the wanted hrefs, each prefixed. */
  lemma {:induction false} RemoveUnwantedHrefsKeepsOrder(currentUrl: string, hrefs: seq<string>)
    ensures |RemoveUnwantedHrefs(currentUrl, hrefs)| == |WantedPositions(hrefs)|
    ensures forall k :: 0 <= k < |WantedPositions(hrefs)| ==>
      RemoveUnwantedHrefs(currentUrl, hrefs)[k] == currentUrl + hrefs[WantedPositions(hrefs)[k]]
  {
    if hrefs != [] {
      var n := |hrefs| - 1;
      var init := hrefs[..n];
      RemoveUnwantedHrefsKeepsOrder(currentUrl, init);
      var ps := WantedPositions(hrefs);
      var r := RemoveUnwantedHrefs(currentUrl, hrefs);
      forall k | 0 <= k < |ps|
        ensures r[k] == currentUrl + hrefs[ps[k]]
      {
        if k < |WantedPositions(init)| {
          assert ps[k] == WantedPositions(init)[k];
          assert hrefs[ps[k]] == init[ps[k]];
        }
      }
    }
  }

  /** `u` is `currentUrl` followed by one of the wanted hrefs of the listing. */
  ghost predicate FromWantedHref(currentUrl: string, hrefs: seq<string>, u: string) {
    exists j :: 0 <= j < |hrefs| && Wanted(hrefs[j]) && u == currentUrl + hrefs[j]
  }

  /** Every child URL is `currentUrl + h` for a wanted href `h` of the
      listing, and every wanted href yields one. */
  lemma RemoveUnwantedHrefsMembers(currentUrl: string, hrefs: seq<string>)
    ensures forall u :: u in RemoveUnwantedHrefs(currentUrl, hrefs) ==> FromWantedHref(currentUrl, hrefs, u)
    ensures forall j :: 0 <= j < |hrefs| && Wanted(hrefs[j]) ==> currentUrl + hrefs[j] in RemoveUnwantedHrefs(currentUrl, hrefs)
  {
    var r := RemoveUnwantedHrefs(currentUrl, hrefs);
    var ps := WantedPositions(hrefs);
    RemoveUnwantedHrefsKeepsOrder(currentUrl, hrefs);
    forall u | u in r
      ensures FromWantedHref(currentUrl, hrefs, u)
    {
      var k :| 0 <= k < |r| && r[k] == u;
      assert u == currentUrl + hrefs[ps[k]];
    }
    forall j | 0 <= j < |hrefs| && Wanted(hrefs[j])
      ensures currentUrl + hrefs[j] in r
    {
      var k :| 0 <= k < |ps| && ps[k] == j;
      assert r[k] == currentUrl + hrefs[j];
    }
  }

  /** Filtering distributes over concatenation of href lists. */
  lemma {:induction false} RemoveUnwantedHrefsAppend(currentUrl: string, a: seq<string>, b: seq<string>)
    ensures RemoveUnwantedHrefs(currentUrl, a + b)
         == RemoveUnwantedHrefs(currentUrl, a) + RemoveUnwantedHrefs(currentUrl, b)
  {
    if b == [] {
      assert a + b == a;
    } else {
      var n := |b| - 1;
      assert (a + b)[..|a + b| - 1] == a + b[..n];
      assert (a + b)[|a + b| - 1] == b[n];
      RemoveUnwantedHrefsAppend(currentUrl, a, b[..n]);
    }
  }

  /** Neither the marker file nor the parent link ever yields a child URL. */
  lemma NoExcludedChild(currentUrl: string, hrefs: seq<string>)
    ensures currentUrl + Readme !in RemoveUnwantedHrefs(currentUrl, hrefs)
    ensures currentUrl + ParentRef !in RemoveUnwantedHrefs(currentUrl, hrefs)
  {
    var r := RemoveUnwantedHrefs(currentUrl, hrefs);
    RemoveUnwantedHrefsMembers(currentUrl, hrefs);
    forall u | u in r
      ensures u != currentUrl + Readme && u != currentUrl + ParentRef
    {
      assert FromWantedHref(currentUrl, hrefs, u);
      var j :| 0 <= j < |hrefs| && Wanted(hrefs[j]) && u == currentUrl + hrefs[j];
      assert (currentUrl + hrefs[j])[|currentUrl|..] == hrefs[j];
      assert (currentUrl + Readme)[|currentUrl|..] == Readme;
      assert (currentUrl + ParentRef)[|currentUrl|..] == ParentRef;
    }
  }

  /** A leaf listing (parent link and marker file only) has no children. */
  lemma LeafListingHasNoChildren(currentUrl: string)
    ensures RemoveUnwantedHrefs(currentUrl, [ParentRef, Readme]) == []
  {
    var hs := [ParentRef, Readme];
    assert hs[..1] == [ParentRef];
    assert hs[..1][..0] == [];
    assert RemoveUnwantedHrefs(currentUrl, hs[..1]) == [];
  }

  /** A listing in the middle of the tree, with two subdirectories between
      the parent link and the marker file, yields those two, in order. */
  lemma MidTreeListing(currentUrl: string, a: string, b: string)
    requires Wanted(a) && Wanted(b)
    ensures RemoveUnwantedHrefs(currentUrl, [ParentRef, a, b, Readme]) == [currentUrl + a, currentUrl + b]
  {
    var hs := [ParentRef, a, b, Readme];
    assert hs[..3] == [ParentRef, a, b];
    assert hs[..3][..2] == [ParentRef, a];
    assert hs[..3][..2][..1] == [ParentRef];
    assert hs[..3][..2][..1][..0] == [];
    assert RemoveUnwantedHrefs(currentUrl, [ParentRef]) == [];
    assert RemoveUnwantedHrefs(currentUrl, [ParentRef, a]) == [currentUrl + a];
    assert RemoveUnwantedHrefs(currentUrl, [ParentRef, a, b]) == [currentUrl + a, currentUrl + b];
  }

  /** Nothing de-duplicates: an entry listed twice yields its child URL
      twice, so that directory is descended into twice. */
  lemma DuplicateEntryKept(currentUrl: string, a: string)
    requires Wanted(a)
    ensures RemoveUnwantedHrefs(currentUrl, [a, a]) == [currentUrl + a, currentUrl + a]
  {
    assert [a, a][..1] == [a];
    assert [a][..0] == [];
    assert RemoveUnwantedHrefs(currentUrl, [a]) == [currentUrl + a];
  }
}
