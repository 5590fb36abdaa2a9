/** A concrete run of the scraper over a two-directory server, worked out
    step by step. */
module Scenario {
  import opened Wrappers
  import opened Strings
  import opened Md5Pattern
  import opened Links
  import Dom
  import opened Site
  import opened Scrape

  const Root := "http://10.0.0.1/.hidden/"
  const Sub := "http://10.0.0.1/.hidden/sub/"
  const RootReadme := "http://10.0.0.1/.hidden/README"
  const SubReadme := "http://10.0.0.1/.hidden/sub/README"
  const Digest := "9dd4e461268c8034f5c8564e155c67a6"
  const RootText := "  " + Digest + "\n"
  const SubText := "nothing here"

  /** The root lists a subdirectory and a README holding a digest between
      blanks; the subdirectory's README holds plain words. */
  function TwoLevelServer(): Server {
    Server(
      map[Root := Parsed(Dom.Listing(["../", "sub/", "README"])),
          Sub := Parsed(Dom.Listing(["../", "README"]))],
      map[RootReadme := RootText, SubReadme := SubText])
  }

  lemma RootTextTrimmed()
    ensures TrimSpace(RootText) == Digest
  {
    TrimSpacePadded("  ", Digest, "\n");
  }

  /** GET of a URL whose page is a parsed listing yields the listing's entries. */
  lemma ListingRequest(server: Server, url: string, hrefs: seq<string>)
    requires url in server.pages && server.pages[url] == Parsed(Dom.Listing(hrefs))
    ensures DoRequest(server, url) == Success(hrefs)
  {
    Dom.ListingHrefs(hrefs);
  }

  lemma TwoLevelPages()
    ensures DoRequest(TwoLevelServer(), Root) == Success(["../", "sub/", "README"])
    ensures DoRequest(TwoLevelServer(), Sub) == Success(["../", "README"])
  {
    var server := TwoLevelServer();
    assert |Sub| != |Root|;
    ListingRequest(server, Root, ["../", "sub/", "README"]);
    ListingRequest(server, Sub, ["../", "README"]);
  }

  lemma TwoLevelReadmeFiles()
    ensures GetReadmeFile(TwoLevelServer(), Root, ["../", "sub/", "README"]) == Success(RootText)
    ensures GetReadmeFile(TwoLevelServer(), Sub, ["../", "README"]) == Success(SubText)
  {
    var server := TwoLevelServer();
    assert |SubReadme| != |RootReadme|;
    assert Root + Readme == RootReadme;
    assert Sub + Readme == SubReadme;
    assert server.texts[RootReadme] == RootText;
    assert server.texts[SubReadme] == SubText;
    assert ["../", "sub/", "README"][2] == Readme;
    assert ["../", "README"][1] == Readme;
  }

  lemma TwoLevelChildren()
    ensures RemoveUnwantedHrefs(Sub, ["../", "README"]) == []
    ensures RemoveUnwantedHrefs(Root, ["../", "sub/", "README"]) == [Sub]
  {
    LeafListingHasNoChildren(Sub);
    var hs := ["../", "sub/", "README"];
    assert hs[..2] == ["../", "sub/"];
    assert hs[..2][..1] == ["../"];
    assert hs[..2][..1][..0] == [];
    assert Root + "sub/" == Sub;
  }

  /** A directory whose listing yields no children is a single visit. */
  lemma LeafWalk(server: Server, url: string, hrefs: seq<string>, text: string)
    requires DoRequest(server, url) == Success(hrefs)
    requires GetReadmeFile(server, url, hrefs) == Success(text)
    requires RemoveUnwantedHrefs(url, hrefs) == []
    ensures WalkAll(server, [url], 1) == Success([Visit(url, text)])
  {
    assert WalkAll(server, [], 0) == Success([]);
    assert [Visit(url, text)] + [] == [Visit(url, text)];
    assert Walk(server, url, 1) == Success([Visit(url, text)]);
    assert [url][1..] == [];
  }

  /** A directory with one child: its own visit, then the child's. */
  lemma OneChildWalk(server: Server, url: string, hrefs: seq<string>, text: string, child: string, below: seq<Visit>)
    requires DoRequest(server, url) == Success(hrefs)
    requires GetReadmeFile(server, url, hrefs) == Success(text)
    requires RemoveUnwantedHrefs(url, hrefs) == [child]
    requires WalkAll(server, [child], 1) == Success(below)
    ensures WalkAll(server, [url], 2) == Success([Visit(url, text)] + below)
  {
    WalkAllFuelStable(server, [child], 1);
    assert Walk(server, url, 2) == Success([Visit(url, text)] + below);
    assert [url][1..] == [];
    assert WalkAll(server, [], 2) == Success([]);
    assert [Visit(url, text)] + below + [] == [Visit(url, text)] + below;
  }

  /** A directory with a single leaf subdirectory: two visits, parent first. */
  lemma ParentChildWalk(server: Server, root: string, rootHrefs: seq<string>, rootText: string,
                        sub: string, subHrefs: seq<string>, subText: string)
    requires DoRequest(server, root) == Success(rootHrefs)
    requires GetReadmeFile(server, root, rootHrefs) == Success(rootText)
    requires RemoveUnwantedHrefs(root, rootHrefs) == [sub]
    requires DoRequest(server, sub) == Success(subHrefs)
    requires GetReadmeFile(server, sub, subHrefs) == Success(subText)
    requires RemoveUnwantedHrefs(sub, subHrefs) == []
    ensures WalkAll(server, [root], 2) == Success([Visit(root, rootText), Visit(sub, subText)])
  {
    LeafWalk(server, sub, subHrefs, subText);
    OneChildWalk(server, root, rootHrefs, rootText, sub, [Visit(sub, subText)]);
    assert [Visit(root, rootText)] + [Visit(sub, subText)] == [Visit(root, rootText), Visit(sub, subText)];
  }

  /** The visit order: the root, then its only subdirectory. */
  lemma TwoLevelWalk()
    ensures WalkAll(TwoLevelServer(), [Root], 2) == Success([Visit(Root, RootText), Visit(Sub, SubText)])
  {
    TwoLevelPages();
    TwoLevelReadmeFiles();
    TwoLevelChildren();
    ParentChildWalk(TwoLevelServer(), Root, ["../", "sub/", "README"], RootText, Sub, ["../", "README"], SubText);
  }

  lemma RootTextRecorded()
    ensures Recorded(RootText) == [Digest]
  {
    assert HexRunAt(Digest, 0);
    MatchSurvivesContext("  ", Digest, "\n");
    RootTextTrimmed();
  }

  lemma TwoVisits(a: Visit, b: Visit)
    ensures MatchingReadmes([a, b]) == Recorded(a.readme) + Recorded(b.readme)
    ensures CountReadmes([a, b]) == Counted(a.readme) + Counted(b.readme)
  {
    assert [a, b][1..] == [b];
    assert [b][1..] == [];
    assert MatchingReadmes([b]) == Recorded(b.readme) + MatchingReadmes([]);
    assert MatchingReadmes([a, b]) == Recorded(a.readme) + MatchingReadmes([b]);
    assert Recorded(b.readme) + [] == Recorded(b.readme);
    assert CountReadmes([b]) == Counted(b.readme) + CountReadmes([]);
    assert CountReadmes([a, b]) == Counted(a.readme) + CountReadmes([b]);
  }

  lemma TwoLevelReadmes()
    ensures MatchingReadmes([Visit(Root, RootText), Visit(Sub, SubText)]) == [Digest]
    ensures CountReadmes([Visit(Root, RootText), Visit(Sub, SubText)]) == 2
  {
    TwoVisits(Visit(Root, RootText), Visit(Sub, SubText));
    ShortTextNeverMatches(SubText);
    RootTextRecorded();
  }

  /** Both READMEs are counted, only the root's matches, and it is recorded
      without its surrounding white space. */
  lemma TwoLevelScrape()
    ensures Scrape.Scrape(TwoLevelServer(), [Root], 2) == Success(Tally([Digest], 2))
  {
    TwoLevelWalk();
    TwoLevelReadmes();
    ScrapeResult(TwoLevelServer(), [Root], 2);
  }

  /** A directory whose listing has no entries at all is visited once, with
      no README text, and nothing below it is requested. */
  lemma EmptyListingVisit(server: Server, url: string, fuel: nat)
    requires fuel >= 1
    requires DoRequest(server, url) == Success([])
    ensures Walk(server, url, fuel) == Success([Visit(url, "")])
  {
    assert GetReadmeFile(server, url, []) == Success("");
    assert RemoveUnwantedHrefs(url, []) == [];
    assert WalkAll(server, [], fuel - 1) == Success([]);
    assert [Visit(url, "")] + [] == [Visit(url, "")];
  }
}
