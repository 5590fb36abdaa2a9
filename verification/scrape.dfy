/** `scrape`: the depth-first descent through the directory tree. The closure
    `fn` of the source, which loops over a frontier and recurses into each
    URL's children while updating two captured variables, is modelled as a
    pair of mutually recursive functions that thread an explicit accumulator.

    The source terminates only because the server's tree is finite and
    acyclic. Here every descent spends one unit of `fuel` (a bound on the
    directory depth); running out is reported as `DepthExhausted`, and
    `WalkMoreFuel` and `ScrapeMoreFuel` show that any larger budget never
    changes an outcome that did not run out. */
module Scrape {
  import opened Wrappers
  import opened Strings
  import opened Md5Pattern
  import opened Links
  import opened Site

  /** The accumulated result: the matching README texts, trimmed, in visit
      order, and the number of non-empty README texts seen. */
  datatype Tally = Tally(matches: seq<string>, found: nat)

  const NoReadmes := Tally([], 0)

  /** Every recorded text was counted and matches the pattern. */
  ghost predicate Sound(t: Tally) {
    t.found >= |t.matches| &&
    forall k :: 0 <= k < |t.matches| ==> ContainsPossibleMd5String(t.matches[k])
  }

  /** `after` extends `before`: matches are only appended, every new one
      matches the pattern, and the counter rose at least as much as the
      number of new matches. */
  ghost predicate Extends(before: Tally, after: Tally) {
    && |before.matches| <= |after.matches|
    && after.matches[..|before.matches|] == before.matches
    && after.found - before.found >= |after.matches| - |before.matches|
    && forall k :: |before.matches| <= k < |after.matches| ==> ContainsPossibleMd5String(after.matches[k])
  }

  lemma ExtendsTransitive(a: Tally, b: Tally, c: Tally)
    requires Extends(a, b) && Extends(b, c)
    ensures Extends(a, c)
  {
    assert c.matches[..|a.matches|] == c.matches[..|b.matches|][..|a.matches|];
  }

  lemma ExtendsKeepsSound(a: Tally, b: Tally)
    requires Sound(a) && Extends(a, b)
    ensures Sound(b)
  {
    forall k | 0 <= k < |a.matches|
      ensures ContainsPossibleMd5String(b.matches[k])
    {
      assert b.matches[k] == b.matches[..|a.matches|][k];
    }
  }

  /** The texts a README adds to the matches: itself, trimmed, when it is
      non-empty and matches the pattern; nothing otherwise. */
  function Recorded(text: string): seq<string> {
    if text != "" && ContainsPossibleMd5String(text) then [TrimSpace(text)] else []
  }

  /** What a README adds to the counter: one for any non-empty text. */
  function Counted(text: string): nat {
    if text != "" then 1 else 0
  }

  /** Record the README text read at one directory: a non-empty text is
      counted, and kept, trimmed, when it contains a digest-like run. */
  function Record(t: Tally, text: string): Tally {
    Tally(t.matches + Recorded(text), t.found + Counted(text))
  }

  /** A non-empty README text bumps the counter, and is appended, trimmed,
      exactly when it matches the pattern; an empty text (no README, or an
      empty one) changes nothing. */
  lemma RecordCases(t: Tally, text: string)
    ensures text == "" ==> Record(t, text) == t
    ensures text != "" ==> Record(t, text).found == t.found + 1
    ensures text != "" && ContainsPossibleMd5String(text) ==> Record(t, text).matches == t.matches + [TrimSpace(text)]
    ensures !ContainsPossibleMd5String(text) ==> Record(t, text).matches == t.matches
  {
    assert t.matches + [] == t.matches;
  }

  /** Recording never removes a match, adds at most one, and adds one only
      if it bumps the counter; what it adds matches the pattern. */
  lemma RecordExtends(t: Tally, text: string)
    ensures Extends(t, Record(t, text))
  {
    if text != "" && ContainsPossibleMd5String(text) {
      TrimKeepsMatch(text);
    }
    assert Record(t, text).matches[..|t.matches|] == t.matches;
  }

  /** One iteration of the loop in `fn`: GET the URL, read its README, record
      it, then descend into the filtered children before returning. */
  function ScrapeUrl(server: Server, url: string, fuel: nat, acc: Tally): Result<Tally, Fault>
    decreases fuel, 0, 0
  {
    if fuel == 0 then Failure(DepthExhausted(url))
    else
      var hrefs :- DoRequest(server, url);
      var text :- GetReadmeFile(server, url, hrefs);
      ScrapeAll(server, RemoveUnwantedHrefs(url, hrefs), fuel - 1, Record(acc, text))
  }

  /** `fn(urls)`: each URL of the frontier in turn, strictly sequentially. */
  function ScrapeAll(server: Server, urls: seq<string>, fuel: nat, acc: Tally): Result<Tally, Fault>
    decreases fuel, 1, |urls|
  {
    if urls == [] then Success(acc)
    else
      var mid :- ScrapeUrl(server, urls[0], fuel, acc);
      ScrapeAll(server, urls[1..], fuel, mid)
  }

  /** `scrape(urls)`: start from nothing; on success every match was counted
      and matches the pattern, so `found >= |matches|`. */
  function Scrape(server: Server, urls: seq<string>, fuel: nat): (r: Result<Tally, Fault>)
    ensures r.Success? ==> Sound(r.value)
    ensures r.Success? ==> r.value.found >= |r.value.matches|
  {
    var r := ScrapeAll(server, urls, fuel, NoReadmes);
    if r.Success? then ScrapeAllExtends(server, urls, fuel, NoReadmes); ExtendsKeepsSound(NoReadmes, r.value); r else r
  }

  // ---------------------------------------------------------------------
  // Reference semantics: the visit order as a list, then a plain fold.

  /** One visited directory and the README text read there. */
  datatype Visit = Visit(url: string, readme: string)

  /** The directories `url` leads to, in the order `fn` visits them: the URL
      itself, then its children's subtrees one after another. */
  function Walk(server: Server, url: string, fuel: nat): Result<seq<Visit>, Fault>
    decreases fuel, 0, 0
  {
    if fuel == 0 then Failure(DepthExhausted(url))
    else
      var hrefs :- DoRequest(server, url);
      var text :- GetReadmeFile(server, url, hrefs);
      var below :- WalkAll(server, RemoveUnwantedHrefs(url, hrefs), fuel - 1);
      Success([Visit(url, text)] + below)
  }

  /** The visits of a frontier: each URL's whole subtree before the next URL. */
  function WalkAll(server: Server, urls: seq<string>, fuel: nat): Result<seq<Visit>, Fault>
    decreases fuel, 1, |urls|
  {
    if urls == [] then Success([])
    else
      var first :- Walk(server, urls[0], fuel);
      var rest :- WalkAll(server, urls[1..], fuel);
      Success(first + rest)
  }

  /** Number of visits whose README text is non-empty. */
  function CountReadmes(vs: seq<Visit>): nat {
    if vs == [] then 0 else Counted(vs[0].readme) + CountReadmes(vs[1..])
  }

  /** The trimmed README texts that match the pattern, in visit order. */
  function MatchingReadmes(vs: seq<Visit>): seq<string> {
    if vs == [] then []
    else
      Recorded(vs[0].readme) + MatchingReadmes(vs[1..])
  }

  /** Recording the visits one after another, as the closure does. */
  function Replay(acc: Tally, vs: seq<Visit>): Tally
    decreases vs
  {
    if vs == [] then acc else Replay(Record(acc, vs[0].readme), vs[1..])
  }

  lemma {:induction false} ReplayMatches(acc: Tally, vs: seq<Visit>)
    ensures Replay(acc, vs).matches == acc.matches + MatchingReadmes(vs)
    decreases vs
  {
    if vs != [] {
      var text := vs[0].readme;
      var next := Record(acc, text);
      ReplayMatches(next, vs[1..]);
      assert Replay(acc, vs) == Replay(next, vs[1..]);
      assert MatchingReadmes(vs) == Recorded(text) + MatchingReadmes(vs[1..]);
      assert next.matches + MatchingReadmes(vs[1..]) == acc.matches + (Recorded(text) + MatchingReadmes(vs[1..]));
    }
  }

  lemma {:induction false} ReplayFound(acc: Tally, vs: seq<Visit>)
    ensures Replay(acc, vs).found == acc.found + CountReadmes(vs)
    decreases vs
  {
    if vs != [] {
      ReplayFound(Record(acc, vs[0].readme), vs[1..]);
    }
  }

  /** Replaying appends exactly the matching texts and adds exactly the
      number of non-empty READMEs. */
  lemma ReplayClosedForm(acc: Tally, vs: seq<Visit>)
    ensures Replay(acc, vs) == Tally(acc.matches + MatchingReadmes(vs), acc.found + CountReadmes(vs))
  {
    ReplayMatches(acc, vs);
    ReplayFound(acc, vs);
  }

  /** Only non-empty READMEs can match, so there are never more matches than
      READMEs found. */
  lemma {:induction false} MatchesBoundedByReadmes(vs: seq<Visit>)
    ensures |MatchingReadmes(vs)| <= CountReadmes(vs)
  {
    if vs != [] {
      MatchesBoundedByReadmes(vs[1..]);
    }
  }

  lemma {:induction false} ReplayAppend(acc: Tally, a: seq<Visit>, b: seq<Visit>)
    ensures Replay(acc, a + b) == Replay(Replay(acc, a), b)
    decreases a
  {
    if a == [] {
      assert a + b == b;
    } else {
      assert (a + b)[1..] == a[1..] + b;
      ReplayAppend(Record(acc, a[0].readme), a[1..], b);
    }
  }

  lemma ReplayCons(acc: Tally, v: Visit, vs: seq<Visit>)
    ensures Replay(acc, [v] + vs) == Replay(Record(acc, v.readme), vs)
  {
    assert ([v] + vs)[1..] == vs;
  }

  /** The step that closes the induction at one directory: if the closure
      continues with the children's tally after recording `v`, and the walk
      puts `v` in front of the children's visits, the closure computes the
      replay of the walk. */
  lemma ReplayStep(scraped: Result<Tally, Fault>, walked: Result<seq<Visit>, Fault>,
                   below: Result<seq<Visit>, Fault>, acc: Tally, v: Visit)
    requires below.Failure? ==> scraped == Failure(below.error) && walked == Failure(below.error)
    requires below.Success? ==>
      scraped == Success(Replay(Record(acc, v.readme), below.value)) && walked == Success([v] + below.value)
    ensures walked.Failure? ==> scraped == Failure(walked.error)
    ensures walked.Success? ==> scraped == Success(Replay(acc, walked.value))
  {
    if below.Success? {
      ReplayCons(acc, v, below.value);
    }
  }

  /** The directory's own request, or its README read, fails, or the fuel is
      spent: both traversals stop with the same fault. */
  predicate Stops(server: Server, url: string, fuel: nat) {
    fuel == 0 || DoRequest(server, url).Failure? || GetReadmeFile(server, url, DoRequest(server, url).value).Failure?
  }

  /** The children both traversals descend into. */
  function ChildrenOf(server: Server, url: string): seq<string>
    requires DoRequest(server, url).Success?
  {
    RemoveUnwantedHrefs(url, DoRequest(server, url).value)
  }

  /** The README text both traversals record. */
  function ReadmeOf(server: Server, url: string): string
    requires DoRequest(server, url).Success? && GetReadmeFile(server, url, DoRequest(server, url).value).Success?
  {
    GetReadmeFile(server, url, DoRequest(server, url).value).value
  }

  lemma ScrapeUrlStops(server: Server, url: string, fuel: nat, acc: Tally)
    requires Stops(server, url, fuel)
    ensures Walk(server, url, fuel).Failure?
    ensures ScrapeUrl(server, url, fuel, acc) == Failure(Walk(server, url, fuel).error)
  {
  }

  /** One directory that does not stop: given the claim for its children
      (the induction hypothesis), the claim holds for the directory. */
  lemma ScrapeUrlStep(server: Server, url: string, fuel: nat, acc: Tally)
    requires !Stops(server, url, fuel)
    requires var below := WalkAll(server, ChildrenOf(server, url), fuel - 1);
      var sa := ScrapeAll(server, ChildrenOf(server, url), fuel - 1, Record(acc, ReadmeOf(server, url)));
      && (below.Failure? ==> sa == Failure(below.error))
      && (below.Success? ==> sa == Success(Replay(Record(acc, ReadmeOf(server, url)), below.value)))
    ensures Walk(server, url, fuel).Failure? ==> ScrapeUrl(server, url, fuel, acc) == Failure(Walk(server, url, fuel).error)
    ensures Walk(server, url, fuel).Success? ==> ScrapeUrl(server, url, fuel, acc) == Success(Replay(acc, Walk(server, url, fuel).value))
  {
    var v := Visit(url, ReadmeOf(server, url));
    var below := WalkAll(server, ChildrenOf(server, url), fuel - 1);
    assert ScrapeUrl(server, url, fuel, acc) == ScrapeAll(server, ChildrenOf(server, url), fuel - 1, Record(acc, v.readme));
    assert below.Failure? ==> Walk(server, url, fuel) == Failure(below.error);
    assert below.Success? ==> Walk(server, url, fuel) == Success([v] + below.value);
    ReplayStep(ScrapeUrl(server, url, fuel, acc), Walk(server, url, fuel), below, acc, v);
  }

  /** The accumulator-threading closure computes the fold of the pre-order
      visit list: same faults, and on success the same tally. */
  lemma {:induction false} ScrapeUrlIsReplay(server: Server, url: string, fuel: nat, acc: Tally)
    ensures Walk(server, url, fuel).Failure? ==> ScrapeUrl(server, url, fuel, acc) == Failure(Walk(server, url, fuel).error)
    ensures Walk(server, url, fuel).Success? ==> ScrapeUrl(server, url, fuel, acc) == Success(Replay(acc, Walk(server, url, fuel).value))
    decreases fuel, 0, 0
  {
    if Stops(server, url, fuel) {
      ScrapeUrlStops(server, url, fuel, acc);
    } else {
      ScrapeAllIsReplay(server, ChildrenOf(server, url), fuel - 1, Record(acc, ReadmeOf(server, url)));
      ScrapeUrlStep(server, url, fuel, acc);
    }
  }

  lemma {:induction false} ScrapeAllIsReplay(server: Server, urls: seq<string>, fuel: nat, acc: Tally)
    ensures WalkAll(server, urls, fuel).Failure? ==> ScrapeAll(server, urls, fuel, acc) == Failure(WalkAll(server, urls, fuel).error)
    ensures WalkAll(server, urls, fuel).Success? ==> ScrapeAll(server, urls, fuel, acc) == Success(Replay(acc, WalkAll(server, urls, fuel).value))
    decreases fuel, 1, |urls|
  {
    if urls != [] {
      ScrapeUrlIsReplay(server, urls[0], fuel, acc);
      var first := Walk(server, urls[0], fuel);
      if first.Success? {
        var mid := Replay(acc, first.value);
        ScrapeAllIsReplay(server, urls[1..], fuel, mid);
        var rest := WalkAll(server, urls[1..], fuel);
        if rest.Success? {
          ReplayAppend(acc, first.value, rest.value);
        }
      }
    }
  }

  /** Recording a sequence of visits only appends matches, each of which
      matches the pattern, and counts at least one README per match. */
  lemma {:induction false} ReplayExtends(acc: Tally, vs: seq<Visit>)
    ensures Extends(acc, Replay(acc, vs))
    decreases vs
  {
    if vs != [] {
      var next := Record(acc, vs[0].readme);
      RecordExtends(acc, vs[0].readme);
      ReplayExtends(next, vs[1..]);
      ExtendsTransitive(acc, next, Replay(next, vs[1..]));
    } else {
      assert acc.matches[..|acc.matches|] == acc.matches;
    }
  }

  /** The closure never removes or rewrites a match: on success the tally
      extends the one it started from. */
  lemma ScrapeAllExtends(server: Server, urls: seq<string>, fuel: nat, acc: Tally)
    ensures ScrapeAll(server, urls, fuel, acc).Success? ==> Extends(acc, ScrapeAll(server, urls, fuel, acc).value)
  {
    ScrapeAllIsReplay(server, urls, fuel, acc);
    if WalkAll(server, urls, fuel).Success? {
      ReplayExtends(acc, WalkAll(server, urls, fuel).value);
    }
  }

  /** Replaying from nothing yields exactly the matching texts and the count. */
  lemma ReplayFromNothing(vs: seq<Visit>)
    ensures Replay(NoReadmes, vs) == Tally(MatchingReadmes(vs), CountReadmes(vs))
  {
    ReplayClosedForm(NoReadmes, vs);
    assert [] + MatchingReadmes(vs) == MatchingReadmes(vs);
  }

  lemma ScrapeAllFromNothing(server: Server, urls: seq<string>, fuel: nat)
    ensures WalkAll(server, urls, fuel).Success? ==>
      ScrapeAll(server, urls, fuel, NoReadmes) == Success(Tally(MatchingReadmes(WalkAll(server, urls, fuel).value),
                                                                CountReadmes(WalkAll(server, urls, fuel).value)))
    ensures WalkAll(server, urls, fuel).Failure? ==>
      ScrapeAll(server, urls, fuel, NoReadmes) == Failure(WalkAll(server, urls, fuel).error)
  {
    var w := WalkAll(server, urls, fuel);
    ScrapeAllIsReplay(server, urls, fuel, NoReadmes);
    if w.Success? {
      ReplayFromNothing(w.value);
    }
  }

  /** The result of `scrape` in closed form: the trimmed matching READMEs in
      depth-first visit order, and the number of non-empty READMEs. */
  lemma ScrapeResult(server: Server, urls: seq<string>, fuel: nat)
    ensures WalkAll(server, urls, fuel).Success? ==>
      Scrape(server, urls, fuel) == Success(Tally(MatchingReadmes(WalkAll(server, urls, fuel).value),
                                                  CountReadmes(WalkAll(server, urls, fuel).value)))
    ensures WalkAll(server, urls, fuel).Failure? ==>
      Scrape(server, urls, fuel) == Failure(WalkAll(server, urls, fuel).error)
  {
    ScrapeAllFromNothing(server, urls, fuel);
    assert Scrape(server, urls, fuel) == ScrapeAll(server, urls, fuel, NoReadmes);
  }

  // ---------------------------------------------------------------------
  // Shape of the visit order.

  /** A frontier that is the concatenation of two frontiers is visited as the
      first one in full, then the second: no interleaving of siblings. */
  lemma {:induction false} WalkAllAppend(server: Server, a: seq<string>, b: seq<string>, fuel: nat)
    ensures WalkAll(server, a + b, fuel) ==
      (match WalkAll(server, a, fuel)
       case Failure(e) => Failure(e)
       case Success(va) =>
         match WalkAll(server, b, fuel)
         case Failure(e) => Failure(e)
         case Success(vb) => Success(va + vb))
    decreases |a|
  {
    if a == [] {
      assert a + b == b;
      var rb := WalkAll(server, b, fuel);
      if rb.Success? {
        assert [] + rb.value == rb.value;
      }
    } else {
      assert (a + b)[0] == a[0];
      assert (a + b)[1..] == a[1..] + b;
      WalkAllAppend(server, a[1..], b, fuel);
      var first := Walk(server, a[0], fuel);
      if first.Success? {
        var ra := WalkAll(server, a[1..], fuel);
        var rb := WalkAll(server, b, fuel);
        if ra.Success? && rb.Success? {
          assert first.value + (ra.value + rb.value) == (first.value + ra.value) + rb.value;
        }
      }
    }
  }

  lemma IsPrefixTransitive(a: string, b: string, c: string)
    requires IsPrefix(a, b) && IsPrefix(b, c)
    ensures IsPrefix(a, c)
  {
    assert c[..|a|] == c[..|b|][..|a|];
  }

  /** Everything visited from `url` lies below `url`, and `url` comes first:
      the visits of one directory form its whole subtree, contiguously. */
  lemma {:induction false} WalkStaysBelow(server: Server, url: string, fuel: nat)
    ensures Walk(server, url, fuel).Success? ==>
      |Walk(server, url, fuel).value| >= 1 && Walk(server, url, fuel).value[0].url == url &&
      forall k :: 0 <= k < |Walk(server, url, fuel).value| ==> IsPrefix(url, Walk(server, url, fuel).value[k].url)
    decreases fuel, 0, 0
  {
    if fuel > 0 {
      var hrefs := DoRequest(server, url);
      if hrefs.Success? {
        var text := GetReadmeFile(server, url, hrefs.value);
        if text.Success? {
          var children := RemoveUnwantedHrefs(url, hrefs.value);
          WalkAllStaysBelow(server, url, children, fuel - 1);
          var below := WalkAll(server, children, fuel - 1);
          if below.Success? {
            var vs := [Visit(url, text.value)] + below.value;
            forall k | 0 <= k < |vs|
              ensures IsPrefix(url, vs[k].url)
            {
              if k > 0 {
                assert vs[k] == below.value[k - 1];
              }
            }
          }
        }
      }
    }
  }

  lemma {:induction false} WalkAllStaysBelow(server: Server, root: string, urls: seq<string>, fuel: nat)
    requires forall i :: 0 <= i < |urls| ==> IsPrefix(root, urls[i])
    ensures WalkAll(server, urls, fuel).Success? ==>
      forall k :: 0 <= k < |WalkAll(server, urls, fuel).value| ==> IsPrefix(root, WalkAll(server, urls, fuel).value[k].url)
    decreases fuel, 1, |urls|
  {
    if urls != [] {
      WalkStaysBelow(server, urls[0], fuel);
      WalkAllStaysBelow(server, root, urls[1..], fuel);
      var first := Walk(server, urls[0], fuel);
      var rest := WalkAll(server, urls[1..], fuel);
      if first.Success? && rest.Success? {
        var vs := first.value + rest.value;
        forall k | 0 <= k < |vs|
          ensures IsPrefix(root, vs[k].url)
        {
          if k < |first.value| {
            IsPrefixTransitive(root, urls[0], vs[k].url);
          } else {
            assert vs[k] == rest.value[k - |first.value|];
          }
        }
      }
    }
  }

  // ---------------------------------------------------------------------
  // Fuel is only a termination device.

  /** The outcome did not come from running out of fuel. */
  predicate NotExhausted<T>(r: Result<T, Fault>) {
    r.Success? || !r.error.DepthExhausted?
  }

  /** One more unit of fuel changes nothing once the walk completed (or
      failed for a reason of its own) within the given depth. */
  lemma {:induction false} WalkFuelStable(server: Server, url: string, fuel: nat)
    ensures NotExhausted(Walk(server, url, fuel)) ==> Walk(server, url, fuel + 1) == Walk(server, url, fuel)
    decreases fuel, 0, 0
  {
    if fuel > 0 {
      var hrefs := DoRequest(server, url);
      if hrefs.Success? {
        var text := GetReadmeFile(server, url, hrefs.value);
        if text.Success? {
          WalkAllFuelStable(server, RemoveUnwantedHrefs(url, hrefs.value), fuel - 1);
        }
      }
    }
  }

  lemma {:induction false} WalkAllFuelStable(server: Server, urls: seq<string>, fuel: nat)
    ensures NotExhausted(WalkAll(server, urls, fuel)) ==> WalkAll(server, urls, fuel + 1) == WalkAll(server, urls, fuel)
    decreases fuel, 1, |urls|
  {
    if urls != [] {
      WalkFuelStable(server, urls[0], fuel);
      WalkAllFuelStable(server, urls[1..], fuel);
    }
  }

  /** Any larger budget, not just one more unit, leaves a completed walk
      unchanged. */
  lemma {:induction false} WalkMoreFuel(server: Server, url: string, fuel: nat, more: nat)
    requires fuel <= more
    ensures NotExhausted(Walk(server, url, fuel)) ==> Walk(server, url, more) == Walk(server, url, fuel)
    decreases more - fuel
  {
    if fuel < more {
      WalkFuelStable(server, url, fuel);
      WalkMoreFuel(server, url, fuel + 1, more);
    }
  }

  /** The same holds of `scrape` itself: any fuel beyond the depth actually
      needed gives the same result. */
  lemma ScrapeFuelStable(server: Server, urls: seq<string>, fuel: nat)
    ensures NotExhausted(Scrape(server, urls, fuel)) ==> Scrape(server, urls, fuel + 1) == Scrape(server, urls, fuel)
  {
    ScrapeResult(server, urls, fuel);
    ScrapeResult(server, urls, fuel + 1);
    WalkAllFuelStable(server, urls, fuel);
  }

  /** Any larger budget leaves a completed `scrape` unchanged. */
  lemma {:induction false} ScrapeMoreFuel(server: Server, urls: seq<string>, fuel: nat, more: nat)
    requires fuel <= more
    ensures NotExhausted(Scrape(server, urls, fuel)) ==> Scrape(server, urls, more) == Scrape(server, urls, fuel)
    decreases more - fuel
  {
    if fuel < more {
      ScrapeFuelStable(server, urls, fuel);
      ScrapeMoreFuel(server, urls, fuel + 1, more);
    }
  }
}
