# darkly-hidden scraper, modelled in Dafny

The program walks the "index of" directory listings of a web server, starting at
`http://<ip>/.hidden/`. At every directory it
1. requests the listing page and collects the `href` of every anchor (`doRequest`,
   `traversForHrefs`);
2. fetches `README` if the listing names it (`getReadmeFile`), counts it when its
   text is non-empty, and keeps its trimmed text when it contains a run of 32
   lower-case hex characters (`containsPossibleMd5String`);
3. drops `README` and `../` from the entries, prefixes the rest with the
   directory's URL (`removeUnwantedHrefs`), and descends into each of them, depth
   first (`scrape` and its closure `fn`).

The result is the list of matching README texts and the number of non-empty
READMEs found. Any failed request, body read or parse aborts the whole run.

The model is split into one module per concern:

| file | module | what it holds |
|---|---|---|
| wrappers.dfy | `Wrappers` | `Option` and `Result` (the failure-propagating `:-` operator) |
| strings.dfy | `Strings` | URL prefixes; Go's `unicode.IsSpace` and `strings.TrimSpace` |
| md5pattern.dfy | `Md5Pattern` | the pattern `[a-f0-9]{32}` as a predicate, and a one-pass scanner proved equal to it |
| links.dfy | `Links` | `removeUnwantedHrefs` and its filter/map laws |
| dom.dfy | `Dom` | the parsed HTML tree and `traversForHrefs` as a pre-order walk |
| site.dfy | `Site` | the server (what each GET yields), `doRequest`, `getReadmeFile` |
| scrape.dfy | `Scrape` | `scrape` as mutually recursive functions threading an accumulator, and a reference semantics (the pre-order visit list, then a fold) |
| scenario.dfy | `Scenario` | a two-directory server worked through to its final result |

The network is a value: `Server(pages, texts)` maps each URL that answers a GET to
its parsed page (or `Malformed`) and to its body text. A URL absent from a map is
one whose request or body read fails. `log.Fatal` becomes a `Failure(Fault)`
result that propagates unchanged to the top, so the first fault in visit order
decides the outcome, exactly as the process exit does.

The source's recursion terminates only because the server's tree is finite and
acyclic. The model gives `scrape` a depth budget `fuel`. Running out is the
distinct fault `DepthExhausted`, and `Scrape.ScrapeMoreFuel` shows that once a
run finishes without exhausting the budget, any larger budget gives the same
outcome.

## Model

| member | source | states |
|---|---|---|
| Strings.TrimSpace | main.go:57 | `strings.TrimSpace` as the slice of the text that starts after its leading white space and stops before its trailing white space. Its own contract only bounds the length; `TrimSpaceEnds`, `TrimSpaceTail`, `NonSpaceKept` and `TrimSpacePadded` characterise it |
| Strings.TrimSpaceTail | main.go:57 | everything after the trimmed slice of a README text is white space |
| Strings.TrimSpaceEnds | main.go:57 | the trimmed text is empty or starts and ends with a non-space character, and it is empty exactly when the whole text is white space |
| Strings.NonSpaceKept | main.go:57 | trimming never cuts off a character that is not white space |
| Strings.EmptyTrimIsAllLeading | main.go:57 | when trimming leaves nothing, the leading white space is the whole text |
| Strings.TrimSpaceIdempotent | main.go:57 | trimming an already trimmed text changes nothing |
| Strings.TrimSpacePadded | main.go:57 | trimming removes exactly the white-space padding around a text that neither starts nor ends with white space |
| Md5Pattern.ContainsPossibleMd5String | main.go:85-92 | the search for `[a-f0-9]{32}` anywhere in the text, as "some 32-character window is all lower-case hex". This predicate is what the traversal uses. It has no contract of its own; `ScanForDigest` is an independent scanner proved equal to it, and `ExactDigestLength` and `MatchSurvivesContext` characterise it |
| Md5Pattern.ScanForDigest | main.go:85-92 | a single left-to-right scan counting the current run of hex characters answers true exactly when some 32-character window of the text is all `[a-f0-9]` (the unanchored search); a true answer implies the text has at least 32 characters |
| Md5Pattern.ExactDigestLength | main.go:86 | a 32-character text matches exactly when every character is in `[a-f0-9]` |
| Md5Pattern.MatchSurvivesContext | main.go:86 | the search is unanchored: a match survives any text put before or after it |
| Md5Pattern.DigestPrefixMatches | main_test.go:112-116 | a 32-character hex prefix followed by arbitrary text matches |
| Md5Pattern.RepeatedZDoesNotMatch | main_test.go:117-121 | 32 repeated `z` characters do not match |
| Md5Pattern.BareDigestMatches | main_test.go:97-101 | the bare MD5 digest of "this is a md5 string" matches |
| Md5Pattern.SentenceDoesNotMatch | main_test.go:102-106 | the sentence "this is not a md5 string" does not match |
| Md5Pattern.DigestsAroundWordsMatch | main_test.go:107-111 | the digests of "prefix" and "postfix" with " and some other text " between them match |
| Md5Pattern.TrimKeepsMatch | main.go:56-57 | the trimmed text that is recorded still contains a match, because white space is never hex |
| Links.RemoveUnwantedHrefs | main.go:95-103 | the result has one entry per href other than `README` and `../`, and every entry starts with the current URL |
| Links.RemoveUnwantedHrefsKeepsOrder | main.go:97-101 | the k-th result is the current URL followed by the k-th kept href, where the kept positions are increasing and are exactly those of the hrefs other than `README` and `../` |
| Links.RemoveUnwantedHrefsMembers | main.go:97-101 | every result is the current URL followed by some kept href of the listing, and every kept href yields a result |
| Links.RemoveUnwantedHrefsAppend | main.go:97-101 | filtering the concatenation of two href lists is the concatenation of the two filtered lists |
| Links.NoExcludedChild | main.go:98 | the current URL followed by `README` or by `../` is never a result |
| Links.LeafListingHasNoChildren | main_test.go:18-23 | a leaf listing of `../` and `README` yields no children, at any URL |
| Links.MidTreeListing | main_test.go:24-31 | `../`, two subdirectories, `README` yields the two subdirectory URLs in listing order, at any URL |
| Links.DuplicateEntryKept | main.go:97-101 | an entry listed twice yields its child URL twice: nothing is de-duplicated |
| Dom.OwnHref | main.go:130-137 | a node contributes at most one href of its own, and one exactly when it is an `a` element carrying an `href` attribute |
| Dom.TraversForHrefs | main.go:128-141 | the walk `f`: a node's own href, then those of its children in order. It has no contract of its own; `TraversIsPreOrder` equates it with the hrefs of `PreOrder(n)`, and `HrefCountMatchesAnchors` counts them |
| Dom.ChildrenHrefs | main.go:138-140 | the loop over the `FirstChild`/`NextSibling` chain: each child's hrefs, concatenated in order. `ChildrenArePreOrder` equates it with the hrefs of the children's pre-order |
| Dom.TraversIsPreOrder | main.go:128-143 | the walk lists the hrefs of the document's nodes in pre-order, node by node |
| Dom.HrefCountMatchesAnchors | main.go:128-143 | the number of hrefs found equals the number of `a` elements with an `href` attribute anywhere in the document |
| Dom.ChildrenOfOtherNodesVisited | main.go:138-140 | a node that is not an anchor contributes nothing itself, yet an anchor below it is still found |
| Dom.AnchorWithoutHrefSkipped | main.go:131-136 | an `a` element without any `href` attribute is skipped |
| Dom.AnchorsHrefs | main.go:128-143 | a sequence of anchors, one per entry, yields the entries in order |
| Dom.ListingHrefs | main_test.go:53-89 | the tree of an "index of" page yields exactly its entries in order. The tree has a title, then a heading, a rule, a `pre` block of anchors each followed by its date-and-size text, and a closing rule. White-space text nodes outside `pre`, other than the newline between `head` and `body`, are left out |
| Site.DoRequest | main.go:105-118 | the request fails exactly when the URL does not answer or its page does not parse, naming that URL; otherwise it yields the walk of the parsed page |
| Site.GetReadmeFile | main.go:68-83 | `getReadmeFile` as a function: the body of `url + "README"` when the listing names `README`, the empty text otherwise, or a fault when that body cannot be read. It has no contract of its own; `FetchReadme`, the scanning loop, is proved to return it |
| Site.FetchReadme | main.go:68-83 | without a `README` entry nothing is fetched and the text is empty; with one, exactly `url + "README"` is fetched, once, when the scan reaches the first such entry, and the result is that body or a failure when it cannot be read |
| Scrape.Record | main.go:54-59 | the update of the two captured variables for one README text. It has no contract of its own; `RecordCases` states its cases and `RecordExtends` the invariant it keeps |
| Scrape.RecordCases | main.go:54-59 | an empty text changes nothing; a non-empty one adds one to the count, and its trimmed form is appended exactly when it matches the pattern |
| Scrape.RecordExtends | main.go:54-59 | recording one README only appends, appends text that matches the pattern, and never appends more than it adds to the count |
| Scrape.Scrape | main.go:41-66 | on success every recorded text matches the pattern and the count is at least the number of matches |
| Scrape.ScrapeAllExtends | main.go:48-62 | at every stage of the traversal the tally only grows by appending matching texts, with the count keeping ahead of the matches |
| Scrape.ReplayExtends | main.go:54-59 | recording any sequence of READMEs one after another keeps that invariant |
| Scrape.ReplayClosedForm | main.go:54-59 | recording a sequence of READMEs appends exactly the trimmed matching texts in order and adds exactly the number of non-empty ones |
| Scrape.MatchesBoundedByReadmes | main.go:54-58 | only non-empty READMEs can match, so there are never more matches than READMEs found |
| Scrape.ScrapeUrl | main.go:50-60 | one iteration of the loop in `fn`: GET the URL, read its README, record it, then descend into its filtered children. It has no contract of its own; `ScrapeUrlIsReplay` equates it with recording its pre-order visit list |
| Scrape.ScrapeAll | main.go:48-62 | `fn` over a frontier, one URL after the other, stopping at the first fault. It has no contract of its own; `ScrapeAllIsReplay` and `ScrapeAllExtends` characterise it |
| Scrape.ScrapeUrlIsReplay | main.go:48-62 | processing one URL with the closure gives the same fault as its pre-order visit list, or else the accumulator with that list's READMEs recorded in order |
| Scrape.ScrapeAllIsReplay | main.go:48-62 | the same for a whole frontier: each URL's subtree is finished before the next URL starts |
| Scrape.ScrapeResult | main.go:41-66 | `scrape` returns the trimmed matching READMEs in depth-first pre-order and the number of non-empty READMEs, or the first fault of that order |
| Scrape.WalkAllAppend | main.go:49-61 | visiting two frontiers one after the other gives the first one's visits followed by the second's, with no interleaving |
| Scrape.WalkStaysBelow | main.go:60 | a directory is visited first, and everything visited from it has its URL as a prefix |
| Scrape.WalkFuelStable | main.go:60 | once the walk ends within the depth budget, one more unit of budget gives the same result |
| Scrape.WalkMoreFuel | main.go:60 | once the walk ends within the depth budget, any larger budget gives the same result |
| Scrape.ScrapeFuelStable | main.go:41-66 | the same for `scrape`: one more unit of budget does not change an outcome that did not run out of it |
| Scrape.ScrapeMoreFuel | main.go:41-66 | any larger budget does not change a `scrape` outcome that did not run out of it |
| Scenario.RootTextRecorded | main.go:56-57 | a README holding a digest between blanks is recorded as the bare digest |
| Scenario.ParentChildWalk | main.go:48-62 | a directory with one leaf subdirectory is visited as two visits, parent first |
| Scenario.TwoLevelWalk | main.go:48-62 | on the two-directory server the visit order is the root, then its subdirectory |
| Scenario.TwoLevelScrape | main.go:41-66 | on the two-directory server both READMEs are counted, and only the root's digest is recorded, trimmed |
| Scenario.EmptyListingVisit | main.go:48-62 | a directory whose listing has no entries is a single visit with no README and no children |

## Behaviour as written

- Nothing de-duplicates child URLs. A listing that names a subdirectory twice
  is descended into twice (`Links.DuplicateEntryKept`), and two listings that
  link the same URL both fetch it.
- The current URL is never checked to end in `/`; a child URL is plain
  concatenation of the current URL and the href.

## Left out

- `main` (main.go:19-39): flag parsing, IP validation, `os.Exit`, printing and
  timing are process plumbing around `scrape`.
- `http.Get`, `io.ReadAll` and `body.Close` (main.go:71-79, main.go:106-115): the
  network is the `Server` value. A failed request or body read is a missing map
  entry. Closing the body is not represented. In the source a failed close
  (main.go:110-115) calls `log.Fatalf` and ends the run. The model has no
  fault for it, so it promises nothing about that failure.
- `html.Parse` (main.go:123): the parser is a foreign library. A page is given
  as its parsed `Node` tree, or as `Malformed`. `Node` keeps the kind, the tag
  name, the attributes and the children; the `children` sequence stands for the
  `FirstChild`/`NextSibling` chain the walk follows (main.go:138). It omits
  `DataAtom`, the namespace, and the `Parent`, `PrevSibling` and `LastChild`
  pointers, which the walk does not read.
- Fault contents: every model fault carries the URL involved. In the source only
  the failed GETs name it (main.go:71, main.go:108): the parse error
  (main.go:123-125) and the body-read error (main.go:75-77) are reported
  without it. The fault's kind and the point where the run stops are the same.
- The `regexp` engine and its compile-error branch (main.go:86-90): the pattern
  is the predicate `ContainsPossibleMd5String`. The error branch cannot be
  reached with the fixed pattern.
- Strings are sequences of characters, not UTF-8 bytes. The hex alphabet is
  ASCII, and `IsSpace` lists the same white-space code points as Go's
  `unicode.IsSpace`.
- Scrape.Scrape: takes a depth budget `fuel`. The source has none and runs
  forever on a server with a cycle. The model reports `DepthExhausted`
  instead, and `Scrape.ScrapeMoreFuel` shows that a larger budget never changes a
  completed run.
- Site.GetReadmeFile: its contract is stated on `Site.FetchReadme`, the loop
  that performs the scan, which is proved to return the same result.
- That calling `removeUnwantedHrefs` twice gives the same output holds because
  it is a Dafny function, so no lemma states it.
