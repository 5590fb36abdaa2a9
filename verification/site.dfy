/** The file server as the scraper sees it, and the two requests it makes:
    `doRequest` (GET a listing and collect its hrefs) and `getReadmeFile`
    (GET the marker file of a directory). HTTP itself is not modelled: the
    server is a finite description of what each GET yields. */
module Site {
  import opened Wrappers
  import opened Dom
  import opened Links

  /** What `html.Parse` makes of the body at a URL. */
  datatype Page = Parsed(doc: Node) | Malformed

  /** `pages` holds the parsed body of every URL that answers a GET; `texts`
      holds the raw body text of every URL that answers a GET. A URL missing
      from a map is one whose request or body read fails. */
  datatype Server = Server(pages: map<string, Page>, texts: map<string, string>)

  /** The source's fatal errors, each stopping the whole run. */
  datatype Fault =
    | RequestFailed(url: string)
    | ParseFailed(url: string)
    | ReadmeFailed(url: string)
    | DepthExhausted(url: string)

  /** `doRequest`: GET `url`, parse the body, collect the hrefs. */
  function DoRequest(server: Server, url: string): (r: Result<seq<string>, Fault>)
    ensures r.Failure? <==> url !in server.pages || server.pages[url].Malformed?
    ensures r.Failure? ==> r.error.url == url && !r.error.DepthExhausted?
    ensures r.Success? ==> r.value == TraversForHrefs(server.pages[url].doc)
  {
    if url !in server.pages then Failure(RequestFailed(url))
    else match server.pages[url]
      case Malformed => Failure(ParseFailed(url))
      case Parsed(doc) => Success(TraversForHrefs(doc))
  }

  /** `getReadmeFile`: when the listing advertises the marker file, the
      body of `url + "README"`; otherwise the empty text. */
  function GetReadmeFile(server: Server, url: string, hrefs: seq<string>): Result<string, Fault> {
    if Readme !in hrefs then Success("")
    else if url + Readme in server.texts then Success(server.texts[url + Readme])
    else Failure(ReadmeFailed(url + Readme))
  }

  /** Position of the first marker-file entry, or `|hrefs|` when none. */
  function ReadmePosition(hrefs: seq<string>): (i: nat)
    ensures i <= |hrefs|
    ensures i < |hrefs| ==> hrefs[i] == Readme
    ensures forall j :: 0 <= j < i ==> hrefs[j] != Readme
  {
    if hrefs == [] then 0
    else if hrefs[0] == Readme then 0
    else 1 + ReadmePosition(hrefs[1..])
  }

  /** The scan of `getReadmeFile` with its requests made visible: `fetched`
      lists the URLs requested and `examined` the number of hrefs looked at.
      Without a marker entry nothing is fetched and the text is empty; with
      one, exactly `url + "README"` is fetched, once, at its first entry, and
      the scan stops there. */
  method FetchReadme(server: Server, url: string, hrefs: seq<string>)
    returns (r: Result<string, Fault>, fetched: seq<string>, examined: nat)
    ensures Readme !in hrefs ==> r == Success("") && fetched == [] && examined == |hrefs|
    ensures Readme in hrefs ==> fetched == [url + Readme] && examined == ReadmePosition(hrefs) + 1
    ensures Readme in hrefs ==>
      (r.Success? <==> url + Readme in server.texts) &&
      (r.Success? ==> r.value == server.texts[url + Readme])
    ensures r == GetReadmeFile(server, url, hrefs)
  {
    fetched := [];
    examined := 0;
    while examined < |hrefs|
      invariant examined <= |hrefs|
      invariant forall j :: 0 <= j < examined ==> hrefs[j] != Readme
      invariant fetched == []
    {
      var href := hrefs[examined];
      examined := examined + 1;
      if href == Readme {
        var target := url + href;
        fetched := fetched + [target];
        if target in server.texts {
          r := Success(server.texts[target]);
        } else {
          r := Failure(ReadmeFailed(target));
        }
        return;
      }
    }
    r := Success("");
  }
}
