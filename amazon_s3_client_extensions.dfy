/** A model of the sequential skeleton of `AmazonS3ClientExtensions.ZipDirectory`:
    the paginated `ListObjectsV2` loop that feeds every listed object, in order,
    to the download stage; the download stage itself; the single-threaded
    zipper that turns each downloaded object into one archive entry named by
    the last segment of its key; and the order of the completion handshakes.

    The bucket is an abstract paged source: a function from a listing request
    to the page it answers with. Object contents are a function from bucket
    name and key to bytes. The archive is the sequence of entries written to
    it, and the streams opened and disposed are recorded as events. */
module AmazonS3ClientExtensions {

  datatype Option<T> = None | Some(value: T)

  datatype S3Object = S3Object(bucketName: string, key: string)

  datatype ListObjectsV2Request = ListObjectsV2Request(bucketName: string, prefix: string, continuationToken: Option<string>)

  /** `isTruncated` is the SDK's nullable `bool`. */
  datatype ListObjectsV2Response = ListObjectsV2Response(s3Objects: seq<S3Object>, isTruncated: Option<bool>, nextContinuationToken: Option<string>)

  datatype GetObjectResponse = GetObjectResponse(key: string, responseStream: seq<bv8>)

  datatype ZipEntry = ZipEntry(name: string, content: seq<bv8>)

  /** The only option the method reads. */
  datatype ZipDirectoryOptions = ZipDirectoryOptions(downloadsMaxDegreeOfParallelism: int)

  /** What the coordinating method does, in order: list a page, post an
      object to the downloader, and the completion handshakes. */
  datatype Step =
    | ListObjectsV2(request: ListObjectsV2Request)
    | Send(s3Object: S3Object)
    | CompleteDownloader
    | AwaitDownloader
    | CompleteZipper
    | AwaitZipper

  /** What the zipper does to the archive and to the streams it holds.
      `CreateEntry` is where the zipper takes up the response for `key`. */
  datatype ArchiveEvent =
    | CreateEntry(name: string, key: string)
    | OpenEntryStream(name: string)
    | CopyContent(name: string)
    | DisposeResponseStream(key: string)
    | DisposeResponse(key: string)
    | DisposeEntryStream(name: string)

  type Store = ListObjectsV2Request -> ListObjectsV2Response

  type Contents = (string, string) -> seq<bv8>

  /** The loop condition `response?.IsTruncated is true`: a page that does
      not say whether it is truncated ends the listing like one that says it
      is not. */
  predicate MorePages(response: ListObjectsV2Response): (more: bool)
    ensures more ==> response.isTruncated == Some(true)
    ensures response.isTruncated.None? ==> !more
  {
    response.isTruncated == Some(true)
  }

  // ---------------------------------------------------------------------
  // The chain of pages

  /** The `n`-th listing request of the chain: the first carries no
      continuation token, each later one the token of the page before it. */
  function RequestAt(store: Store, bucketName: string, prefix: string, n: nat): (request: ListObjectsV2Request)
    ensures request.bucketName == bucketName && request.prefix == prefix
    ensures n == 0 ==> request.continuationToken.None?
  {
    ListObjectsV2Request(bucketName, prefix,
      if n == 0 then None else store(RequestAt(store, bucketName, prefix, n - 1)).nextContinuationToken)
  }

  /** The `n`-th page of the chain. */
  function PageAt(store: Store, bucketName: string, prefix: string, n: nat): ListObjectsV2Response {
    store(RequestAt(store, bucketName, prefix, n))
  }

  /** The index of the first page of the chain, from the `n`-th on, that is
      not truncated; `last` is any untruncated page, and only bounds the
      search. */
  function FinalPage(store: Store, bucketName: string, prefix: string, n: nat, last: nat): (k: nat)
    requires n <= last && !MorePages(PageAt(store, bucketName, prefix, last))
    decreases last - n
    ensures n <= k <= last && !MorePages(PageAt(store, bucketName, prefix, k))
    ensures forall j :: n <= j < k ==> MorePages(PageAt(store, bucketName, prefix, j))
  {
    if MorePages(PageAt(store, bucketName, prefix, n)) then FinalPage(store, bucketName, prefix, n + 1, last) else n
  }

  /** The first untruncated page does not depend on which untruncated page
      bounds the search. */
  lemma FinalPageUnique(store: Store, bucketName: string, prefix: string, last: nat, k: nat)
    requires !MorePages(PageAt(store, bucketName, prefix, last))
    requires forall j :: 0 <= j < k ==> MorePages(PageAt(store, bucketName, prefix, j))
    requires !MorePages(PageAt(store, bucketName, prefix, k))
    ensures k == FinalPage(store, bucketName, prefix, 0, last)
  {
  }

  /** The first `count` requests of the chain. */
  function RequestsUpTo(store: Store, bucketName: string, prefix: string, count: nat): (requests: seq<ListObjectsV2Request>)
    ensures |requests| == count
    ensures forall j {:trigger requests[j]} :: 0 <= j < count ==> requests[j] == RequestAt(store, bucketName, prefix, j)
  {
    if count == 0 then [] else RequestsUpTo(store, bucketName, prefix, count - 1) + [RequestAt(store, bucketName, prefix, count - 1)]
  }

  /** The first `count` pages of the chain. */
  function PagesUpTo(store: Store, bucketName: string, prefix: string, count: nat): (pages: seq<ListObjectsV2Response>)
    ensures |pages| == count
    ensures forall j {:trigger pages[j]} :: 0 <= j < count ==> pages[j] == PageAt(store, bucketName, prefix, j)
  {
    if count == 0 then [] else PagesUpTo(store, bucketName, prefix, count - 1) + [PageAt(store, bucketName, prefix, count - 1)]
  }

  /** The requests of a listing are chained: the first carries no continuation
      token, each later one carries the token of the response before it, all
      of them carry the caller's bucket and prefix, and each response is the
      store's answer to its request. */
  ghost predicate Chained(store: Store, bucketName: string, prefix: string,
                          requests: seq<ListObjectsV2Request>, responses: seq<ListObjectsV2Response>)
  {
    |requests| == |responses| &&
    (|requests| > 0 ==> requests[0].continuationToken == None) &&
    (forall j :: 0 < j < |requests| ==> requests[j].continuationToken == responses[j - 1].nextContinuationToken) &&
    (forall j :: 0 <= j < |requests| ==> requests[j].bucketName == bucketName && requests[j].prefix == prefix) &&
    (forall j :: 0 <= j < |requests| ==> responses[j] == store(requests[j]))
  }

  /** The chain's first requests and pages are chained. */
  lemma PagesChained(store: Store, bucketName: string, prefix: string, count: nat)
    ensures Chained(store, bucketName, prefix, RequestsUpTo(store, bucketName, prefix, count), PagesUpTo(store, bucketName, prefix, count))
  {
    var requests, responses := RequestsUpTo(store, bucketName, prefix, count), PagesUpTo(store, bucketName, prefix, count);
    forall j | 0 < j < count
      ensures requests[j].continuationToken == responses[j - 1].nextContinuationToken
    {
      assert requests[j] == RequestAt(store, bucketName, prefix, j);
      assert responses[j - 1] == PageAt(store, bucketName, prefix, j - 1);
    }
  }

  /** Conversely, chained requests are exactly the requests of the chain, and
      their responses its pages. */
  lemma {:induction false} ChainedFollowsPages(store: Store, bucketName: string, prefix: string,
                                               requests: seq<ListObjectsV2Request>, responses: seq<ListObjectsV2Response>)
    requires Chained(store, bucketName, prefix, requests, responses)
    ensures requests == RequestsUpTo(store, bucketName, prefix, |requests|)
    ensures responses == PagesUpTo(store, bucketName, prefix, |responses|)
  {
    if requests != [] {
      var n := |requests| - 1;
      ChainedFollowsPages(store, bucketName, prefix, requests[..n], responses[..n]);
      assert n > 0 ==> responses[..n][n - 1] == responses[n - 1];
      assert requests == requests[..n] + [requests[n]];
      assert responses == responses[..n] + [responses[n]];
    }
  }

  /** The listing: every page before the first untruncated one is truncated,
      and that one is not; so the calls made number the index of the first
      untruncated page plus one, at least one even for an empty prefix. */
  lemma ListingStops(store: Store, bucketName: string, prefix: string, last: nat)
    requires !MorePages(PageAt(store, bucketName, prefix, last))
    ensures var pages := PagesUpTo(store, bucketName, prefix, FinalPage(store, bucketName, prefix, 0, last) + 1);
      |pages| >= 1 &&
      (forall j :: 0 <= j < |pages| - 1 ==> MorePages(pages[j])) &&
      !MorePages(pages[|pages| - 1])
  {
    var pages := PagesUpTo(store, bucketName, prefix, FinalPage(store, bucketName, prefix, 0, last) + 1);
    forall j | 0 <= j < |pages| - 1
      ensures MorePages(pages[j])
    {
      assert pages[j] == PageAt(store, bucketName, prefix, j);
    }
    assert pages[|pages| - 1] == PageAt(store, bucketName, prefix, |pages| - 1);
  }

  // ---------------------------------------------------------------------
  // The listing loop and its log

  /** The objects of a sequence of pages, page after page, each page's
      objects in their own order. */
  function Objects(pages: seq<ListObjectsV2Response>): seq<S3Object> {
    if pages == [] then [] else Objects(pages[..|pages| - 1]) + pages[|pages| - 1].s3Objects
  }

  /** The objects posted to the downloader, in order. */
  function Sends(steps: seq<Step>): seq<S3Object> {
    if steps == [] then []
    else Sends(steps[..|steps| - 1]) + (if steps[|steps| - 1].Send? then [steps[|steps| - 1].s3Object] else [])
  }

  /** The listing requests made, in order. */
  function Requests(steps: seq<Step>): seq<ListObjectsV2Request> {
    if steps == [] then []
    else Requests(steps[..|steps| - 1]) + (if steps[|steps| - 1].ListObjectsV2? then [steps[|steps| - 1].request] else [])
  }

  /** Posting each object, in order. */
  function SendSteps(objects: seq<S3Object>): (steps: seq<Step>)
    ensures |steps| == |objects|
    ensures forall k :: 0 <= k < |objects| ==> steps[k] == Send(objects[k])
  {
    if objects == [] then [] else SendSteps(objects[..|objects| - 1]) + [Send(objects[|objects| - 1])]
  }

  /** The log of a listing: each request, followed by the posts of the
      objects of the page it returned. */
  function ListingSteps(requests: seq<ListObjectsV2Request>, responses: seq<ListObjectsV2Response>): seq<Step>
    requires |requests| == |responses|
  {
    if requests == [] then []
    else
      var n := |requests| - 1;
      ListingSteps(requests[..n], responses[..n]) + [ListObjectsV2(requests[n])] + SendSteps(responses[n].s3Objects)
  }

  /** The do/while loop: request a page with the previous page's token, post
      each of its objects to the downloader, and repeat while the page is
      truncated. `last`, an untruncated page of the chain, exists only to
      show that the loop ends. */
  method ListObjects(store: Store, bucketName: string, s3Directory: string, ghost last: nat)
    returns (requests: seq<ListObjectsV2Request>, responses: seq<ListObjectsV2Response>, steps: seq<Step>)
    requires !MorePages(PageAt(store, bucketName, s3Directory, last))
    // the calls are those of the chain up to its first untruncated page
    ensures |responses| == FinalPage(store, bucketName, s3Directory, 0, last) + 1
    ensures requests == RequestsUpTo(store, bucketName, s3Directory, |responses|)
    ensures responses == PagesUpTo(store, bucketName, s3Directory, |responses|)
    // the log is each request followed by the posts of its page's objects
    ensures steps == ListingSteps(requests, responses)
  {
    requests, responses, steps := [], [], [];
    var response: Option<ListObjectsV2Response> := None;
    ghost var final := FinalPage(store, bucketName, s3Directory, 0, last);
    while true
      invariant |requests| == |responses| <= final
      invariant requests == RequestsUpTo(store, bucketName, s3Directory, |responses|)
      invariant responses == PagesUpTo(store, bucketName, s3Directory, |responses|)
      invariant response == if responses == [] then None else Some(responses[|responses| - 1])
      invariant steps == ListingSteps(requests, responses)
      decreases final - |responses|
    {
      var page;
      requests, responses, steps, page := ListPage(store, bucketName, s3Directory, requests, responses, steps, response);
      response := Some(page);
      if !MorePages(page) {
        break;
      }
    }
  }

  /** One pass of the `do` body: request the page that follows `response`
      (the first page when there is none), then post each of its objects. */
  method ListPage(store: Store, bucketName: string, s3Directory: string,
                  requests: seq<ListObjectsV2Request>, responses: seq<ListObjectsV2Response>, steps: seq<Step>,
                  response: Option<ListObjectsV2Response>)
    returns (requests': seq<ListObjectsV2Request>, responses': seq<ListObjectsV2Response>, steps': seq<Step>, page: ListObjectsV2Response)
    requires requests == RequestsUpTo(store, bucketName, s3Directory, |responses|)
    requires responses == PagesUpTo(store, bucketName, s3Directory, |responses|)
    requires response == if responses == [] then None else Some(responses[|responses| - 1])
    requires steps == ListingSteps(requests, responses)
    // the page requested is the next page of the chain
    ensures page == PageAt(store, bucketName, s3Directory, |responses|) && responses' == responses + [page]
    ensures requests' == RequestsUpTo(store, bucketName, s3Directory, |responses'|)
    ensures responses' == PagesUpTo(store, bucketName, s3Directory, |responses'|)
    ensures steps' == ListingSteps(requests', responses')
  {
    var token := if response.Some? then response.value.nextContinuationToken else None;
    var request := ListObjectsV2Request(bucketName, s3Directory, token);
    assert request == RequestAt(store, bucketName, s3Directory, |responses|);
    page := store(request);
    ChainSnoc(store, bucketName, s3Directory, |responses|);
    ListingSnoc(requests, responses, request, page);
    requests', responses' := requests + [request], responses + [page];
    steps' := steps + [ListObjectsV2(request)];
    steps' := Post(page, steps');
  }

  /** One more call extends the chain's requests and pages by one. */
  lemma ChainSnoc(store: Store, bucketName: string, prefix: string, n: nat)
    ensures RequestsUpTo(store, bucketName, prefix, n + 1) == RequestsUpTo(store, bucketName, prefix, n) + [RequestAt(store, bucketName, prefix, n)]
    ensures PagesUpTo(store, bucketName, prefix, n + 1) == PagesUpTo(store, bucketName, prefix, n) + [PageAt(store, bucketName, prefix, n)]
  {
  }

  /** One more call extends the log by its request and the posts of its page. */
  lemma ListingSnoc(requests: seq<ListObjectsV2Request>, responses: seq<ListObjectsV2Response>,
                    request: ListObjectsV2Request, page: ListObjectsV2Response)
    requires |requests| == |responses|
    ensures ListingSteps(requests + [request], responses + [page]) ==
      ListingSteps(requests, responses) + [ListObjectsV2(request)] + SendSteps(page.s3Objects)
  {
    assert (requests + [request])[..|requests|] == requests;
    assert (responses + [page])[..|responses|] == responses;
  }

  /** The `foreach` over one page: post each of its objects to the
      downloader, in order. */
  method Post(page: ListObjectsV2Response, steps: seq<Step>) returns (steps': seq<Step>)
    ensures steps' == steps + SendSteps(page.s3Objects)
  {
    steps' := steps;
    for j := 0 to |page.s3Objects|
      invariant steps' == steps + SendSteps(page.s3Objects[..j])
    {
      steps' := steps' + [Send(page.s3Objects[j])];
      assert page.s3Objects[..j + 1][..j] == page.s3Objects[..j];
    }
    assert page.s3Objects[..|page.s3Objects|] == page.s3Objects;
  }

  lemma {:induction false} RequestsAppend(a: seq<Step>, b: seq<Step>)
    ensures Requests(a + b) == Requests(a) + Requests(b)
  {
    if b == [] {
      assert a + b == a;
    } else {
      var n := |b| - 1;
      RequestsAppend(a, b[..n]);
      assert (a + b)[..|a + b| - 1] == a + b[..n];
    }
  }

  lemma {:induction false} SendsAppend(a: seq<Step>, b: seq<Step>)
    ensures Sends(a + b) == Sends(a) + Sends(b)
  {
    if b == [] {
      assert a + b == a;
    } else {
      var n := |b| - 1;
      SendsAppend(a, b[..n]);
      assert (a + b)[..|a + b| - 1] == a + b[..n];
    }
  }

  /** Posting objects makes no listing request and posts exactly those objects. */
  lemma {:induction false} SendStepsPost(objects: seq<S3Object>)
    ensures Requests(SendSteps(objects)) == []
    ensures Sends(SendSteps(objects)) == objects
  {
    if objects != [] {
      var n := |objects| - 1;
      SendStepsPost(objects[..n]);
      var steps := SendSteps(objects);
      assert steps[..|steps| - 1] == SendSteps(objects[..n]);
      assert objects[..n] + [objects[n]] == objects;
    }
  }

  /** The log of a listing holds only requests and posts. */
  lemma {:induction false} ListingStepsKinds(requests: seq<ListObjectsV2Request>, responses: seq<ListObjectsV2Response>)
    requires |requests| == |responses|
    ensures forall k :: 0 <= k < |ListingSteps(requests, responses)| ==>
      ListingSteps(requests, responses)[k].ListObjectsV2? || ListingSteps(requests, responses)[k].Send?
  {
    if requests != [] {
      var n := |requests| - 1;
      ListingStepsKinds(requests[..n], responses[..n]);
    }
  }

  /** The requests in the log of a listing are the listing's requests, in
      order, beginning with the first. */
  lemma {:induction false} ListingStepsRequests(requests: seq<ListObjectsV2Request>, responses: seq<ListObjectsV2Response>)
    requires |requests| == |responses|
    ensures Requests(ListingSteps(requests, responses)) == requests
    ensures requests != [] ==> ListingSteps(requests, responses)[0] == ListObjectsV2(requests[0])
  {
    if requests != [] {
      var n := |requests| - 1;
      var before := ListingSteps(requests[..n], responses[..n]);
      ListingStepsRequests(requests[..n], responses[..n]);
      SendStepsPost(responses[n].s3Objects);
      RequestsAppend(before, [ListObjectsV2(requests[n])]);
      RequestsAppend(before + [ListObjectsV2(requests[n])], SendSteps(responses[n].s3Objects));
      assert Requests([ListObjectsV2(requests[n])]) == [requests[n]];
      assert requests[..n] + [requests[n]] == requests;
      if n > 0 {
        assert requests[..n][0] == requests[0];
      }
    }
  }

  /** The posts in the log of a listing are every object of every page, in
      page order and in in-page order, none skipped and none added. */
  lemma {:induction false} ListingStepsSends(requests: seq<ListObjectsV2Request>, responses: seq<ListObjectsV2Response>)
    requires |requests| == |responses|
    ensures Sends(ListingSteps(requests, responses)) == Objects(responses)
  {
    if requests != [] {
      var n := |requests| - 1;
      var before := ListingSteps(requests[..n], responses[..n]);
      ListingStepsSends(requests[..n], responses[..n]);
      SendStepsPost(responses[n].s3Objects);
      SendsAppend(before, [ListObjectsV2(requests[n])]);
      SendsAppend(before + [ListObjectsV2(requests[n])], SendSteps(responses[n].s3Objects));
      assert Sends([ListObjectsV2(requests[n])]) == [];
    }
  }

  // ---------------------------------------------------------------------
  // Entry naming

  /** The position of the last '/' among the first `n` characters of
      `path`, or -1 when there is none: the backward scan `Path.GetFileName`
      makes. */
  function LastSeparator(path: string, n: nat): (i: int)
    requires n <= |path|
    ensures -1 <= i < n
  {
    if n == 0 then -1
    else if path[n - 1] == '/' then n - 1
    else LastSeparator(path, n - 1)
  }

  /** The scan finds a '/', if any, and there is none after it. */
  lemma {:induction false} LastSeparatorFound(path: string, n: nat)
    requires n <= |path|
    ensures LastSeparator(path, n) >= 0 ==> path[LastSeparator(path, n)] == '/'
    ensures forall j :: LastSeparator(path, n) < j < n ==> path[j] != '/'
  {
    if n > 0 && path[n - 1] != '/' {
      LastSeparatorFound(path, n - 1);
    }
  }

  /** `Path.GetFileName` on a key: the characters after the last '/', or the
      whole key when it has none. */
  function FileName(path: string): string {
    path[LastSeparator(path, |path|) + 1..]
  }

  /** The file name is a suffix of the key without a '/', and it is the
      longest: the key either is the file name or has a '/' just before it. */
  lemma FileNameIsLastSegment(path: string)
    ensures |FileName(path)| <= |path| && FileName(path) == path[|path| - |FileName(path)|..]
    ensures '/' !in FileName(path)
    ensures |FileName(path)| < |path| ==> path[|path| - |FileName(path)| - 1] == '/'
  {
    var i := LastSeparator(path, |path|);
    LastSeparatorFound(path, |path|);
    var name := path[i + 1..];
    assert FileName(path) == name && |path| - |name| == i + 1;
    forall c | c in name
      ensures c != '/'
    {
      var j :| 0 <= j < |name| && name[j] == c;
      assert path[i + 1 + j] == c;
    }
  }

  /** The file name is the one segment that ends the key and is preceded by a
      '/' or by nothing. */
  lemma FileNameUnique(dir: string, name: string)
    requires '/' !in name
    requires dir == [] || dir[|dir| - 1] == '/'
    ensures FileName(dir + name) == name
  {
    var path := dir + name;
    var i := LastSeparator(path, |path|);
    LastSeparatorFound(path, |path|);
    assert forall j :: |dir| <= j < |path| ==> path[j] == name[j - |dir|];
    assert dir != [] ==> path[|dir| - 1] == '/';
    assert i == |dir| - 1;
    assert path[|dir|..] == name;
  }

  /** A folder-marker key, one that ends in '/', gives the empty file name. */
  lemma FolderMarkerName(dir: string)
    ensures FileName(dir + "/") == ""
  {
  }

  // ---------------------------------------------------------------------
  // Download and zip

  /** The downloader's transform: one `GetObject` call per posted object. */
  function GetObject(contents: Contents, s3Object: S3Object): (response: GetObjectResponse)
    ensures response.key == s3Object.key
    ensures response.responseStream == contents(s3Object.bucketName, s3Object.key)
  {
    GetObjectResponse(s3Object.key, contents(s3Object.bucketName, s3Object.key))
  }

  /** The archive the zipper writes for the objects posted: one entry per
      object, in order. */
  function Archive(contents: Contents, sent: seq<S3Object>): (entries: seq<ZipEntry>)
    ensures |entries| == |sent|
    ensures forall i :: 0 <= i < |sent| ==>
      entries[i] == ZipEntry(FileName(sent[i].key), contents(sent[i].bucketName, sent[i].key))
  {
    if sent == [] then []
    else
      var response := GetObject(contents, sent[|sent| - 1]);
      Archive(contents, sent[..|sent| - 1]) + [ZipEntry(FileName(response.key), response.responseStream)]
  }

  /** Two keys in different folders with the same last segment give two
      entries with the same name; nothing rejects the second. */
  lemma DuplicateNames(contents: Contents, bucketName: string)
    ensures var entries := Archive(contents, [S3Object(bucketName, "x/a.txt"), S3Object(bucketName, "x/sub/a.txt")]);
      |entries| == 2 && entries[0].name == entries[1].name == "a.txt"
  {
    FileNameUnique("x/", "a.txt");
    FileNameUnique("x/sub/", "a.txt");
    assert "x/" + "a.txt" == "x/a.txt" && "x/sub/" + "a.txt" == "x/sub/a.txt";
  }

  /** What the zipper does for one response, in order. */
  function EntryEvents(response: GetObjectResponse): seq<ArchiveEvent> {
    var name := FileName(response.key);
    [CreateEntry(name, response.key), OpenEntryStream(name), CopyContent(name),
     DisposeResponseStream(response.key), DisposeResponse(response.key), DisposeEntryStream(name)]
  }

  /** What the zipper does for the objects posted, one after the other: the
      log is one block of events per object, in the order they were posted. */
  function ArchiveLog(contents: Contents, sent: seq<S3Object>): seq<ArchiveEvent> {
    if sent == [] then []
    else ArchiveLog(contents, sent[..|sent| - 1]) + EntryEvents(GetObject(contents, sent[|sent| - 1]))
  }

  /** The log is one block of six events per object, in the order posted. */
  lemma {:induction false} ArchiveLogBlocks(contents: Contents, sent: seq<S3Object>)
    ensures |ArchiveLog(contents, sent)| == 6 * |sent|
    ensures forall i :: 0 <= i < |sent| ==>
      ArchiveLog(contents, sent)[6 * i..6 * i + 6] == EntryEvents(GetObject(contents, sent[i]))
  {
    if sent != [] {
      var n := |sent| - 1;
      var before, block := ArchiveLog(contents, sent[..n]), EntryEvents(GetObject(contents, sent[n]));
      ArchiveLogBlocks(contents, sent[..n]);
      assert ArchiveLog(contents, sent) == before + block;
      forall i | 0 <= i < |sent|
        ensures (before + block)[6 * i..6 * i + 6] == EntryEvents(GetObject(contents, sent[i]))
      {
        if i < n {
          assert sent[..n][i] == sent[i];
          SliceOfAppend(before, block, 6 * i, 6 * i + 6);
        } else {
          SliceOfAppend(before, block, |before|, |before| + |block|);
          assert block[..|block|] == block;
        }
      }
    }
  }

  /** A slice of a concatenation that starts within the first part. */
  lemma SliceOfAppend<T>(a: seq<T>, b: seq<T>, lo: nat, hi: nat)
    requires lo <= |a| && lo <= hi <= |a| + |b|
    ensures hi <= |a| ==> (a + b)[lo..hi] == a[lo..hi]
    ensures lo == |a| ==> (a + b)[lo..hi] == b[..hi - lo]
  {
    if hi <= |a| {
      assert forall j :: 0 <= j < hi - lo ==> (a + b)[lo..hi][j] == a[lo..hi][j];
    }
    if lo == |a| {
      assert forall j :: 0 <= j < hi - lo ==> (a + b)[lo..hi][j] == b[..hi - lo][j];
    }
  }

  /** What the zipper can hold open: a response, the response's stream, or
      the stream of an archive entry. */
  datatype Resource = Response(key: string) | ResponseStream(key: string) | EntryStream(name: string)

  /** Taking a response to create its entry holds the response and its
      stream; opening the entry holds the entry stream. */
  function Acquired(e: ArchiveEvent): multiset<Resource> {
    match e
    case CreateEntry(_, key) => multiset{Response(key), ResponseStream(key)}
    case OpenEntryStream(name) => multiset{EntryStream(name)}
    case _ => multiset{}
  }

  /** Each dispose gives back the one resource it names. */
  function Released(e: ArchiveEvent): multiset<Resource> {
    match e
    case DisposeResponseStream(key) => multiset{ResponseStream(key)}
    case DisposeResponse(key) => multiset{Response(key)}
    case DisposeEntryStream(name) => multiset{EntryStream(name)}
    case _ => multiset{}
  }

  /** What the zipper holds open after `events`, starting from `held`. */
  function HeldFrom(held: multiset<Resource>, events: seq<ArchiveEvent>): multiset<Resource> {
    if events == [] then held
    else
      var e := events[|events| - 1];
      HeldFrom(held, events[..|events| - 1]) + Acquired(e) - Released(e)
  }

  /** What the zipper holds open after `events`. */
  function Held(events: seq<ArchiveEvent>): multiset<Resource> {
    HeldFrom(multiset{}, events)
  }

  /** One entry disposes of nothing it does not hold, and gives back the
      response, its stream and the entry stream it took. */
  lemma EntryBalanced(response: GetObjectResponse)
    ensures Held(EntryEvents(response)) == multiset{}
    ensures forall k :: 0 <= k < |EntryEvents(response)| ==>
      Released(EntryEvents(response)[k]) <= Held(EntryEvents(response)[..k])
  {
    var b := EntryEvents(response);
    BlockBalanced(b, FileName(response.key), response.key);
  }

  /** `b` is the events of one entry, for an entry `name` made from the
      response for `key`. */
  predicate EntryShape(b: seq<ArchiveEvent>, name: string, key: string) {
    && |b| == 6 && b[0] == CreateEntry(name, key) && b[1] == OpenEntryStream(name) && b[2] == CopyContent(name)
    && b[3] == DisposeResponseStream(key) && b[4] == DisposeResponse(key) && b[5] == DisposeEntryStream(name)
  }

  /** The events of one entry hold nothing at the end and dispose of
      nothing they do not hold. */
  lemma BlockBalanced(b: seq<ArchiveEvent>, name: string, key: string)
    requires EntryShape(b, name, key)
    ensures Held(b) == multiset{}
    ensures forall k :: 0 <= k < |b| ==> Released(b[k]) <= Held(b[..k])
  {
    BlockPrefix(b, name, key, 6);
    WholeSlice(b);
    forall k | 0 <= k < |b|
      ensures Released(b[k]) <= Held(b[..k])
    {
      BlockPrefix(b, name, key, k);
      BlockStep(b, name, key, k);
    }
  }

  /** What one entry holds after its first `k` events: the response and its
      stream from `CreateEntry` until each is disposed of, the entry stream
      from its opening until its disposal. */
  function BlockHeld(name: string, key: string, k: nat): multiset<Resource> {
    if k == 0 then multiset{}
    else if k == 1 then multiset{Response(key), ResponseStream(key)}
    else if k <= 3 then multiset{Response(key), ResponseStream(key), EntryStream(name)}
    else if k == 4 then multiset{Response(key), EntryStream(name)}
    else if k == 5 then multiset{EntryStream(name)}
    else multiset{}
  }

  /** The holdings of one entry follow `BlockHeld` event by event. */
  lemma {:induction false} BlockPrefix(b: seq<ArchiveEvent>, name: string, key: string, k: nat)
    requires EntryShape(b, name, key) && k <= 6
    ensures Held(b[..k]) == BlockHeld(name, key, k)
  {
    if k == 0 {
      assert b[..0] == [];
    } else {
      BlockPrefix(b, name, key, k - 1);
      BlockStep(b, name, key, k - 1);
      HeldSnoc(b, k - 1, BlockHeld(name, key, k - 1), BlockHeld(name, key, k));
    }
  }

  /** Event `k` of an entry disposes of something it holds, and takes the
      holdings from `BlockHeld` at `k` to `BlockHeld` at `k + 1`. */
  lemma BlockStep(b: seq<ArchiveEvent>, name: string, key: string, k: nat)
    requires EntryShape(b, name, key) && k < 6
    ensures Released(b[k]) <= BlockHeld(name, key, k)
    ensures BlockHeld(name, key, k + 1) == BlockHeld(name, key, k) + Acquired(b[k]) - Released(b[k])
  {
    var r, rs, es := Response(key), ResponseStream(key), EntryStream(name);
    if k == 0 {
      assert Acquired(b[k]) == multiset{r, rs} && Released(b[k]) == multiset{};
    } else if k == 1 {
      assert Acquired(b[k]) == multiset{es} && Released(b[k]) == multiset{};
    } else if k == 2 {
      assert Acquired(b[k]) == multiset{} && Released(b[k]) == multiset{};
    } else if k == 3 {
      assert Acquired(b[k]) == multiset{} && Released(b[k]) == multiset{rs};
    } else if k == 4 {
      assert Acquired(b[k]) == multiset{} && Released(b[k]) == multiset{r};
    } else {
      assert Acquired(b[k]) == multiset{} && Released(b[k]) == multiset{es};
    }
  }

  lemma WholeSlice<T>(s: seq<T>)
    ensures s[..|s|] == s
  {
  }

  /** One more event of `events`: what was held, plus what it takes, less
      what it gives back. */
  lemma HeldSnoc(events: seq<ArchiveEvent>, k: nat, before: multiset<Resource>, after: multiset<Resource>)
    requires k < |events| && Held(events[..k]) == before
    requires Released(events[k]) <= before
    requires after == before + Acquired(events[k]) - Released(events[k])
    ensures Held(events[..k + 1]) == after && Released(events[k]) <= Held(events[..k])
  {
    assert events[..k + 1][..k] == events[..k];
  }

  /** Holding open is a fold: what stretches of events hold chains up. */
  lemma {:induction false} HeldAppend(held: multiset<Resource>, a: seq<ArchiveEvent>, b: seq<ArchiveEvent>)
    ensures HeldFrom(held, a + b) == HeldFrom(HeldFrom(held, a), b)
  {
    if b != [] {
      var n := |b| - 1;
      HeldAppend(held, a, b[..n]);
      assert (a + b)[..|a + b| - 1] == a + b[..n];
      assert (a + b)[|a + b| - 1] == b[n];
    } else {
      assert a + b == a;
    }
  }

  /** The zipper never disposes of a response or stream it does not hold,
      nothing is held open at the end, and no entry is created while a
      response or stream of an earlier entry is still open: each response's
      entry is written and disposed of before the next begins. */
  lemma {:induction false} SerialEntries(contents: Contents, sent: seq<S3Object>)
    ensures Held(ArchiveLog(contents, sent)) == multiset{}
    ensures forall k :: 0 <= k < |ArchiveLog(contents, sent)| ==>
      Released(ArchiveLog(contents, sent)[k]) <= Held(ArchiveLog(contents, sent)[..k])
    ensures forall k :: 0 <= k < |ArchiveLog(contents, sent)| && ArchiveLog(contents, sent)[k].CreateEntry? ==>
      Held(ArchiveLog(contents, sent)[..k]) == multiset{}
  {
    if sent != [] {
      var n := |sent| - 1;
      var response := GetObject(contents, sent[n]);
      var b := EntryEvents(response);
      assert EntryShape(b, FileName(response.key), response.key);
      SerialEntries(contents, sent[..n]);
      AppendEntry(ArchiveLog(contents, sent[..n]), b, FileName(response.key), response.key);
    }
  }

  /** A log that is balanced and creates entries only when nothing is held
      stays so when one more entry's events follow it. */
  lemma AppendEntry(log: seq<ArchiveEvent>, b: seq<ArchiveEvent>, name: string, key: string)
    requires Held(log) == multiset{}
    requires forall k :: 0 <= k < |log| ==> Released(log[k]) <= Held(log[..k])
    requires forall k :: 0 <= k < |log| && log[k].CreateEntry? ==> Held(log[..k]) == multiset{}
    requires EntryShape(b, name, key)
    ensures Held(log + b) == multiset{}
    ensures forall k :: 0 <= k < |log + b| ==> Released((log + b)[k]) <= Held((log + b)[..k])
    ensures forall k :: 0 <= k < |log + b| && (log + b)[k].CreateEntry? ==> Held((log + b)[..k]) == multiset{}
  {
    BlockBalanced(b, name, key);
    HeldAppend(multiset{}, log, b);
    forall k | 0 <= k < |log + b|
      ensures Released((log + b)[k]) <= Held((log + b)[..k])
      ensures (log + b)[k].CreateEntry? ==> Held((log + b)[..k]) == multiset{}
    {
      if k < |log| {
        PrefixInFirst(log, b, k);
      } else {
        var j := k - |log|;
        PrefixInSecond(log, b, k);
        HeldAppend(multiset{}, log, b[..j]);
        assert Held((log + b)[..k]) == Held(b[..j]);
        if b[j].CreateEntry? {
          OnlyFirstCreates(b, name, key, j);
          assert b[..j] == [];
        }
      }
    }
  }

  /** An entry's events create the entry only first. */
  lemma OnlyFirstCreates(b: seq<ArchiveEvent>, name: string, key: string, j: nat)
    requires EntryShape(b, name, key) && j < |b| && b[j].CreateEntry?
    ensures j == 0
  {
  }

  /** A prefix of `a + b` that ends within `a`. */
  lemma PrefixInFirst<T>(a: seq<T>, b: seq<T>, k: nat)
    requires k < |a|
    ensures (a + b)[..k] == a[..k] && (a + b)[k] == a[k]
  {
  }

  /** A prefix of `a + b` that ends within `b`. */
  lemma PrefixInSecond<T>(a: seq<T>, b: seq<T>, k: nat)
    requires |a| <= k < |a| + |b|
    ensures (a + b)[..k] == a + b[..k - |a|] && (a + b)[k] == b[k - |a|]
  {
    assert (a + b)[..k] == a + b[..k - |a|];
  }

  /** The zipper, run with parallelism 1 on the downloader's output in the
      order it was posted: for each object, create an entry named by the
      key's last segment, open it, copy the whole response stream into it,
      then dispose of the response stream, the response and the entry
      stream. */
  method Zip(contents: Contents, sent: seq<S3Object>) returns (entries: seq<ZipEntry>, events: seq<ArchiveEvent>)
    ensures entries == Archive(contents, sent)
    ensures events == ArchiveLog(contents, sent)
  {
    entries, events := [], [];
    for i := 0 to |sent|
      invariant entries == Archive(contents, sent[..i])
      invariant events == ArchiveLog(contents, sent[..i])
    {
      var response := GetObject(contents, sent[i]);
      var name := FileName(response.key);
      // CreateEntry, then CopyToAsync into the open entry stream
      entries := entries + [ZipEntry(name, [])];
      entries := entries[i := entries[i].(content := entries[i].content + response.responseStream)];
      assert entries[i] == ZipEntry(name, response.responseStream) && entries[..i] == Archive(contents, sent[..i]);
      // then the disposals, each entry's events in the order EntryEvents gives
      events := events + EntryEvents(response);
      ZipStep(contents, sent, i);
    }
    assert sent[..|sent|] == sent;
  }

  /** One more object adds its entry to the archive and its events to the log. */
  lemma ZipStep(contents: Contents, sent: seq<S3Object>, i: nat)
    requires i < |sent|
    ensures Archive(contents, sent[..i + 1]) ==
      Archive(contents, sent[..i]) + [ZipEntry(FileName(sent[i].key), contents(sent[i].bucketName, sent[i].key))]
    ensures ArchiveLog(contents, sent[..i + 1]) == ArchiveLog(contents, sent[..i]) + EntryEvents(GetObject(contents, sent[i]))
  {
    assert sent[..i + 1][..i] == sent[..i];
  }

  // ---------------------------------------------------------------------
  // The whole method

  /** The completion handshakes, in the order the method makes them. */
  const Handshakes: seq<Step> := [CompleteDownloader, AwaitDownloader, CompleteZipper, AwaitZipper]

  /** `ZipDirectory`: resolve the options, list the pages and post every
      object, then complete and await the downloader, then the zipper; the
      zipper consumes the posts in order. `defaults` stands for a freshly
      constructed `ZipDirectoryOptions`. */
  method ZipDirectory(store: Store, contents: Contents, bucketName: string, s3Directory: string,
                      options: Option<ZipDirectoryOptions>, defaults: ZipDirectoryOptions, ghost last: nat)
    returns (used: ZipDirectoryOptions, steps: seq<Step>, entries: seq<ZipEntry>, events: seq<ArchiveEvent>)
    requires !MorePages(PageAt(store, bucketName, s3Directory, last))
    // a missing options argument is replaced by the defaults, a given one is kept
    ensures options.Some? ==> used == options.value
    ensures options.None? ==> used == defaults
    // the whole listing with its posts comes first, then the handshakes
    ensures var calls := FinalPage(store, bucketName, s3Directory, 0, last) + 1;
      steps == ListingSteps(RequestsUpTo(store, bucketName, s3Directory, calls), PagesUpTo(store, bucketName, s3Directory, calls)) + Handshakes
    // the objects posted are every listed object, page by page
    ensures Sends(steps) == Objects(PagesUpTo(store, bucketName, s3Directory, FinalPage(store, bucketName, s3Directory, 0, last) + 1))
    // the zipper writes one entry per posted object, in order
    ensures entries == Archive(contents, Sends(steps))
    ensures events == ArchiveLog(contents, Sends(steps))
  {
    used := if options.Some? then options.value else defaults;
    var requests, responses, listing := ListObjects(store, bucketName, s3Directory, last);
    steps := listing + Handshakes;
    HandshakesPostNothing(listing);
    ListingStepsSends(requests, responses);
    var sent := Sends(listing);
    entries, events := Zip(contents, sent);
  }

  /** The handshakes post nothing and make no request. */
  lemma HandshakesPostNothing(listing: seq<Step>)
    ensures Sends(listing + Handshakes) == Sends(listing)
    ensures Requests(listing + Handshakes) == Requests(listing)
  {
    SendsAppend(listing, Handshakes);
    RequestsAppend(listing, Handshakes);
    NeitherSendNorRequest(Handshakes);
  }

  /** Steps that are neither posts nor requests post nothing and request nothing. */
  lemma {:induction false} NeitherSendNorRequest(steps: seq<Step>)
    requires forall k :: 0 <= k < |steps| ==> !steps[k].Send? && !steps[k].ListObjectsV2?
    ensures Sends(steps) == [] && Requests(steps) == []
  {
    if steps != [] {
      NeitherSendNorRequest(steps[..|steps| - 1]);
    }
  }

  /** The order of the whole method's log: every listing request and every
      post come before the downloader is completed; the downloader is
      completed, then awaited, and only then is the zipper completed and
      awaited. Its requests are the listing's, and its posts every listed
      object, in order. */
  lemma CompletionOrder(requests: seq<ListObjectsV2Request>, responses: seq<ListObjectsV2Response>)
    requires |requests| == |responses|
    ensures var steps := ListingSteps(requests, responses) + Handshakes;
      |steps| >= 4 &&
      (forall k :: 0 <= k < |steps| - 4 ==> steps[k].ListObjectsV2? || steps[k].Send?) &&
      steps[|steps| - 4] == CompleteDownloader && steps[|steps| - 3] == AwaitDownloader &&
      steps[|steps| - 2] == CompleteZipper && steps[|steps| - 1] == AwaitZipper &&
      Requests(steps) == requests && Sends(steps) == Objects(responses)
  {
    var listing := ListingSteps(requests, responses);
    ListingStepsKinds(requests, responses);
    ListingStepsRequests(requests, responses);
    ListingStepsSends(requests, responses);
    HandshakesPostNothing(listing);
  }
}
