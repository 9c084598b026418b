# WhenAny and ZipDirectory, modelled in Dafny

This project models two pieces of a C# snippet library.

- `TaskExtensions.WhenAny` (`task_extensions.dfy`) is a bounded-window scheduler over tasks.
  - It rejects a batch size below one.
  - It adds the input tasks one by one to a `HashSet` working set.
  - Whenever the set reaches `batchSize`, it awaits `Task.WhenAny` over the set, removes the task that completed and yields it.
  - Once the input is exhausted, it drains the set the same way.
  - The model is a method over a sequence of tasks with a set-valued working set.
  - `Task.WhenAny` is a nondeterministic choice of some element of the working set, and each `yield return` is an append to the yielded sequence.
- `AmazonS3ClientExtensions.ZipDirectory` (`amazon_s3_client_extensions.dfy`) zips every object under an S3 prefix into one archive. The model covers its sequential skeleton:
  - the `options ??=` default;
  - the do/while `ListObjectsV2` loop, which chains continuation tokens and posts every listed object to the downloader in order;
  - the downloader's `GetObject` call per object;
  - the zipper, which runs with parallelism 1 and is therefore a sequential consumer of the posted objects. For each object it creates an entry named `Path.GetFileName(key)`, copies the response stream into it, then disposes of the response stream, the response and the entry stream;
  - the order of the completion handshakes.

  The bucket is a function from a listing request to the page it answers with, and object contents are a function from bucket and key to bytes. The method's actions are recorded as a log of `Step`s, and the zipper's actions as a log of `ArchiveEvent`s. What the zipper holds open after a stretch of that log is a multiset of `Resource`s: responses, response streams and entry streams.

Three behaviours of the code, which the model keeps:
- The listing stops at the first response whose `IsTruncated` is not `true`, so N pages take N calls. A missing next token does not end the listing; only `IsTruncated` does.
- Two keys with the same last segment (`x/a.txt` and `x/sub/a.txt`) give two archive entries with the same name. The code has no duplicate-name check and raises no error for this.
- A repeated task reference is not always yielded once. If it reappears in the input after it was yielded, the `HashSet` accepts it again and it is yielded again.

## Model

| member | source | states |
|---|---|---|
| TaskExtensions.WhenAny | Common/Extensions/TaskExtensions.cs:10-38 | A batch size below one gives `ArgumentOutOfRangeException("batchSize", ...)`, and only then. Otherwise every yield comes from one `Task.WhenAny` call that chose it from the current working set, and no set held more than `batchSize` tasks. While input remains, a choice is made only from a full set, and as soon as the set is full: between one choice and the next, the set stayed below `batchSize`. Each window equals the working set that the earlier adds and removes built. The final working set is empty. The yielded tasks are exactly the distinct input tasks, none more often than it occurs, and each distinct input exactly once when no reference repeats. With `batchSize == 1` the output is the input, in order. |
| TaskExtensions.Fill | Common/Extensions/TaskExtensions.cs:19-29 | After the `foreach`, all inputs have been taken, the loop facts hold, and the working set is below `batchSize`. The loop facts include that each choice came as soon as an add filled the set, and that the set is not full since the last one. |
| TaskExtensions.Take | Common/Extensions/TaskExtensions.cs:20-28 | One iteration adds the task to the set. If the set is now full, exactly one of its tasks is removed and yielded, and the full window is recorded as a choice. Otherwise nothing is yielded. Either way the set ends below `batchSize`. |
| TaskExtensions.Drain | Common/Extensions/TaskExtensions.cs:31-37 | The `while` loop yields each task left in the set, once each, and ends with the set empty, keeping the earlier yields as a prefix. |
| TaskExtensions.Complete | Common/Extensions/TaskExtensions.cs:25-27 | An await of `Task.WhenAny`: the task yielded was in the window, is removed from it and appended to the output, and the set shrinks by one. |
| TaskExtensions.Choose | Common/Extensions/TaskExtensions.cs:33-36 | Removing and yielding any task of the current set, in either loop, keeps all the loop facts. |
| TaskExtensions.Add | Common/Extensions/TaskExtensions.cs:21 | Adding the next input to the set keeps the accounting, and the set can reach but not pass `batchSize`. |
| TaskExtensions.AddGrows | Common/Extensions/TaskExtensions.cs:21-23 | The add grows the working set by the task just enumerated, and the set was below `batchSize` before it, so no choice was due. |
| TaskExtensions.ChooseRestarts | Common/Extensions/TaskExtensions.cs:25-26 | After a choice, the working set is the window without the task taken, and nothing has been added since. |
| TaskExtensions.WorkingSetContents | Common/Extensions/TaskExtensions.cs:17-36 | The `HashSet` holds every task enumerated since the last choice. It does not hold the task that choice took, unless that task was enumerated again. Before the first choice, it holds nothing but the tasks enumerated. |
| TaskExtensions.WorkingSetGrows | Common/Extensions/TaskExtensions.cs:19-23 | Between two choices, the working set only gains tasks. |
| TaskExtensions.NotFullBefore | Common/Extensions/TaskExtensions.cs:21-23 | If the set was below `batchSize` just before an add, it was below it at every earlier point since the last choice. |
| TaskExtensions.NeverFullBetween | Common/Extensions/TaskExtensions.cs:21-27 | Between one choice and the next, the set stayed below `batchSize`, so every choice came at the first add that filled the set. |
| TaskExtensions.AddToWorkingSet | Common/Extensions/TaskExtensions.cs:21 | `HashSet.Add` of a task already held changes nothing. Otherwise it adds that one task. |
| TaskExtensions.MoveToYielded | Common/Extensions/TaskExtensions.cs:26-27 | Removing a held task and yielding it keeps the combined multiset of held and yielded tasks. |
| TaskExtensions.SingleSlot | Common/Extensions/TaskExtensions.cs:21-27 | With a window of one, the task chosen is the task just added, so the output follows input order. |
| TaskExtensions.Drained | Common/Extensions/TaskExtensions.cs:31-37 | Once the set is empty, the output's elements are exactly the input's. |
| TaskExtensions.RepeatedTaskYieldedTwice | Common/Extensions/TaskExtensions.cs:17-37 | The input `[t, t]` with batch size one yields `t` twice. |
| AmazonS3ClientExtensions.ZipDirectory | Libraries/JW.AmazonS3/AmazonS3ClientExtensions.cs:19-70 | A missing `options` is replaced by the defaults, and a given one is kept. The log is the whole listing with its posts, followed by the four handshakes. The objects posted are every object of every page, in order. The archive has one entry per posted object, in order. The zipper's events are those of `ArchiveLog`. |
| AmazonS3ClientExtensions.ListObjects | Libraries/JW.AmazonS3/AmazonS3ClientExtensions.cs:49-64 | The calls made are the chain's first `FinalPage + 1` requests, which is at least one, and their responses are the chain's pages. The log is each request followed by the posts of its page's objects. |
| AmazonS3ClientExtensions.ListPage | Libraries/JW.AmazonS3/AmazonS3ClientExtensions.cs:52-62 | One pass of the `do` body requests the page that follows the previous response, or the first page when there is none, and then posts its objects. |
| AmazonS3ClientExtensions.Post | Libraries/JW.AmazonS3/AmazonS3ClientExtensions.cs:59-62 | The `foreach` posts each object of the page, in page order. |
| AmazonS3ClientExtensions.FinalPage | Libraries/JW.AmazonS3/AmazonS3ClientExtensions.cs:64 | Gives the index of the first page at which the loop condition `MorePages`, `IsTruncated is true`, fails. At every page before it the condition holds. |
| AmazonS3ClientExtensions.FinalPageUnique | Libraries/JW.AmazonS3/AmazonS3ClientExtensions.cs:64 | That index does not depend on which untruncated page bounds the search. |
| AmazonS3ClientExtensions.RequestsUpTo | Libraries/JW.AmazonS3/AmazonS3ClientExtensions.cs:52-56 | Its `j`-th element is the `j`-th request of the chain. |
| AmazonS3ClientExtensions.PagesUpTo | Libraries/JW.AmazonS3/AmazonS3ClientExtensions.cs:52-57 | Its `j`-th element is the store's answer to the `j`-th request. |
| AmazonS3ClientExtensions.PagesChained | Libraries/JW.AmazonS3/AmazonS3ClientExtensions.cs:52-57 | The requests the listing makes, built by `RequestAt`, are chained, in four ways. The first carries no continuation token. Each later request carries the `NextContinuationToken` of the response before it. All of them carry the caller's bucket and prefix unchanged. Each response is the store's answer to its request. |
| AmazonS3ClientExtensions.ChainedFollowsPages | Libraries/JW.AmazonS3/AmazonS3ClientExtensions.cs:52-57 | Conversely, any chained requests and responses are exactly the chain's requests and pages. |
| AmazonS3ClientExtensions.ListingStops | Libraries/JW.AmazonS3/AmazonS3ClientExtensions.cs:50-64 | The listing makes at least one call. The loop condition `MorePages` holds for every response but the last and fails for the last. A response whose `IsTruncated` is null ends the listing like `false`. |
| AmazonS3ClientExtensions.ChainSnoc | Libraries/JW.AmazonS3/AmazonS3ClientExtensions.cs:52-57 | One more call extends the chain's requests and pages by that call. |
| AmazonS3ClientExtensions.ListingSnoc | Libraries/JW.AmazonS3/AmazonS3ClientExtensions.cs:52-62 | One more call extends the log by its request and the posts of its page. |
| AmazonS3ClientExtensions.SendStepsPost | Libraries/JW.AmazonS3/AmazonS3ClientExtensions.cs:59-62 | Posting a page's objects makes no request and posts exactly those objects. |
| AmazonS3ClientExtensions.ListingStepsKinds | Libraries/JW.AmazonS3/AmazonS3ClientExtensions.cs:49-64 | The loop does nothing but list and post. |
| AmazonS3ClientExtensions.ListingStepsRequests | Libraries/JW.AmazonS3/AmazonS3ClientExtensions.cs:50-57 | The requests in the log are the listing's requests, in order, and the log begins with the first request. |
| AmazonS3ClientExtensions.ListingStepsSends | Libraries/JW.AmazonS3/AmazonS3ClientExtensions.cs:59-62 | The objects posted are the concatenation of all pages' objects, in page order and in in-page order, with none skipped or added. |
| AmazonS3ClientExtensions.RequestsAppend | Libraries/JW.AmazonS3/AmazonS3ClientExtensions.cs:52 | The requests of two consecutive stretches of the log are those of the first stretch, then those of the second. |
| AmazonS3ClientExtensions.SendsAppend | Libraries/JW.AmazonS3/AmazonS3ClientExtensions.cs:61 | The posts of two consecutive stretches of the log are those of the first stretch, then those of the second. |
| AmazonS3ClientExtensions.NeitherSendNorRequest | Libraries/JW.AmazonS3/AmazonS3ClientExtensions.cs:66-70 | Steps that are neither requests nor posts contribute none of either. |
| AmazonS3ClientExtensions.HandshakesPostNothing | Libraries/JW.AmazonS3/AmazonS3ClientExtensions.cs:66-70 | The completion handshakes post nothing and request nothing. |
| AmazonS3ClientExtensions.CompletionOrder | Libraries/JW.AmazonS3/AmazonS3ClientExtensions.cs:66-70 | Every request and every post comes before `downloader.Complete()`. Then the downloader's completion is awaited, and only after that is the zipper completed and awaited. The requests and posts are those of the listing. |
| AmazonS3ClientExtensions.LastSeparator | Libraries/JW.AmazonS3/AmazonS3ClientExtensions.cs:35 | The backward scan ends at -1 or at a position before its start. |
| AmazonS3ClientExtensions.LastSeparatorFound | Libraries/JW.AmazonS3/AmazonS3ClientExtensions.cs:35 | The scan stops at a '/', and no '/' follows it, or it finds none. |
| AmazonS3ClientExtensions.FileNameIsLastSegment | Libraries/JW.AmazonS3/AmazonS3ClientExtensions.cs:35 | `FileName`, the model of `Path.GetFileName`, gives a suffix of the key with no '/' in it. Either it is the whole key, or a '/' comes just before it. |
| AmazonS3ClientExtensions.FileNameUnique | Libraries/JW.AmazonS3/AmazonS3ClientExtensions.cs:35 | A folder path ending in '/' followed by a '/'-free name gives that name. |
| AmazonS3ClientExtensions.FolderMarkerName | Libraries/JW.AmazonS3/AmazonS3ClientExtensions.cs:35 | A key ending in '/' gives the empty file name. |
| AmazonS3ClientExtensions.DuplicateNames | Libraries/JW.AmazonS3/AmazonS3ClientExtensions.cs:35 | `x/a.txt` and `x/sub/a.txt` give two entries, both named `a.txt`. |
| AmazonS3ClientExtensions.Archive | Libraries/JW.AmazonS3/AmazonS3ClientExtensions.cs:25-38 | There is one entry per posted object, in order (see "## Left out" for folder-marker keys). Each is named by the file name of the object's key. It holds the object's whole content, which the downloader's `GetObject` call fetches from the object's bucket and key. |
| AmazonS3ClientExtensions.Zip | Libraries/JW.AmazonS3/AmazonS3ClientExtensions.cs:33-45 | The zipper's entries are `Archive` of what was posted, and its events are `ArchiveLog` of the same. |
| AmazonS3ClientExtensions.ZipStep | Libraries/JW.AmazonS3/AmazonS3ClientExtensions.cs:33-45 | One more response adds one entry and its six events. |
| AmazonS3ClientExtensions.ArchiveLogBlocks | Libraries/JW.AmazonS3/AmazonS3ClientExtensions.cs:33-45 | `ArchiveLog`, the zipper's events for the posted objects, has six events per object. Block i is `EntryEvents` of the i-th object's response, in posting order. That block creates and opens the entry under the key's file name and copies the content. Then it disposes of the response stream and the response, and last the entry stream. |
| AmazonS3ClientExtensions.EntryBalanced | Libraries/JW.AmazonS3/AmazonS3ClientExtensions.cs:35-41 | One entry's events never dispose of a response, response stream or entry stream that is not held open at that point. When they end, they have given back the response and its stream, taken at `CreateEntry`, and the entry stream they opened. |
| AmazonS3ClientExtensions.BlockBalanced | Libraries/JW.AmazonS3/AmazonS3ClientExtensions.cs:35-41 | Any six events shaped like one entry's hold nothing at the end and dispose of nothing they do not hold. |
| AmazonS3ClientExtensions.BlockPrefix | Libraries/JW.AmazonS3/AmazonS3ClientExtensions.cs:35-41 | After the first k events of an entry, the zipper holds the response and its stream from `CreateEntry` (:35) until :40-41 dispose of them. It holds the entry stream from `Open` (:37) until the end of the `await using` scope. |
| AmazonS3ClientExtensions.BlockStep | Libraries/JW.AmazonS3/AmazonS3ClientExtensions.cs:35-41 | Each event of an entry disposes of something held and moves the holdings one step along. |
| AmazonS3ClientExtensions.HeldSnoc | Libraries/JW.AmazonS3/AmazonS3ClientExtensions.cs:33-45 | One more event leaves open what was open, plus what it takes, less what it gives back. |
| AmazonS3ClientExtensions.OnlyFirstCreates | Libraries/JW.AmazonS3/AmazonS3ClientExtensions.cs:35 | In one entry's events, only the first creates an entry. |
| AmazonS3ClientExtensions.AppendEntry | Libraries/JW.AmazonS3/AmazonS3ClientExtensions.cs:33-45 | A balanced log that creates entries only when nothing is open stays so after one more entry's events. |
| AmazonS3ClientExtensions.HeldAppend | Libraries/JW.AmazonS3/AmazonS3ClientExtensions.cs:33-45 | `HeldFrom`, the multiset of resources held open, is a fold over the events. What two consecutive stretches of events leave open is what the second leaves from what the first left. |
| AmazonS3ClientExtensions.SerialEntries | Libraries/JW.AmazonS3/AmazonS3ClientExtensions.cs:33-45 | Over the whole zipper log, every dispose removes a resource that is held open at that point. The multiset of open resources is empty at every `CreateEntry`, so no entry begins while a response or stream of an earlier one is open. It is empty at the end. |

## Left out

- The concurrency of both pieces is left out: `Task.WhenAny` timing, the async stream's laziness, the TPL Dataflow blocks' threads, and `LinkTo`. `Task.WhenAny` is a nondeterministic choice, and the download and zip stages are a sequential consumer of the posted objects in posting order. A `TransformBlock` keeps its input order, so this order is the one the zipper sees.
- The downloader's options (AmazonS3ClientExtensions.cs:28-31) set no `BoundedCapacity`, so its queue is unbounded and `SendAsync` (:61) never waits. Responses can queue ahead of the zipper without limit, and every downloaded response can be held at once. The model has no queue and does not capture this memory growth.
- TaskExtensions.WhenAny: the `ArgumentOutOfRangeException` is modelled as a result returned before any input is taken. In C# the iterator throws it on the first `MoveNext`, not at the call.
- TaskExtensions.WhenAny: null references are not modelled. A null element of `tasks` makes `Task.WhenAny` (TaskExtensions.cs:25, :33) throw `ArgumentException` once the null is in the working set, but the model yields it like any other task. A null `tasks` throws at the `foreach` (:19), and the model's input is always a sequence.
- TaskExtensions.WhenAny: the contract does not state that each distinct input is yielded exactly once, because the code yields a reference again when it reappears after it was yielded. It states that the yielded elements are exactly the input's elements, that no task is yielded more often than it occurs, and that each is yielded exactly once when no reference repeats.
- TaskExtensions.WhenAny: the input is a finite sequence, and the model runs the enumeration to its end. An unbounded `IEnumerable<Task>`, which the async stream would go on enumerating forever, is not modelled.
- ListObjects and ZipDirectory: these require a ghost page index `last` at which the chain is not truncated, to show that the loop ends. With a store that reports truncation forever, the code loops forever, and that case is not modelled.
- AmazonS3ClientExtensions.ZipDirectory: the resolved options are returned but not used. `DownloadsMaxDegreeOfParallelism` is assigned to the downloader's `ExecutionDataflowBlockOptions.MaxDegreeOfParallelism` (AmazonS3ClientExtensions.cs:30). A valid value sets only the downloader's parallelism, which the sequential model does not have. The parameter `defaults` stands for `new ZipDirectoryOptions()`, whose definition is not part of this model.
- AmazonS3ClientExtensions.ZipDirectory: the model ignores the value of `DownloadsMaxDegreeOfParallelism`. A value of 0 or below -1 makes the setter at :30 throw `ArgumentOutOfRangeException` after :22 has already created or truncated the output file, and before any listing call. The model lists and zips everything for any value.
- The AWS SDK, the file system and compression are left out. Listing is the `store` function, `GetObjectAsync` is the `contents` function, and the archive is the sequence of entries with their uncompressed bytes. Opening and closing the output file, `ZipArchive` itself and `CompressionLevel.Fastest` are not modelled.
- Cancellation tokens, exceptions from the store, the network or the archive, and their propagation are left out.
- `Path.GetFileName` is modelled with '/' as the only separator, as on Unix. Windows also splits at '\\', and that is not modelled.
- AmazonS3ClientExtensions.Archive: for a folder-marker key, one ending in '/', the model writes an entry with the empty name. The program's `ZipArchive.CreateEntry("")` (AmazonS3ClientExtensions.cs:35) throws `ArgumentException` instead, which faults the zipper. `Zip`, `ZipDirectory` and `ArchiveLog` share this gap. What follows is a reading of the code, not modelled. `LinkTo` (:47) does not propagate completion, and a faulted `ActionBlock` declines every later message. Downloads still waiting in the downloader's output would then stay there, and `await downloader.Completion` (:67) would plausibly never return. If nothing is waiting, `await zipper.Completion` (:70) rethrows the `ArgumentException`. A folder marker under the prefix, such as `x/` itself, is listed first, so the hang is the likely outcome.
- The near-duplicate top-level script `Tutorials/ZippingS3Folders/Program.cs` repeats the same listing loop with fixed settings and is not part of this model.
