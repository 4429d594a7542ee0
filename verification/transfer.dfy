/**
 * The per-file decision of `downloadFile` (bin/serve-clone.js:65-97) and the
 * batch of them that `asyncPool` runs (line 123).
 *
 * The disk is the set of local paths that exist; the network is a function
 * from a URL to what a streaming GET of it does. A request that throws is
 * caught and reported as a failure, and the partly written file is removed.
 * The writer's `error` listener is attached only once the GET has
 * answered. A write error after that point rejects the promise that
 * `downloadFile` returns without awaiting it, which is outside the `try`,
 * so it is not caught: it rejects the whole batch.
 */
module Transfer {
  import opened Results
  import opened Text
  import opened Manifest

  /** The three outcomes a download reports. */
  datatype Status = Downloaded | AlreadyPresent | Failed

  /** What the network and the write stream do for one requested download. */
  datatype Fetch =
    | Streamed       // the GET succeeds and the writer emits `finish`
    | RequestFailed  // the GET throws (unreachable, non-2xx status)
    | StreamFailed   // the GET answers, then the writer emits `error`

  /** A rejection that escapes `downloadFile` and aborts the batch. */
  datatype TransferError = WriteStreamError(filePath: string)

  /** The leading words of each result message. */
  function Prefix(status: Status): string
  {
    match status
    case Downloaded => "Finished downloading"
    case AlreadyPresent => "Already downloaded"
    case Failed => "Failed to download"
  }

  /** `${prefix} - ${url} - ${filePath}` */
  function Message(status: Status, url: string, filePath: string): (r: string)
    ensures StartsWith(r, Prefix(status))
    ensures EndsWith(r, " - " + filePath)
  {
    var r := Prefix(status) + " - " + url + " - " + filePath;
    assert r[..|Prefix(status)|] == Prefix(status);
    assert r[|r| - |" - " + filePath|..] == " - " + filePath;
    r
  }

  /**
   * The decision: an existing file is reported without any request; otherwise
   * the request's fate decides, and a stream error escapes as a rejection.
   */
  function Decide(present: bool, fetch: Fetch, filePath: string): (r: Result<Status, TransferError>)
    ensures r == Success(AlreadyPresent) <==> present
    ensures r == Success(Downloaded) <==> !present && fetch == Streamed
    ensures r == Success(Failed) <==> !present && fetch == RequestFailed
    ensures r.Failure? <==> !present && fetch == StreamFailed
  {
    if present then Success(AlreadyPresent)
    else
      match fetch
      case Streamed => Success(Downloaded)
      case RequestFailed => Success(Failed)
      case StreamFailed => Failure(WriteStreamError(filePath))
  }

  /** `downloadFile(fileData)` against the disk as it is and the network's answer for its URL. */
  function DownloadFile(d: FileData, disk: set<string>, fetch: Fetch): (r: Result<string, TransferError>)
    ensures d.filePath in disk ==> r == Success("Already downloaded - " + d.url + " - " + d.filePath)
    ensures d.filePath !in disk && fetch == Streamed ==> r == Success("Finished downloading - " + d.url + " - " + d.filePath)
    ensures d.filePath !in disk && fetch == RequestFailed ==> r == Success("Failed to download - " + d.url + " - " + d.filePath)
    ensures d.filePath !in disk && fetch == StreamFailed ==> r == Failure(WriteStreamError(d.filePath))
  {
    match Decide(d.filePath in disk, fetch, d.filePath)
    case Success(status) =>
      assert Prefix(Downloaded) + " - " == "Finished downloading - ";
      assert Prefix(AlreadyPresent) + " - " == "Already downloaded - ";
      assert Prefix(Failed) + " - " == "Failed to download - ";
      Success(Message(status, d.url, d.filePath))
    case Failure(e) => Failure(e)
  }

  /**
   * A file already on disk is reported the same way whatever the network
   * would have done: a corollary of the first ensures of `DownloadFile`.
   */
  lemma PresentNeedsNoNetwork(d: FileData, disk: set<string>, f1: Fetch, f2: Fetch)
    requires d.filePath in disk
    ensures DownloadFile(d, disk, f1) == DownloadFile(d, disk, f2) == Success(Message(AlreadyPresent, d.url, d.filePath))
  {
  }

  /**
   * The local file after one task: kept when present, written when
   * downloaded, unlinked after a failed request. No other path changes.
   */
  function DiskAfter(status: Status, filePath: string, disk: set<string>): (r: set<string>)
    ensures forall p :: p != filePath ==> (p in r <==> p in disk)
    ensures status == Downloaded ==> filePath in r
    ensures status == Failed ==> filePath !in r
    ensures status == AlreadyPresent ==> r == disk
  {
    match status
    case AlreadyPresent => disk
    case Downloaded => disk + {filePath}
    case Failed => disk - {filePath}
  }

  /**
   * `asyncPool(CONCURRENCY, fileDatas, downloadFile)`: one result per record,
   * in manifest order, each decided against the disk as it was when the
   * batch started; any rejection rejects the batch.
   */
  function DownloadAll(datas: seq<FileData>, disk: set<string>, net: string -> Fetch): (r: Result<seq<string>, TransferError>)
    ensures r.Success? <==> forall k :: 0 <= k < |datas| ==> DownloadFile(datas[k], disk, net(datas[k].url)).Success?
    ensures r.Success? ==> |r.value| == |datas|
    ensures r.Success? ==> forall k :: 0 <= k < |datas| ==> r.value[k] == DownloadFile(datas[k], disk, net(datas[k].url)).value
  {
    if |datas| == 0 then Success([])
    else
      match DownloadFile(datas[0], disk, net(datas[0].url))
      case Failure(e) => Failure(e)
      case Success(first) =>
        match DownloadAll(datas[1..], disk, net)
        case Failure(e) => Failure(e)
        case Success(rest) => Success([first] + rest)
  }

  /** The disk after every task of a completed batch has run. */
  function DiskAfterAll(datas: seq<FileData>, disk: set<string>, net: string -> Fetch): set<string>
  {
    if |datas| == 0 then disk
    else
      var d := datas[0];
      var later := DiskAfterAll(datas[1..], disk, net);
      match Decide(d.filePath in disk, net(d.url), d.filePath)
      case Success(status) => DiskAfter(status, d.filePath, later)
      case Failure(_) => later
  }

  /** A batch in which no request failed leaves every manifest path on disk. */
  lemma {:induction false} NoFailureFillsDisk(datas: seq<FileData>, disk: set<string>, net: string -> Fetch)
    requires forall k :: 0 <= k < |datas| ==>
      Decide(datas[k].filePath in disk, net(datas[k].url), datas[k].filePath).Success? &&
      Decide(datas[k].filePath in disk, net(datas[k].url), datas[k].filePath).value != Failed
    ensures disk <= DiskAfterAll(datas, disk, net)
    ensures forall k :: 0 <= k < |datas| ==> datas[k].filePath in DiskAfterAll(datas, disk, net)
  {
    if |datas| > 0 {
      NoFailureFillsDisk(datas[1..], disk, net);
      var later := DiskAfterAll(datas[1..], disk, net);
      var status := Decide(datas[0].filePath in disk, net(datas[0].url), datas[0].filePath).value;
      assert DiskAfterAll(datas, disk, net) == DiskAfter(status, datas[0].filePath, later);
      forall k | 0 <= k < |datas|
        ensures datas[k].filePath in DiskAfterAll(datas, disk, net)
      {
        if k > 0 {
          assert datas[k] == datas[1..][k - 1];
        }
      }
    }
  }
}
