/**
 * The two phases of `cloneInit` (bin/serve-clone.js:198-200) put together:
 * scrape the remote tree, build the manifest, download every record, tally
 * the results. Properties that span the phases are proved here.
 */
module Clone {
  import opened Results
  import opened Text
  import opened Scrape
  import opened Manifest
  import opened Transfer
  import opened Tally

  /** Why a run stops before it can report counts. */
  datatype CloneError = ScrapeFailed(scrapeError: ScrapeError) | DownloadAborted(transferError: TransferError)

  /** One run against a remote tree, a local disk and a network. */
  function Run(serveURL: string, root: Listing, baseDirectory: string, sep: char, disk: set<string>, net: string -> Fetch): Result<Counts, CloneError>
  {
    match ScrapeAll(serveURL, root)
    case Failure(e) => Failure(ScrapeFailed(e))
    case Success(found) =>
      match DownloadAll(ManifestOf(serveURL, found.files, baseDirectory, sep), disk, net)
      case Failure(e) => Failure(DownloadAborted(e))
      case Success(results) => Success(TallyOf(results))
  }

  /** The disk after a run; a run that stops changes nothing that the model tracks. */
  function DiskAfterClone(serveURL: string, root: Listing, baseDirectory: string, sep: char, disk: set<string>, net: string -> Fetch): set<string>
  {
    match ScrapeAll(serveURL, root)
    case Failure(_) => disk
    case Success(found) => DiskAfterAll(ManifestOf(serveURL, found.files, baseDirectory, sep), disk, net)
  }

  /** The scrape from the root finds exactly what the reference walk finds. */
  lemma ScrapeAllIsWalk(serveURL: string, root: Listing)
    ensures ScrapeAll(serveURL, root) == Walk(serveURL, [], root)
  {
    ScrapePageIsWalk(serveURL, [], root, Found([], []));
    var w := Walk(serveURL, [], root);
    if w.Success? {
      assert Concat(Found([], []), w.value) == w.value;
    }
  }

  /** A run stops in the scrape phase if and only if some listing in the tree cannot be fetched. */
  lemma CloneScrapeFailsIffUnlisted(serveURL: string, root: Listing, baseDirectory: string, sep: char, disk: set<string>, net: string -> Fetch)
    ensures (Run(serveURL, root, baseDirectory, sep, disk, net).Failure? &&
             Run(serveURL, root, baseDirectory, sep, disk, net).error.ScrapeFailed?) <==> !AllListed(root)
  {
    ScrapeAllIsWalk(serveURL, root);
    WalkSucceedsIffAllListed(serveURL, [], root);
  }

  /** The statuses the batch decides, one per record. */
  function Statuses(datas: seq<FileData>, disk: set<string>, net: string -> Fetch): (r: seq<Status>)
    requires forall k :: 0 <= k < |datas| ==> Decide(datas[k].filePath in disk, net(datas[k].url), datas[k].filePath).Success?
    ensures |r| == |datas|
  {
    seq(|datas|, k requires 0 <= k < |datas| => Decide(datas[k].filePath in disk, net(datas[k].url), datas[k].filePath).value)
  }

  /** A completed batch's tally counts each record once, under the status decided for it. */
  lemma BatchTally(datas: seq<FileData>, disk: set<string>, net: string -> Fetch)
    requires DownloadAll(datas, disk, net).Success?
    ensures forall k :: 0 <= k < |datas| ==> Decide(datas[k].filePath in disk, net(datas[k].url), datas[k].filePath).Success?
    ensures var c := TallyOf(DownloadAll(datas, disk, net).value);
      && c.downloaded == Occurrences(Statuses(datas, disk, net), Downloaded)
      && c.already == Occurrences(Statuses(datas, disk, net), AlreadyPresent)
      && c.errors == Occurrences(Statuses(datas, disk, net), Failed)
      && c.downloaded + c.already + c.errors == |datas|
  {
    var results := DownloadAll(datas, disk, net).value;
    var statuses := Statuses(datas, disk, net);
    var urls := seq(|datas|, k requires 0 <= k < |datas| => datas[k].url);
    var paths := seq(|datas|, k requires 0 <= k < |datas| => datas[k].filePath);
    TallyOfMessages(results, statuses, urls, paths);
  }

  /** Every file the scrape finds is accounted for: downloaded, already present or failed. */
  lemma CloneAccountsForEveryFile(serveURL: string, root: Listing, baseDirectory: string, sep: char, disk: set<string>, net: string -> Fetch)
    ensures Run(serveURL, root, baseDirectory, sep, disk, net).Success? ==>
      var c := Run(serveURL, root, baseDirectory, sep, disk, net).value;
      c.downloaded + c.already + c.errors == FileCount(root)
  {
    ScrapeAllIsWalk(serveURL, root);
    WalkCounts(serveURL, [], root);
    var s := ScrapeAll(serveURL, root);
    if s.Success? {
      var datas := ManifestOf(serveURL, s.value.files, baseDirectory, sep);
      if DownloadAll(datas, disk, net).Success? {
        BatchTally(datas, disk, net);
      }
    }
  }

  /** A status occurring nowhere counts zero; a status everywhere counts every element. */
  lemma {:induction false} OccurrencesBounds(statuses: seq<Status>, status: Status)
    ensures Occurrences(statuses, status) == 0 <==> forall k :: 0 <= k < |statuses| ==> statuses[k] != status
    ensures Occurrences(statuses, status) == |statuses| <==> forall k :: 0 <= k < |statuses| ==> statuses[k] == status
    ensures Occurrences(statuses, status) <= |statuses|
  {
    if |statuses| > 0 {
      var n := |statuses| - 1;
      OccurrencesBounds(statuses[..n], status);
      assert forall k :: 0 <= k < n ==> statuses[..n][k] == statuses[k];
    }
  }

  /** A batch whose every local path already exists reports every record as already downloaded. */
  lemma BatchAllPresent(datas: seq<FileData>, disk: set<string>, net: string -> Fetch)
    requires forall k :: 0 <= k < |datas| ==> datas[k].filePath in disk
    ensures DownloadAll(datas, disk, net).Success?
    ensures var c := TallyOf(DownloadAll(datas, disk, net).value);
      c.downloaded == 0 && c.errors == 0 && c.already == |datas|
  {
    BatchTally(datas, disk, net);
    var statuses := Statuses(datas, disk, net);
    assert forall k :: 0 <= k < |datas| ==> statuses[k] == AlreadyPresent;
    OccurrencesBounds(statuses, AlreadyPresent);
    OccurrencesBounds(statuses, Downloaded);
    OccurrencesBounds(statuses, Failed);
  }

  /** A batch without failures leaves every record's local path on disk. */
  lemma BatchWithoutErrorsFillsDisk(datas: seq<FileData>, disk: set<string>, net: string -> Fetch)
    requires DownloadAll(datas, disk, net).Success?
    requires TallyOf(DownloadAll(datas, disk, net).value).errors == 0
    ensures forall k :: 0 <= k < |datas| ==> datas[k].filePath in DiskAfterAll(datas, disk, net)
  {
    BatchTally(datas, disk, net);
    var statuses := Statuses(datas, disk, net);
    OccurrencesBounds(statuses, Failed);
    forall k | 0 <= k < |datas|
      ensures Decide(datas[k].filePath in disk, net(datas[k].url), datas[k].filePath).Success?
      ensures Decide(datas[k].filePath in disk, net(datas[k].url), datas[k].filePath).value != Failed
    {
      assert statuses[k] != Failed;
    }
    NoFailureFillsDisk(datas, disk, net);
  }

  /**
   * Re-running after a run without failures downloads nothing: every file
   * is reported as already downloaded, whatever the network does.
   */
  lemma CloneIdempotent(serveURL: string, root: Listing, baseDirectory: string, sep: char, disk: set<string>, net: string -> Fetch, net': string -> Fetch)
    requires Run(serveURL, root, baseDirectory, sep, disk, net).Success?
    requires Run(serveURL, root, baseDirectory, sep, disk, net).value.errors == 0
    ensures var again := Run(serveURL, root, baseDirectory, sep, DiskAfterClone(serveURL, root, baseDirectory, sep, disk, net), net');
      && again.Success?
      && again.value.downloaded == 0
      && again.value.errors == 0
      && again.value.already == FileCount(root)
  {
    ScrapeAllIsWalk(serveURL, root);
    WalkCounts(serveURL, [], root);
    var found := ScrapeAll(serveURL, root).value;
    var datas := ManifestOf(serveURL, found.files, baseDirectory, sep);
    BatchWithoutErrorsFillsDisk(datas, disk, net);
    BatchAllPresent(datas, DiskAfterAll(datas, disk, net), net');
  }

  /**
   * With a root URL without a trailing `/`, every record of the manifest
   * fetches its file from the listing URL of the folder the file was found in.
   */
  lemma ManifestUrlsFollowListings(serveURL: string, files: seq<FileEntry>, baseDirectory: string, sep: char)
    requires !EndsWith(serveURL, "/")
    ensures forall k :: 0 <= k < |files| ==>
      ManifestOf(serveURL, files, baseDirectory, sep)[k].url == ScrapeUrl(serveURL, files[k].path) + files[k].name
  {
    forall k | 0 <= k < |files|
      ensures ManifestOf(serveURL, files, baseDirectory, sep)[k].url == ScrapeUrl(serveURL, files[k].path) + files[k].name
    {
      FileUrlIsListingUrl(serveURL, files[k]);
    }
  }
}

/** A worked run: a root with a file `root.txt` and a folder `a/` holding `x.txt`. */
module CloneExample {
  import opened Results
  import opened Text
  import opened Manifest
  import opened Scrape
  import opened Transfer
  import opened Tally
  import opened Clone

  const Root := Listed([File("root.txt"), Folder("a/", Listed([File("x.txt")]))])

  /** A network on which every download completes. */
  function AlwaysStreams(url: string): Fetch
  {
    Streamed
  }

  const Files := [FileEntry("root.txt", []), FileEntry("x.txt", ["a"])]

  lemma ExampleScrape()
    ensures ScrapeAll("http://h", Root) == Success(Found(["a"], Files))
  {
    var u := "http://h";
    var es := Root.entries;
    var sub := Listed([File("x.txt")]);
    var acc1 := Found([], [FileEntry("root.txt", [])]);
    assert es[1..] == [Folder("a/", sub)];
    assert DropLast("a/") == "a";
    assert [] + ["a"] == ["a"];
    assert Join(["a"], Slash) == "a";
    var recorded := Found(["a"], acc1.files);
    assert [FileEntry("root.txt", [])] + [FileEntry("x.txt", ["a"])] == Files;
    assert ScrapeEntries(u, ["a"], [File("x.txt")], recorded) == Success(Found(["a"], Files)) by {
      assert [File("x.txt")][1..] == [];
    }
    assert ScrapePage(u, ["a"], sub, recorded) == Success(Found(["a"], Files));
    assert [Folder("a/", sub)][1..] == [];
    assert ScrapeEntries(u, [], [Folder("a/", sub)], acc1) == Success(Found(["a"], Files));
    assert es[0] == File("root.txt");
    assert Found([], [] + [FileEntry("root.txt", [])]) == acc1;
    assert ScrapeEntries(u, [], es, Found([], [])) == ScrapeEntries(u, [], es[1..], acc1);
  }

  lemma ExampleLocalPaths()
    ensures ManifestOf("http://h", Files, "base", '/')[0].filePath == "base/root.txt"
    ensures ManifestOf("http://h", Files, "base", '/')[1].filePath == "base/a/x.txt"
  {
    assert ["base"] + [] + ["root.txt"] == ["base", "root.txt"];
    assert ["base", "root.txt"][1..] == ["root.txt"];
    assert ["base"] + ["a"] + ["x.txt"] == ["base", "a", "x.txt"];
    assert ["base", "a", "x.txt"][1..] == ["a", "x.txt"];
    assert ["a", "x.txt"][1..] == ["x.txt"];
  }

  /** Two records, decided as `first` and `second`, tally to those two statuses. */
  lemma ExampleTally(disk: set<string>, first: Status, second: Status)
    requires Decide(ManifestOf("http://h", Files, "base", '/')[0].filePath in disk, Streamed, ManifestOf("http://h", Files, "base", '/')[0].filePath) == Success(first)
    requires Decide(ManifestOf("http://h", Files, "base", '/')[1].filePath in disk, Streamed, ManifestOf("http://h", Files, "base", '/')[1].filePath) == Success(second)
    ensures Run("http://h", Root, "base", '/', disk, AlwaysStreams).Success?
    ensures var c := Run("http://h", Root, "base", '/', disk, AlwaysStreams).value;
      && c.downloaded == (if first == Downloaded then 1 else 0) + (if second == Downloaded then 1 else 0)
      && c.already == (if first == AlreadyPresent then 1 else 0) + (if second == AlreadyPresent then 1 else 0)
      && c.errors == (if first == Failed then 1 else 0) + (if second == Failed then 1 else 0)
      && |c.errorMsg| == c.errors
  {
    ExampleScrape();
    var net: string -> Fetch := AlwaysStreams;
    var datas := ManifestOf("http://h", Files, "base", '/');
    assert DownloadAll(datas, disk, net).Success?;
    BatchTally(datas, disk, net);
    var statuses := Statuses(datas, disk, net);
    assert statuses == [first, second];
    assert statuses[..1] == [first];
    assert [first][..0] == [];
    TallyCountsKinds(DownloadAll(datas, disk, net).value);
  }

  lemma ExampleFreshRun()
    ensures Run("http://h", Root, "base", '/', {}, AlwaysStreams) == Success(Counts(2, 0, 0, []))
  {
    ExampleTally({}, Downloaded, Downloaded);
  }

  lemma ExampleOneAlreadyThere()
    ensures Run("http://h", Root, "base", '/', {"base/root.txt"}, AlwaysStreams) == Success(Counts(1, 1, 0, []))
  {
    ExampleLocalPaths();
    assert "base/a/x.txt" != "base/root.txt" by {
      assert "base/a/x.txt"[5] != "base/root.txt"[5];
    }
    var paths := ManifestOf("http://h", Files, "base", '/');
    assert paths[0].filePath in {"base/root.txt"};
    assert paths[1].filePath !in {"base/root.txt"};
    ExampleTally({"base/root.txt"}, AlreadyPresent, Downloaded);
  }
}
