/**
 * The tree scrape of `scrapeServePage` (bin/serve-clone.js:20-44).
 *
 * The remote server is a finite tree: each folder has a listing, which is
 * either the ordered entries its JSON `files` array reports or a fetch that
 * fails. `ScrapePage` walks it as the script does, threading the shared
 * `folders` and `files` arrays through as an accumulator. `Walk` is an
 * independent reference definition that builds each subtree's result on its
 * own and concatenates upwards; `ScrapePageIsWalk` relates the two, and the
 * properties of the scrape are proved about `Walk`.
 */
module Scrape {
  import opened Results
  import opened Text

  /** One element of a listing's `files` array, by its `type` field. */
  datatype Item =
    | File(base: string)
    | Folder(base: string, listing: Listing)
    | Other(kind: string)

  /** What a GET of a folder's listing URL gives: its entries, or an error. */
  datatype Listing = Listed(entries: seq<Item>) | Unavailable

  /** A discovered file: its name and the segments of the folder it was listed in. */
  datatype FileEntry = FileEntry(name: string, path: seq<string>)

  /** The two arrays the scrape fills: folder paths joined by `/`, and file entries. */
  datatype Found = Found(folders: seq<string>, files: seq<FileEntry>)

  /** The listing fetch that failed, by the URL it was made to. */
  datatype ScrapeError = ListingFetchError(url: string)

  const Slash := '/'

  /** The listing URL of a folder: the root URL with a trailing `/`, then the segments and a `/`. */
  function ScrapeUrl(serveURL: string, relativePath: seq<string>): (r: string)
    ensures EndsWith(r, "/")
    ensures StartsWith(r, serveURL)
  {
    var root := if EndsWith(serveURL, "/") then serveURL else serveURL + "/";
    if |relativePath| > 0 then root + Join(relativePath, Slash) + "/" else root
  }

  /** The root listing URL ends in exactly one added `/` at most. */
  lemma ScrapeUrlRoot(serveURL: string)
    ensures EndsWith(serveURL, "/") ==> ScrapeUrl(serveURL, []) == serveURL
    ensures !EndsWith(serveURL, "/") ==> ScrapeUrl(serveURL, []) == serveURL + "/"
  {
  }

  /** A subfolder's listing URL is its parent's listing URL followed by the segment and `/`. */
  lemma ScrapeUrlChild(serveURL: string, relativePath: seq<string>, segment: string)
    ensures ScrapeUrl(serveURL, relativePath + [segment]) == ScrapeUrl(serveURL, relativePath) + segment + "/"
  {
    if |relativePath| > 0 {
      JoinSnoc(relativePath, segment, Slash);
    } else {
      assert relativePath + [segment] == [segment];
    }
  }

  // ----- the walk as the script performs it -----

  /**
   * `scrapeServePage(serveURL, relativePath, folders, files)`: fetch the
   * listing, then visit its entries in order. A fetch error aborts the
   * whole scrape.
   */
  function ScrapePage(serveURL: string, relativePath: seq<string>, listing: Listing, acc: Found): Result<Found, ScrapeError>
    decreases listing, 1
  {
    match listing
    case Unavailable => Failure(ListingFetchError(ScrapeUrl(serveURL, relativePath)))
    case Listed(entries) => ScrapeEntries(serveURL, relativePath, entries, acc)
  }

  /** The body of the `for` loop over a listing's entries, from the current one on. */
  function ScrapeEntries(serveURL: string, relativePath: seq<string>, entries: seq<Item>, acc: Found): Result<Found, ScrapeError>
    decreases entries, 0
  {
    if |entries| == 0 then Success(acc)
    else
      match entries[0]
      case File(base) =>
        ScrapeEntries(serveURL, relativePath, entries[1..], Found(acc.folders, acc.files + [FileEntry(base, relativePath)]))
      case Folder(base, sub) =>
        var childPath := relativePath + [DropLast(base)];
        var recorded := Found(acc.folders + [Join(childPath, Slash)], acc.files);
        (match ScrapePage(serveURL, childPath, sub, recorded)
         case Failure(e) => Failure(e)
         case Success(after) => ScrapeEntries(serveURL, relativePath, entries[1..], after))
      case Other(_) =>
        ScrapeEntries(serveURL, relativePath, entries[1..], acc)
  }

  /** `getAllDirectoriesAndFilesFromServe`: scrape from the root with empty arrays. */
  function ScrapeAll(serveURL: string, root: Listing): Result<Found, ScrapeError>
  {
    ScrapePage(serveURL, [], root, Found([], []))
  }

  // ----- the reference walk -----

  function Concat(a: Found, b: Found): Found
  {
    Found(a.folders + b.folders, a.files + b.files)
  }

  const Empty := Found([], [])

  /** What a folder's subtree contributes on its own, in pre-order. */
  function Walk(serveURL: string, relativePath: seq<string>, listing: Listing): Result<Found, ScrapeError>
    decreases listing, 1
  {
    match listing
    case Unavailable => Failure(ListingFetchError(ScrapeUrl(serveURL, relativePath)))
    case Listed(entries) => WalkEntries(serveURL, relativePath, entries)
  }

  function WalkEntries(serveURL: string, relativePath: seq<string>, entries: seq<Item>): Result<Found, ScrapeError>
    decreases entries, 0
  {
    if |entries| == 0 then Success(Empty)
    else
      match WalkItem(serveURL, relativePath, entries[0])
      case Failure(e) => Failure(e)
      case Success(head) =>
        match WalkEntries(serveURL, relativePath, entries[1..])
        case Failure(e) => Failure(e)
        case Success(tail) => Success(Concat(head, tail))
  }

  /** One entry: a file is itself, a folder is its path followed by its subtree, anything else is nothing. */
  function WalkItem(serveURL: string, relativePath: seq<string>, item: Item): Result<Found, ScrapeError>
    decreases item, 2
  {
    match item
    case File(base) => Success(Found([], [FileEntry(base, relativePath)]))
    case Folder(base, sub) =>
      var childPath := relativePath + [DropLast(base)];
      (match Walk(serveURL, childPath, sub)
       case Failure(e) => Failure(e)
       case Success(inner) => Success(Found([Join(childPath, Slash)] + inner.folders, inner.files)))
    case Other(_) => Success(Empty)
  }

  function Extend(acc: Found, r: Result<Found, ScrapeError>): Result<Found, ScrapeError>
  {
    match r
    case Failure(e) => Failure(e)
    case Success(f) => Success(Concat(acc, f))
  }

  /** The script's accumulator walk appends exactly what the reference walk finds. */
  lemma {:induction false} ScrapePageIsWalk(serveURL: string, relativePath: seq<string>, listing: Listing, acc: Found)
    ensures ScrapePage(serveURL, relativePath, listing, acc) == Extend(acc, Walk(serveURL, relativePath, listing))
    decreases listing, 1
  {
    match listing
    case Unavailable =>
    case Listed(entries) => ScrapeEntriesIsWalk(serveURL, relativePath, entries, acc);
  }

  lemma {:induction false} ScrapeEntriesIsWalk(serveURL: string, relativePath: seq<string>, entries: seq<Item>, acc: Found)
    ensures ScrapeEntries(serveURL, relativePath, entries, acc) == Extend(acc, WalkEntries(serveURL, relativePath, entries))
    decreases entries, 0
  {
    if |entries| == 0 {
      assert Concat(acc, Empty) == acc;
    } else {
      var rest := entries[1..];
      var tail := WalkEntries(serveURL, relativePath, rest);
      match entries[0]
      case File(base) =>
        var acc' := Found(acc.folders, acc.files + [FileEntry(base, relativePath)]);
        ScrapeEntriesIsWalk(serveURL, relativePath, rest, acc');
        if tail.Success? {
          assert Concat(acc', tail.value) == Concat(acc, Concat(Found([], [FileEntry(base, relativePath)]), tail.value));
        }
      case Folder(base, sub) =>
        var childPath := relativePath + [DropLast(base)];
        var recorded := Found(acc.folders + [Join(childPath, Slash)], acc.files);
        ScrapePageIsWalk(serveURL, childPath, sub, recorded);
        var inner := Walk(serveURL, childPath, sub);
        if inner.Success? {
          var after := Concat(recorded, inner.value);
          var head := Found([Join(childPath, Slash)] + inner.value.folders, inner.value.files);
          assert after == Concat(acc, head);
          ScrapeEntriesIsWalk(serveURL, relativePath, rest, after);
          if tail.Success? {
            assert Concat(after, tail.value) == Concat(acc, Concat(head, tail.value));
          }
        }
      case Other(_) =>
        ScrapeEntriesIsWalk(serveURL, relativePath, rest, acc);
        if tail.Success? {
          assert Concat(Empty, tail.value) == tail.value;
        }
    }
  }

  // ----- properties of the walk -----

  /** Every listing reachable from here was fetched successfully. */
  predicate AllListed(listing: Listing)
  {
    match listing
    case Unavailable => false
    case Listed(entries) => AllEntriesListed(entries)
  }

  predicate AllEntriesListed(entries: seq<Item>)
  {
    |entries| == 0 ||
    ((entries[0].Folder? ==> AllListed(entries[0].listing)) && AllEntriesListed(entries[1..]))
  }

  /** The scrape succeeds if and only if no listing fetch in the tree fails. */
  lemma {:induction false} WalkSucceedsIffAllListed(serveURL: string, relativePath: seq<string>, listing: Listing)
    ensures Walk(serveURL, relativePath, listing).Success? <==> AllListed(listing)
    decreases listing, 1
  {
    match listing
    case Unavailable =>
    case Listed(entries) => WalkEntriesSucceedsIffAllListed(serveURL, relativePath, entries);
  }

  lemma {:induction false} WalkEntriesSucceedsIffAllListed(serveURL: string, relativePath: seq<string>, entries: seq<Item>)
    ensures WalkEntries(serveURL, relativePath, entries).Success? <==> AllEntriesListed(entries)
    decreases entries, 0
  {
    if |entries| > 0 {
      WalkEntriesSucceedsIffAllListed(serveURL, relativePath, entries[1..]);
      match entries[0]
      case Folder(base, sub) => WalkSucceedsIffAllListed(serveURL, relativePath + [DropLast(base)], sub);
      case File(_) =>
      case Other(_) =>
    }
  }

  /** The number of `file` entries in the tree. */
  function FileCount(listing: Listing): nat
  {
    match listing
    case Unavailable => 0
    case Listed(entries) => EntriesFileCount(entries)
  }

  function EntriesFileCount(entries: seq<Item>): nat
  {
    if |entries| == 0 then 0
    else
      (match entries[0]
       case File(_) => 1
       case Folder(_, sub) => FileCount(sub)
       case Other(_) => 0)
      + EntriesFileCount(entries[1..])
  }

  /** The number of `folder` entries in the tree. */
  function FolderCount(listing: Listing): nat
  {
    match listing
    case Unavailable => 0
    case Listed(entries) => EntriesFolderCount(entries)
  }

  function EntriesFolderCount(entries: seq<Item>): nat
  {
    if |entries| == 0 then 0
    else
      (match entries[0]
       case Folder(_, sub) => 1 + FolderCount(sub)
       case _ => 0)
      + EntriesFolderCount(entries[1..])
  }

  /** A successful scrape records every file entry and every folder entry of the tree exactly once. */
  lemma {:induction false} WalkCounts(serveURL: string, relativePath: seq<string>, listing: Listing)
    ensures Walk(serveURL, relativePath, listing).Success? ==>
      |Walk(serveURL, relativePath, listing).value.files| == FileCount(listing) &&
      |Walk(serveURL, relativePath, listing).value.folders| == FolderCount(listing)
    decreases listing, 1
  {
    match listing
    case Unavailable =>
    case Listed(entries) => WalkEntriesCounts(serveURL, relativePath, entries);
  }

  lemma {:induction false} WalkEntriesCounts(serveURL: string, relativePath: seq<string>, entries: seq<Item>)
    ensures WalkEntries(serveURL, relativePath, entries).Success? ==>
      |WalkEntries(serveURL, relativePath, entries).value.files| == EntriesFileCount(entries) &&
      |WalkEntries(serveURL, relativePath, entries).value.folders| == EntriesFolderCount(entries)
    decreases entries, 0
  {
    if |entries| > 0 {
      WalkEntriesCounts(serveURL, relativePath, entries[1..]);
      match entries[0]
      case Folder(base, sub) => WalkCounts(serveURL, relativePath + [DropLast(base)], sub);
      case File(_) =>
      case Other(_) =>
    }
  }

  /**
   * Every file is recorded with a path that starts with the folder being
   * listed, and is either that folder itself or a folder recorded by the
   * same scrape; every recorded folder path lies below the listed folder.
   */
  ghost predicate WellPlaced(relativePath: seq<string>, found: Found)
  {
    && (forall k :: 0 <= k < |found.files| ==>
          && |relativePath| <= |found.files[k].path|
          && found.files[k].path[..|relativePath|] == relativePath
          && (found.files[k].path == relativePath || Join(found.files[k].path, Slash) in found.folders))
    && (forall k :: 0 <= k < |found.folders| ==>
          exists p: seq<string> :: |p| > 0 && found.folders[k] == Join(relativePath + p, Slash))
  }

  lemma {:induction false} WalkWellPlaced(serveURL: string, relativePath: seq<string>, listing: Listing)
    ensures Walk(serveURL, relativePath, listing).Success? ==> WellPlaced(relativePath, Walk(serveURL, relativePath, listing).value)
    decreases listing, 1
  {
    match listing
    case Unavailable =>
    case Listed(entries) => WalkEntriesWellPlaced(serveURL, relativePath, entries);
  }

  lemma {:induction false} WalkEntriesWellPlaced(serveURL: string, relativePath: seq<string>, entries: seq<Item>)
    ensures WalkEntries(serveURL, relativePath, entries).Success? ==> WellPlaced(relativePath, WalkEntries(serveURL, relativePath, entries).value)
    decreases entries, 0
  {
    var r := WalkEntries(serveURL, relativePath, entries);
    if |entries| > 0 && r.Success? {
      WalkEntriesWellPlaced(serveURL, relativePath, entries[1..]);
      var head := WalkItem(serveURL, relativePath, entries[0]).value;
      var tail := WalkEntries(serveURL, relativePath, entries[1..]).value;
      WalkItemWellPlaced(serveURL, relativePath, entries[0]);
      ConcatWellPlaced(relativePath, head, tail);
    }
  }

  lemma {:induction false} WalkItemWellPlaced(serveURL: string, relativePath: seq<string>, item: Item)
    ensures WalkItem(serveURL, relativePath, item).Success? ==> WellPlaced(relativePath, WalkItem(serveURL, relativePath, item).value)
    decreases item, 2
  {
    match item
    case File(base) =>
    case Other(_) =>
    case Folder(base, sub) =>
      var childPath := relativePath + [DropLast(base)];
      var inner := Walk(serveURL, childPath, sub);
      if inner.Success? {
        WalkWellPlaced(serveURL, childPath, sub);
        FolderWellPlaced(relativePath, DropLast(base), inner.value);
      }
  }

  /** A subfolder's own path, followed by what lies below it, lies below the parent. */
  lemma FolderWellPlaced(relativePath: seq<string>, seg: string, inner: Found)
    requires WellPlaced(relativePath + [seg], inner)
    ensures WellPlaced(relativePath, Found([Join(relativePath + [seg], Slash)] + inner.folders, inner.files))
  {
    var me := Join(relativePath + [seg], Slash);
    var folders := [me] + inner.folders;
    assert folders[0] == me;
    assert folders[1..] == inner.folders;
    FolderFilesPlaced(relativePath, seg, inner);
    assert |[seg]| > 0 && me == Join(relativePath + [seg], Slash);
    forall k | 0 <= k < |folders|
      ensures exists p: seq<string> :: |p| > 0 && folders[k] == Join(relativePath + p, Slash)
    {
      if k > 0 {
        assert folders[k] == inner.folders[k - 1];
        var q: seq<string> :| |q| > 0 && inner.folders[k - 1] == Join(relativePath + [seg] + q, Slash);
        BelowParent(relativePath, seg, q);
      }
    }
  }

  /** The files below a subfolder extend the parent's path and sit in a recorded folder. */
  lemma FolderFilesPlaced(relativePath: seq<string>, seg: string, inner: Found)
    requires forall k :: 0 <= k < |inner.files| ==>
      && |relativePath + [seg]| <= |inner.files[k].path|
      && inner.files[k].path[..|relativePath + [seg]|] == relativePath + [seg]
      && (inner.files[k].path == relativePath + [seg] || Join(inner.files[k].path, Slash) in inner.folders)
    ensures forall k :: 0 <= k < |inner.files| ==>
      && |relativePath| <= |inner.files[k].path|
      && inner.files[k].path[..|relativePath|] == relativePath
      && Join(inner.files[k].path, Slash) in [Join(relativePath + [seg], Slash)] + inner.folders
  {
    var childPath := relativePath + [seg];
    forall k | 0 <= k < |inner.files|
      ensures |relativePath| <= |inner.files[k].path|
      ensures inner.files[k].path[..|relativePath|] == relativePath
      ensures Join(inner.files[k].path, Slash) in [Join(childPath, Slash)] + inner.folders
    {
      var p := inner.files[k].path;
      assert p[..|childPath|] == childPath;
      assert p[..|relativePath|] == childPath[..|relativePath|];
    }
  }

  /** A folder strictly below a subfolder lies strictly below its parent. */
  lemma BelowParent(relativePath: seq<string>, seg: string, q: seq<string>)
    requires |q| > 0
    ensures exists p: seq<string> :: |p| > 0 && Join(relativePath + [seg] + q, Slash) == Join(relativePath + p, Slash)
  {
    var p := [seg] + q;
    assert relativePath + [seg] + q == relativePath + p;
    assert |p| > 0 && Join(relativePath + [seg] + q, Slash) == Join(relativePath + p, Slash);
  }

  lemma ConcatWellPlaced(relativePath: seq<string>, a: Found, b: Found)
    requires WellPlaced(relativePath, a) && WellPlaced(relativePath, b)
    ensures WellPlaced(relativePath, Concat(a, b))
  {
    var c := Concat(a, b);
    forall k | 0 <= k < |c.files|
      ensures c.files[k].path == relativePath || Join(c.files[k].path, Slash) in c.folders
    {
      if k < |a.files| {
        assert c.files[k] == a.files[k];
      } else {
        assert c.files[k] == b.files[k - |a.files|];
      }
    }
    forall k | 0 <= k < |c.folders|
      ensures exists p: seq<string> :: |p| > 0 && c.folders[k] == Join(relativePath + p, Slash)
    {
      if k < |a.folders| {
        assert c.folders[k] == a.folders[k];
      } else {
        assert c.folders[k] == b.folders[k - |a.folders|];
      }
    }
  }

  /** The names of the `file` entries of one listing, in listing order. */
  function ListedFileNames(entries: seq<Item>): seq<string>
  {
    if |entries| == 0 then []
    else (if entries[0].File? then [entries[0].base] else []) + ListedFileNames(entries[1..])
  }

  /** The names of the recorded files whose path is exactly `relativePath`, in recorded order. */
  function NamesAt(files: seq<FileEntry>, relativePath: seq<string>): seq<string>
  {
    if |files| == 0 then []
    else (if files[0].path == relativePath then [files[0].name] else []) + NamesAt(files[1..], relativePath)
  }

  lemma {:induction false} NamesAtAppend(a: seq<FileEntry>, b: seq<FileEntry>, relativePath: seq<string>)
    ensures NamesAt(a + b, relativePath) == NamesAt(a, relativePath) + NamesAt(b, relativePath)
  {
    if |a| > 0 {
      assert (a + b)[1..] == a[1..] + b;
      NamesAtAppend(a[1..], b, relativePath);
    } else {
      assert a + b == b;
    }
  }

  /** No file recorded below a subfolder carries the listed folder's own path. */
  lemma NamesAtDeeper(files: seq<FileEntry>, relativePath: seq<string>)
    requires forall k :: 0 <= k < |files| ==> |relativePath| < |files[k].path|
    ensures NamesAt(files, relativePath) == []
  {
  }

  /**
   * Each listing's `file` entries are recorded with the listing's own path,
   * in listing order; files found deeper never carry that path.
   */
  lemma {:induction false} WalkEntriesListingOrder(serveURL: string, relativePath: seq<string>, entries: seq<Item>)
    ensures WalkEntries(serveURL, relativePath, entries).Success? ==>
      NamesAt(WalkEntries(serveURL, relativePath, entries).value.files, relativePath) == ListedFileNames(entries)
  {
    var r := WalkEntries(serveURL, relativePath, entries);
    if |entries| > 0 && r.Success? {
      WalkEntriesListingOrder(serveURL, relativePath, entries[1..]);
      var head := WalkItem(serveURL, relativePath, entries[0]).value;
      var tail := WalkEntries(serveURL, relativePath, entries[1..]).value;
      NamesAtAppend(head.files, tail.files, relativePath);
      match entries[0]
      case File(base) =>
      case Other(_) =>
      case Folder(base, sub) =>
        var childPath := relativePath + [DropLast(base)];
        WalkWellPlaced(serveURL, childPath, sub);
        NamesAtDeeper(head.files, relativePath);
    }
  }

  /** Only `file` and `folder` entries; anything else is dropped. */
  function KnownOnly(entries: seq<Item>): (r: seq<Item>)
    ensures forall k :: 0 <= k < |r| ==> !r[k].Other?
    ensures |r| <= |entries|
  {
    if |entries| == 0 then []
    else (if entries[0].Other? then [] else [entries[0]]) + KnownOnly(entries[1..])
  }

  /** Entries of any other `type` add nothing: removing them leaves the scrape unchanged. */
  lemma {:induction false} OtherEntriesIgnored(serveURL: string, relativePath: seq<string>, entries: seq<Item>)
    ensures WalkEntries(serveURL, relativePath, KnownOnly(entries)) == WalkEntries(serveURL, relativePath, entries)
  {
    if |entries| > 0 {
      OtherEntriesIgnored(serveURL, relativePath, entries[1..]);
      var tail := WalkEntries(serveURL, relativePath, entries[1..]);
      if entries[0].Other? {
        assert KnownOnly(entries) == KnownOnly(entries[1..]);
        if tail.Success? {
          assert Concat(Empty, tail.value) == tail.value;
        }
      } else {
        var known := KnownOnly(entries);
        assert known == [entries[0]] + KnownOnly(entries[1..]);
        assert known[0] == entries[0];
        assert known[1..] == KnownOnly(entries[1..]);
      }
    }
  }
}
