/**
 * The manifest that `downloadFiles` builds before downloading
 * (bin/serve-clone.js:99-114): one record per discovered file, holding its
 * remote URL, its local path and its 1-based position.
 */
module Manifest {
  import opened Text
  import opened Scrape

  /** One entry of `fileDatas`: where to fetch from, where to write, and `i` of `c`. */
  datatype FileData = FileData(url: string, filePath: string, i: nat, c: nat)

  /** `[serveURL, ...file.path, file.name].join('/')` */
  function FileUrl(serveURL: string, file: FileEntry): string
  {
    Join([serveURL] + file.path + [file.name], Slash)
  }

  /** `[baseDirectory, ...file.path, file.name].join(path.sep)` */
  function LocalPath(baseDirectory: string, sep: char, file: FileEntry): string
  {
    Join([baseDirectory] + file.path + [file.name], sep)
  }

  /** The record for the file at 0-based position `k`. */
  function Record(serveURL: string, files: seq<FileEntry>, baseDirectory: string, sep: char, k: nat): FileData
    requires k < |files|
  {
    FileData(FileUrl(serveURL, files[k]), LocalPath(baseDirectory, sep, files[k]), k + 1, |files|)
  }

  /** The whole manifest, one record per file in order. */
  function ManifestOf(serveURL: string, files: seq<FileEntry>, baseDirectory: string, sep: char): (r: seq<FileData>)
    ensures |r| == |files|
    ensures forall k :: 0 <= k < |r| ==> r[k].i == k + 1 && r[k].c == |files|
  {
    seq(|files|, k requires 0 <= k < |files| => Record(serveURL, files, baseDirectory, sep, k))
  }

  /** The loop of lines 101-114, pushing one record per file. */
  method BuildManifest(serveURL: string, files: seq<FileEntry>, baseDirectory: string, sep: char) returns (fileDatas: seq<FileData>)
    ensures fileDatas == ManifestOf(serveURL, files, baseDirectory, sep)
  {
    fileDatas := [];
    var i := 0;
    while i < |files|
      invariant 0 <= i <= |files|
      invariant |fileDatas| == i
      invariant forall k :: 0 <= k < i ==> fileDatas[k] == Record(serveURL, files, baseDirectory, sep, k)
    {
      var file := files[i];
      var url := Join([serveURL] + file.path + [file.name], Slash);
      var filePath := Join([baseDirectory] + file.path + [file.name], sep);
      fileDatas := fileDatas + [FileData(url, filePath, i + 1, |files|)];
      i := i + 1;
    }
  }

  /** No segment of the file's folder path, nor its name, holds the separator. */
  predicate SeparatorFree(file: FileEntry, sep: char)
  {
    sep !in file.name && forall k :: 0 <= k < |file.path| ==> sep !in file.path[k]
  }

  /** Joining the root in front of a non-empty list of parts adds one separator. */
  lemma JoinFront(root: string, parts: seq<string>, sep: char)
    requires |parts| > 0
    ensures Join([root] + parts, sep) == root + [sep] + Join(parts, sep)
  {
    JoinAppend([root], parts, sep);
  }

  /**
   * A local path splits back into the base directory's own pieces, then the
   * folder segments, then the file name.
   */
  lemma LocalPathSegments(baseDirectory: string, sep: char, file: FileEntry)
    requires SeparatorFree(file, sep)
    ensures Split(LocalPath(baseDirectory, sep, file), sep) == Split(baseDirectory, sep) + file.path + [file.name]
  {
    var rest := file.path + [file.name];
    assert [baseDirectory] + file.path + [file.name] == [baseDirectory] + rest;
    JoinFront(baseDirectory, rest, sep);
    SplitAt(baseDirectory, Join(rest, sep), sep);
    forall k | 0 <= k < |rest|
      ensures sep !in rest[k]
    {
      if k < |file.path| {
        assert rest[k] == file.path[k];
      }
    }
    SplitJoin(rest, sep);
  }

  /** Distinct separator-free files get distinct local paths under the same base directory. */
  lemma LocalPathInjective(baseDirectory: string, sep: char, a: FileEntry, b: FileEntry)
    requires SeparatorFree(a, sep) && SeparatorFree(b, sep)
    requires LocalPath(baseDirectory, sep, a) == LocalPath(baseDirectory, sep, b)
    ensures a == b
  {
    LocalPathSegments(baseDirectory, sep, a);
    LocalPathSegments(baseDirectory, sep, b);
    var pre := Split(baseDirectory, sep);
    var sa := pre + a.path + [a.name];
    var sb := pre + b.path + [b.name];
    assert sa == sb;
    assert sa[|pre|..] == a.path + [a.name];
    assert sb[|pre|..] == b.path + [b.name];
    var ta := a.path + [a.name];
    var tb := b.path + [b.name];
    assert |a.path| == |b.path|;
    assert a.name == ta[|ta| - 1] == tb[|tb| - 1] == b.name;
    assert a.path == ta[..|a.path|] == tb[..|b.path|] == b.path;
  }

  /**
   * When the root URL has no trailing `/`, a file's URL is the listing URL
   * of the folder it was found in, followed by its name.
   */
  lemma FileUrlIsListingUrl(serveURL: string, file: FileEntry)
    requires !EndsWith(serveURL, "/")
    ensures FileUrl(serveURL, file) == ScrapeUrl(serveURL, file.path) + file.name
  {
    var rest := file.path + [file.name];
    assert [serveURL] + file.path + [file.name] == [serveURL] + rest;
    JoinFront(serveURL, rest, Slash);
    if |file.path| > 0 {
      JoinSnoc(file.path, file.name, Slash);
    } else {
      assert rest == [file.name];
    }
  }

  /**
   * With a trailing `/` on the root URL the file URL does not follow the
   * listing URL: the join puts a second `/` after the root, where the
   * listing URL keeps the root's own.
   */
  lemma FileUrlDoubleSlash(serveURL: string, file: FileEntry)
    requires EndsWith(serveURL, "/")
    ensures FileUrl(serveURL, file) == serveURL + "/" + Join(file.path + [file.name], Slash)
    ensures ScrapeUrl(serveURL, file.path) + file.name == serveURL + Join(file.path + [file.name], Slash)
  {
    var rest := file.path + [file.name];
    assert [serveURL] + file.path + [file.name] == [serveURL] + rest;
    JoinFront(serveURL, rest, Slash);
    if |file.path| > 0 {
      JoinSnoc(file.path, file.name, Slash);
    } else {
      assert rest == [file.name];
    }
  }

  /** The smallest instance: root `http://h/` and a file `x` at the top. */
  lemma FileUrlDoubleSlashExample()
    ensures FileUrl("http://h/", FileEntry("x", [])) == "http://h//x"
    ensures ScrapeUrl("http://h/", []) + "x" == "http://h/x"
  {
    FileUrlDoubleSlash("http://h/", FileEntry("x", []));
    assert [] + ["x"] == ["x"];
  }
}
