/**
 * The source registry: GetUpdatedFortuneSources. Every listed file that is
 * not itself a `.datx` sidecar is a fortune source; its sidecar is rebuilt
 * when missing or older than the source, and its entry count is the
 * sidecar's length divided by the 10-byte record size.
 */
module Registry {
  import opened Binary
  import opened IndexBuilder

  /** The sidecar suffix. */
  const DATX: string := ".datx"

  /** file.EndsWith(DATX), compared character by character. */
  predicate IsSidecarName(name: string)
  {
    |name| >= |DATX| && name[|name| - |DATX|..] == DATX
  }

  /** A file as the registry sees it: its bytes and its last write time. */
  datatype FileInfo = FileInfo(content: seq<byte>, mtime: int)

  type Files = map<string, FileInfo>

  /** One entry of the result dictionary: a source path and its entry count. */
  datatype Source = Source(path: string, count: nat)

  /** The directory the engine reads from and writes sidecars into. */
  class FileSystem {
    var files: Files

    constructor(files: Files)
      ensures this.files == files
    {
      this.files := files;
    }

    /** Creates or truncates the file, writes content and stamps it with mtime. */
    method Write(name: string, content: seq<byte>, mtime: int)
      modifies this
      ensures files == old(files)[name := FileInfo(content, mtime)]
    {
      files := files[name := FileInfo(content, mtime)];
    }
  }

  predicate Distinct(names: seq<string>)
  {
    forall i, j :: 0 <= i < j < |names| ==> names[i] != names[j]
  }

  predicate AllListed(files: Files, names: seq<string>)
  {
    forall n | n in names :: n in files
  }

  /** Fortune.cs line 52: the sidecar is missing, or the source was written after it. */
  predicate Stale(files: Files, name: string)
    requires name in files
  {
    name + DATX !in files || files[name].mtime > files[name + DATX].mtime
  }

  /** The sidecar a source has once it was checked: rebuilt when stale, else as it was. */
  function CheckedSidecar(files: Files, name: string): seq<byte>
    requires name in files
  {
    if Stale(files, name) then EncodeRecords(BuildRecords(files[name].content))
    else files[name + DATX].content
  }

  /** Fortune.cs lines 68 and 72-73: the number of whole 10-byte records in the sidecar. */
  function Count(files: Files, name: string): nat
    requires name in files
  {
    |CheckedSidecar(files, name)| / RECORD_SIZE
  }

  /** The result dictionary, in listing order, for the listed names. */
  function SourcesOf(files: Files, names: seq<string>): seq<Source>
    requires AllListed(files, names)
  {
    if names == [] then []
    else
      var n := names[|names| - 1];
      SourcesOf(files, names[..|names| - 1])
        + (if IsSidecarName(n) then [] else [Source(n, Count(files, n))])
  }

  /** The directory after every stale sidecar among the listed sources was rebuilt at time now. */
  function Refreshed(files: Files, names: seq<string>, now: int): (r: Files)
    requires AllListed(files, names)
    ensures files.Keys <= r.Keys
  {
    if names == [] then files
    else
      var n := names[|names| - 1];
      var before := Refreshed(files, names[..|names| - 1], now);
      if !IsSidecarName(n) && Stale(files, n) then
        before[n + DATX := FileInfo(EncodeRecords(BuildRecords(files[n].content)), now)]
      else
        before
  }

  /** The listed names that are not sidecars, in listing order. */
  function Listed(names: seq<string>): (r: seq<string>)
    ensures forall n :: n in r <==> n in names && !IsSidecarName(n)
  {
    if names == [] then []
    else
      var n := names[|names| - 1];
      assert names == names[..|names| - 1] + [n];
      Listed(names[..|names| - 1]) + (if IsSidecarName(n) then [] else [n])
  }

  function Paths(sources: seq<Source>): (r: seq<string>)
    ensures |r| == |sources| && forall i :: 0 <= i < |sources| ==> r[i] == sources[i].path
  {
    seq(|sources|, i requires 0 <= i < |sources| => sources[i].path)
  }

  lemma SidecarNameIsSidecar(name: string)
    ensures IsSidecarName(name + DATX)
  {
    assert (name + DATX)[|name|..] == DATX;
  }

  lemma SidecarNamesDiffer(a: string, b: string)
    requires a != b
    ensures a + DATX != b + DATX
  {
    if |a| == |b| {
      assert (a + DATX)[..|a|] == a && (b + DATX)[..|b|] == b;
    } else {
      assert |a + DATX| != |b + DATX|;
    }
  }

  /** A source name is never the sidecar name of any file. */
  lemma SourceIsNoSidecarOf(n: string, m: string)
    requires !IsSidecarName(n)
    ensures n != m + DATX
  {
    SidecarNameIsSidecar(m);
  }

  lemma PathsAppend(a: seq<Source>, b: seq<Source>)
    ensures Paths(a + b) == Paths(a) + Paths(b)
  {
  }

  /**
   * Files ending in `.datx` are never sources and every other listed file
   * is one, in listing order.
   */
  lemma {:induction false} SourcePathsAreListed(files: Files, names: seq<string>)
    requires AllListed(files, names)
    ensures Paths(SourcesOf(files, names)) == Listed(names)
  {
    if names != [] {
      var init, n := names[..|names| - 1], names[|names| - 1];
      SourcePathsAreListed(files, init);
      var here: seq<Source> := if IsSidecarName(n) then [] else [Source(n, Count(files, n))];
      assert SourcesOf(files, names) == SourcesOf(files, init) + here;
      assert Listed(names) == Listed(init) + (if IsSidecarName(n) then [] else [n]);
      PathsAppend(SourcesOf(files, init), here);
    }
  }

  /** Every source is a listed file, with the count its checked sidecar gives. */
  lemma {:induction false} SourceCountsAreChecked(files: Files, names: seq<string>)
    requires AllListed(files, names)
    ensures forall s :: s in SourcesOf(files, names) ==>
              s.path in names && !IsSidecarName(s.path) && s.path in files && s.count == Count(files, s.path)
  {
    if names != [] {
      var init := names[..|names| - 1];
      SourceCountsAreChecked(files, init);
      assert forall m :: m in init ==> m in names;
    }
  }

  /** A source's count is the number of records a rebuild writes when stale, else its old sidecar's whole records. */
  lemma CountOfSource(files: Files, name: string)
    requires name in files
    ensures Stale(files, name) ==> Count(files, name) == |BuildRecords(files[name].content)|
    ensures !Stale(files, name) ==> Count(files, name) == |files[name + DATX].content| / RECORD_SIZE
  {
  }

  /** Refreshing touches no file but the sidecars of the listed sources. */
  lemma {:induction false} RefreshedFrame(files: Files, names: seq<string>, now: int, k: string)
    requires AllListed(files, names)
    requires forall n | n in names && !IsSidecarName(n) :: k != n + DATX
    ensures (k in Refreshed(files, names, now)) == (k in files)
    ensures k in files ==> Refreshed(files, names, now)[k] == files[k]
  {
    if names != [] {
      RefreshedFrame(files, names[..|names| - 1], now, k);
    }
  }

  /** Fortune.cs lines 52-54: a listed source's sidecar is rebuilt, stamped now, exactly when it was stale; otherwise it is left as it was. */
  lemma {:induction false} RefreshedSidecar(files: Files, names: seq<string>, now: int, n: string)
    requires AllListed(files, names) && n in names && !IsSidecarName(n)
    ensures Stale(files, n) ==>
              var r := Refreshed(files, names, now);
              n + DATX in r && r[n + DATX] == FileInfo(EncodeRecords(BuildRecords(files[n].content)), now)
    ensures !Stale(files, n) ==>
              var r := Refreshed(files, names, now);
              n + DATX in r && r[n + DATX] == files[n + DATX]
  {
    var init, last := names[..|names| - 1], names[|names| - 1];
    if n in init {
      RefreshedSidecar(files, init, now, n);
      if last != n {
        SidecarNamesDiffer(last, n);
      }
    } else {
      assert last == n by {
        assert names == init + [last];
      }
      forall m | m in init && !IsSidecarName(m) ensures n + DATX != m + DATX
      {
        SidecarNamesDiffer(n, m);
      }
      RefreshedFrame(files, init, now, n + DATX);
    }
  }

  /** Sources keep their bytes and their write times through a refresh. */
  lemma RefreshedKeepsSource(files: Files, names: seq<string>, now: int, n: string)
    requires AllListed(files, names) && n in files && !IsSidecarName(n)
    ensures n in Refreshed(files, names, now) && Refreshed(files, names, now)[n] == files[n]
  {
    forall m | m in names && !IsSidecarName(m) ensures n != m + DATX
    {
      SourceIsNoSidecarOf(n, m);
    }
    RefreshedFrame(files, names, now, n);
  }

  /** When no listed source is stale, refreshing changes nothing. */
  lemma {:induction false} NothingStaleNothingChanged(files: Files, names: seq<string>, now: int)
    requires AllListed(files, names)
    requires forall n | n in names && !IsSidecarName(n) :: !Stale(files, n)
    ensures Refreshed(files, names, now) == files
  {
    if names != [] {
      NothingStaleNothingChanged(files, names[..|names| - 1], now);
    }
  }

  /** Two directories whose sources have the same counts yield the same dictionary. */
  lemma {:induction false} SameCountsSameSources(f: Files, g: Files, names: seq<string>)
    requires AllListed(f, names) && AllListed(g, names)
    requires forall n | n in names && !IsSidecarName(n) :: Count(f, n) == Count(g, n)
    ensures SourcesOf(f, names) == SourcesOf(g, names)
  {
    if names != [] {
      SameCountsSameSources(f, g, names[..|names| - 1]);
    }
  }

  /**
   * The sidecar cache at work: once refreshed at a time no earlier than any
   * source's write time, a second refresh rebuilds nothing and the counts it
   * reports are those the first one reported.
   */
  lemma RefreshTwice(files: Files, names: seq<string>, now: int)
    requires AllListed(files, names)
    requires forall n | n in names && !IsSidecarName(n) :: files[n].mtime <= now
    ensures AllListed(Refreshed(files, names, now), names)
    ensures Refreshed(Refreshed(files, names, now), names, now) == Refreshed(files, names, now)
    ensures SourcesOf(Refreshed(files, names, now), names) == SourcesOf(files, names)
  {
    var r := Refreshed(files, names, now);
    forall n | n in names && !IsSidecarName(n) ensures !Stale(r, n) && Count(r, n) == Count(files, n)
    {
      RefreshedKeepsSource(files, names, now, n);
      RefreshedSidecar(files, names, now, n);
    }
    NothingStaleNothingChanged(r, names, now);
    SameCountsSameSources(r, files, names);
  }

  /**
   * Fortune.cs lines 47-78 over the listed names: for every name that is not a sidecar,
   * rebuild its sidecar when stale and record its count, in listing order.
   */
  method GetUpdatedFortuneSources(fs: FileSystem, names: seq<string>, now: int) returns (sources: seq<Source>)
    requires Distinct(names) && AllListed(fs.files, names)
    modifies fs
    ensures sources == SourcesOf(old(fs.files), names)
    ensures fs.files == Refreshed(old(fs.files), names, now)
  {
    ghost var files := fs.files;
    sources := [];
    var i := 0;
    while i < |names|
      invariant 0 <= i <= |names|
      invariant sources == SourcesOf(files, names[..i])
      invariant fs.files == Refreshed(files, names[..i], now)
    {
      var file := names[i];
      assert names[..i + 1][..i] == names[..i] && names[..i + 1][i] == file;
      if !IsSidecarName(file) {
        forall m | m in names[..i] && !IsSidecarName(m) ensures file + DATX != m + DATX
        {
          SidecarNamesDiffer(file, m);
        }
        RefreshedFrame(files, names[..i], now, file + DATX);
        RefreshedKeepsSource(files, names[..i], now, file);
        if file + DATX !in fs.files || fs.files[file].mtime > fs.files[file + DATX].mtime {
          var sidecar := BuildSidecar(fs.files[file].content);
          fs.Write(file + DATX, sidecar, now);
          sources := sources + [Source(file, |sidecar| / RECORD_SIZE)];
        } else {
          var entries := |fs.files[file + DATX].content| / RECORD_SIZE;
          sources := sources + [Source(file, entries)];
        }
      }
      i := i + 1;
    }
    assert names[..|names|] == names;
  }
}
