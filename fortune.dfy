/**
 * The entry reader and the engine's entry point: GetFortuneTextFrom reads
 * the chosen record from the sidecar, slices the entry out of the source
 * and post-processes its text; Get runs the registry, the selector and the
 * reader in turn.
 */
module FortuneEngine {
  import opened Wrappers
  import opened Binary
  import opened Streams
  import opened IndexBuilder
  import opened Text
  import opened Registry
  import opened Selector

  /** The text of the fortune shown when no entry was chosen. */
  const NO_FORTUNE: string := "No fortune for you today."

  datatype Fortune = Fortune(text: string, author: string)

  /** The exceptions the reader can raise, in the order it can raise them. */
  datatype Fault =
    | SidecarNotFound     // FileNotFoundException opening file + DATX
    | SidecarTooShort     // EndOfStreamException from ReadInt64 or ReadInt16
    | SourceNotFound      // FileNotFoundException opening the source file
    | NegativeLength      // OverflowException from new byte[len] with len < 0
    | NegativeOffset      // ArgumentOutOfRangeException from Position = pos with pos < 0
    | AttributionOverrun  // IndexOutOfRangeException from the do-while at Fortune.cs lines 162-164

  /** Fortune.cs lines 36-39: a missing text or author (null) falls back to a default. */
  function MakeFortune(text: Option<string>, author: Option<string>): (f: Fortune)
    ensures text.Some? ==> f.text == text.value
    ensures text.None? ==> f.text == NO_FORTUNE
    ensures author.Some? ==> f.author == author.value
    ensures author.None? ==> f.author == ""
  {
    Fortune(if text.Some? then text.value else NO_FORTUNE, if author.Some? then author.value else "")
  }

  /**
   * The buffer after Fortune.cs lines 153-155: len bytes, holding the file's bytes from
   * offset on as far as the file goes, and zero after that.
   */
  function EntryBytes(content: seq<byte>, offset: nat, len: nat): (r: seq<byte>)
    ensures |r| == len
    ensures forall i :: 0 <= i < len && offset + i < |content| ==> r[i] == content[offset + i]
    ensures forall i :: 0 <= i < len && offset + i >= |content| ==> r[i] == 0
  {
    var avail := if offset >= |content| then [] else content[offset..if offset + len < |content| then offset + len else |content|];
    avail + seq(len - |avail|, _ => 0)
  }

  /** Inside the file the buffer is exactly the slice the record names. */
  lemma EntryBytesInFile(content: seq<byte>, offset: nat, len: nat)
    requires offset + len <= |content|
    ensures EntryBytes(content, offset, len) == content[offset..offset + len]
  {
    var r := EntryBytes(content, offset, len);
    assert forall i :: 0 <= i < len ==> r[i] == content[offset..offset + len][i];
  }

  /** Fortune.cs lines 156-167 on the entry's bytes: decode, normalise, peel off the author. */
  function FortuneOfBytes(bytes: seq<byte>): Result<Fortune, Fault>
  {
    var text := DecodeBytes(bytes);
    if AttributionOverruns(text) then Err(AttributionOverrun)
    else
      var a := Attribute(text);
      Ok(MakeFortune(Some(a.text), Some(a.author)))
  }

  /** Fortune.cs lines 145-155: the bytes of entry local of the source at path, or the exception raised on the way. */
  function EntryBytesAt(files: Files, path: string, local: nat): Result<seq<byte>, Fault>
  {
    if path + DATX !in files then Err(SidecarNotFound)
    else
      match ReadRecordAt(files[path + DATX].content, local)
      case None => Err(SidecarTooShort)
      case Some(rec) =>
        if path !in files then Err(SourceNotFound)
        else if rec.length < 0 then Err(NegativeLength)
        else if rec.offset < 0 then Err(NegativeOffset)
        else Ok(EntryBytes(files[path].content, rec.offset, rec.length))
  }

  /** Fortune.cs lines 145-167: the fortune of entry local of the source at path, exceptions included. */
  function EntryAt(files: Files, path: string, local: nat): Result<Fortune, Fault>
  {
    match EntryBytesAt(files, path, local)
    case Err(e) => Err(e)
    case Ok(bytes) => FortuneOfBytes(bytes)
  }

  /** Fortune.cs lines 142-174: the entry the walk lands on, or the default fortune when it lands on none. */
  function FortuneFrom(files: Files, sources: seq<Source>, index: nat): Result<Fortune, Fault>
  {
    match Locate(sources, index)
    case None => Ok(MakeFortune(None, None))
    case Some((p, local)) => EntryAt(files, sources[p].path, local)
  }

  /** Fortune.cs lines 159-166 on the normalised text, its lines and its trimmed last line. */
  method TakeAuthor(normalized: string, lines: seq<string>, last: string) returns (text: string, author: string)
    requires |lines| >= 1
    requires StartsWithMarker(last) ==> LastNonBlank(lines, |lines| - 1) >= 0
    ensures Attributed(text, author) == PeelAuthor(normalized, lines, last)
  {
    text, author := normalized, "";
    if StartsWithMarker(last) {
      author := Trim(last[2..]);
      var kept := DropAttributionLines(lines);
      text := JoinLines(kept);
    }
  }

  /** The text post-processing of Fortune.cs lines 156-167 on the bytes read. */
  method PostProcess(buff: seq<byte>) returns (r: Result<Fortune, Fault>)
    ensures r == FortuneOfBytes(buff)
  {
    var text := DecodeBytes(buff);
    var lines := Lines(text);
    var last := Trim(lines[|lines| - 1]);
    assert last == LastLine(text);
    if StartsWithMarker(last) && LastNonBlank(lines, |lines| - 1) < 0 {
      return Err(AttributionOverrun);
    }
    var shown, author := TakeAuthor(NormalizeLoneCR(text), lines, last);
    r := Ok(MakeFortune(Some(shown), Some(author)));
  }

  /** Fortune.cs lines 145-155: read the record from the sidecar, then the bytes it names from the source. */
  method ReadEntryBytes(fs: FileSystem, path: string, local: nat) returns (r: Result<seq<byte>, Fault>)
    ensures r == EntryBytesAt(fs.files, path, local)
  {
    if path + DATX !in fs.files {
      return Err(SidecarNotFound);
    }
    var rec := ReadRecordAt(fs.files[path + DATX].content, local);
    if rec.None? {
      return Err(SidecarTooShort);
    }
    var pos, len := rec.value.offset, rec.value.length;
    if path !in fs.files {
      return Err(SourceNotFound);
    }
    var data := new ByteStream(fs.files[path].content);
    if len < 0 {
      return Err(NegativeLength);
    }
    var buff := new byte[len](_ => 0);
    if pos < 0 {
      return Err(NegativeOffset);
    }
    data.position := pos;
    var n := data.Read(buff, len);
    assert buff[..] == EntryBytes(data.data, pos, len);
    r := Ok(buff[..]);
  }

  /** Fortune.cs lines 145-167: read the entry's bytes, then post-process its text. */
  method ReadEntry(fs: FileSystem, path: string, local: nat) returns (r: Result<Fortune, Fault>)
    ensures r == EntryAt(fs.files, path, local)
  {
    var bytes := ReadEntryBytes(fs, path, local);
    if bytes.Err? {
      return Err(bytes.error);
    }
    r := PostProcess(bytes.value);
  }

  /** What the walk finds once the first i sources are passed over, seen from the whole list. */
  function Shift(found: Option<(nat, nat)>, i: nat): Option<(nat, nat)>
  {
    match found
    case None => None
    case Some((p, local)) => Some((p + i, local))
  }

  /** Passing over source i, whose count does not exceed what is left of the index, keeps the walk on track. */
  lemma PassOver(sources: seq<Source>, index: nat, i: nat, left: nat)
    requires i < |sources| && sources[i].count <= left
    requires Locate(sources, index) == Shift(Locate(sources[i..], left), i)
    ensures Locate(sources, index) == Shift(Locate(sources[i + 1..], left - sources[i].count), i + 1)
  {
    assert sources[i..][1..] == sources[i + 1..];
  }

  /** The walk stops at source i once what is left of the index is below its count. */
  lemma LandOn(sources: seq<Source>, index: nat, i: nat, left: nat)
    requires i < |sources| && left < sources[i].count
    requires Locate(sources, index) == Shift(Locate(sources[i..], left), i)
    ensures Locate(sources, index) == Some((i, left))
  {
  }

  /** Fortune.cs lines 142-174: walk the sources, taking each one's count off the index, and read the entry it lands on. */
  method GetFortuneTextFrom(fs: FileSystem, sources: seq<Source>, index: nat) returns (r: Result<Fortune, Fault>)
    ensures r == FortuneFrom(fs.files, sources, index)
  {
    var i := 0;
    var left: nat := index;
    while i < |sources|
      invariant 0 <= i <= |sources|
      invariant Locate(sources, index) == Shift(Locate(sources[i..], left), i)
    {
      if left < sources[i].count {
        LandOn(sources, index, i, left);
        r := ReadEntry(fs, sources[i].path, left);
        return;
      } else {
        PassOver(sources, index, i, left);
        left := left - sources[i].count;
      }
      i := i + 1;
    }
    r := Ok(MakeFortune(None, None));
  }

  /** Fortune.cs lines 41-45: refresh the sidecars, draw an index, read that entry. */
  method Get(fs: FileSystem, names: seq<string>, now: int, next: nat -> nat) returns (r: Result<Fortune, Fault>)
    requires Distinct(names) && AllListed(fs.files, names) && IsNext(next)
    modifies fs
    ensures fs.files == Refreshed(old(fs.files), names, now)
    ensures var sources := SourcesOf(old(fs.files), names);
            r == FortuneFrom(fs.files, sources, next(SumCounts(sources)))
  {
    var sources := GetUpdatedFortuneSources(fs, names, now);
    var index := GetRandomFortuneIndexFrom(sources, next);
    r := GetFortuneTextFrom(fs, sources, index);
  }

  /** An index at or past the total of all counts lands on no entry and yields the default fortune. */
  lemma PastTotalGivesDefault(files: Files, sources: seq<Source>, index: nat)
    requires index >= SumCounts(sources)
    ensures FortuneFrom(files, sources, index) == Ok(Fortune(NO_FORTUNE, ""))
  {
    LocateFindsIffBelowTotal(sources, index);
  }

  /**
   * After a refresh, every source has its sidecar, the one the check left
   * behind, with a whole record for each of its entries; the source file
   * itself is unchanged. When the sidecar was stale it is the one the builder
   * writes for the source's bytes, with one record per entry.
   */
  lemma RefreshedSourceHasRecord(files: Files, names: seq<string>, now: int, p: nat, local: nat)
    requires AllListed(files, names)
    requires p < |SourcesOf(files, names)| && local < SourcesOf(files, names)[p].count
    ensures var n, r := SourcesOf(files, names)[p].path, Refreshed(files, names, now);
            && n in files && n + DATX in r && n in r && r[n] == files[n]
            && r[n + DATX].content == CheckedSidecar(files, n)
            && ReadRecordAt(r[n + DATX].content, local).Some?
            && (Stale(files, n) ==>
                  && r[n + DATX].content == EncodeRecords(BuildRecords(r[n].content))
                  && local < |BuildRecords(r[n].content)|)
  {
    var sources := SourcesOf(files, names);
    var n := sources[p].path;
    SourceCountsAreChecked(files, names);
    assert sources[p] in sources;
    RefreshedSidecar(files, names, now, n);
    RefreshedKeepsSource(files, names, now, n);
    CountOfSource(files, n);
  }

  /** Of the reader's faults, only those that come from the entry itself can follow a refresh. */
  lemma RefreshedReadsNeverMissFiles(files: Files, names: seq<string>, now: int, index: nat)
    requires AllListed(files, names)
    ensures var r := FortuneFrom(Refreshed(files, names, now), SourcesOf(files, names), index);
            r.Err? ==> r.error in {NegativeLength, NegativeOffset, AttributionOverrun}
  {
    var found := Locate(SourcesOf(files, names), index);
    if found.Some? {
      RefreshedSourceHasRecord(files, names, now, found.value.0, found.value.1);
    }
  }

  /**
   * Writing the records and reading one back: from a sidecar the builder
   * wrote for the source, the reader gets back the record the builder wrote
   * for that entry; an entry of length -1 raises the overflow, and any other
   * is read as exactly the bytes of the source the record names.
   */
  lemma EntryOfBuiltSidecar(files: Files, path: string, local: nat)
    requires path in files && path + DATX in files
    requires files[path + DATX].content == EncodeRecords(BuildRecords(files[path].content))
    requires |files[path].content| < TWO_TO_63 && local < |BuildRecords(files[path].content)|
    ensures var data := files[path].content;
            var rec := BuildRecords(data)[local];
            && ReadRecordAt(files[path + DATX].content, local) == Some(rec)
            && 0 <= rec.offset && -1 <= rec.length && rec.offset + rec.length < |data|
            && EntryBytesAt(files, path, local)
               == if rec.length < 0 then Err(NegativeLength)
                  else Ok(data[rec.offset..rec.offset + rec.length])
  {
    var data := files[path].content;
    BuiltRecordReadBack(data, local);
    var rec := BuildRecords(data)[local];
    if rec.length >= 0 {
      EntryBytesInFile(data, rec.offset, rec.length);
    }
  }

  /** The record the builder wrote for an entry reads back unchanged and lies inside the file. */
  lemma BuiltRecordReadBack(data: seq<byte>, local: nat)
    requires |data| < TWO_TO_63 && local < |BuildRecords(data)|
    ensures var rec := BuildRecords(data)[local];
            && ReadRecordAt(EncodeRecords(BuildRecords(data)), local) == Some(rec)
            && 0 <= rec.offset && -1 <= rec.length && rec.offset + rec.length < |data|
  {
    var built := BuildRecords(data);
    BuildRecordsShape(data);
    SidecarRoundTrip(built, local);
    assert RecordInFile(data, FirstEntryStart(data), built[local]);
  }

  /**
   * End to end: when the draw lands on a source whose sidecar was stale, the
   * reader takes exactly the bytes of the entry the builder recorded there
   * and makes the fortune from them, or raises the overflow for an entry of
   * length -1.
   */
  lemma DrawnEntryOfRebuiltSource(files: Files, names: seq<string>, now: int, index: nat, p: nat, local: nat)
    requires AllListed(files, names)
    requires Locate(SourcesOf(files, names), index) == Some((p, local))
    requires var n := SourcesOf(files, names)[p].path;
             n in files && Stale(files, n) && |files[n].content| < TWO_TO_63
    ensures var n := SourcesOf(files, names)[p].path;
            var data := files[n].content;
            && local < |BuildRecords(data)|
            && var rec := BuildRecords(data)[local];
               && 0 <= rec.offset && -1 <= rec.length && rec.offset + rec.length < |data|
               && EntryBytesAt(Refreshed(files, names, now), n, local)
                  == if rec.length < 0 then Err(NegativeLength)
                     else Ok(data[rec.offset..rec.offset + rec.length])
  {
    var n, r := SourcesOf(files, names)[p].path, Refreshed(files, names, now);
    RefreshedSourceHasRecord(files, names, now, p, local);
    EntryOfBuiltSidecar(r, n, local);
  }

  /** "Hello\n%\n": a file that ends with a `%` line. */
  const HELLO_THEN_DELIMITER: seq<byte> := [0x48, 0x65, 0x6C, 0x6C, 0x6F, 0x0A, 0x25, 0x0A]

  /**
   * A source that ends with a `%` line gets a second record of length -1,
   * so the draw that lands on it makes the reader raise the overflow.
   */
  lemma TrailingDelimiterCrashesReader()
    ensures var files := map["f" := FileInfo(HELLO_THEN_DELIMITER, 0)];
            var sources := SourcesOf(files, ["f"]);
            && sources == [Source("f", 2)]
            && FortuneFrom(Refreshed(files, ["f"], 1), sources, 1) == Err(NegativeLength)
  {
    var files := map["f" := FileInfo(HELLO_THEN_DELIMITER, 0)];
    TrailingDelimiterRecord();
    var built := BuildRecords(HELLO_THEN_DELIMITER);
    assert built == [Record(0, 5), Record(8, -1)];
    assert !IsSidecarName("f");
    assert ["f"][..0] == [];
    assert Stale(files, "f");
    assert Count(files, "f") == |EncodeRecords(built)| / RECORD_SIZE == 2;
    var sources := SourcesOf(files, ["f"]);
    assert sources == SourcesOf(files, []) + [Source("f", 2)];
    assert Locate(sources, 1) == Some((0, 1));
    DrawnEntryOfRebuiltSource(files, ["f"], 1, 1, 0, 1);
  }

  /**
   * An entry whose bytes end with `\r`, as the last entry of a file ending
   * in `\r\n` does once the final break drops the file's last byte, is
   * read with no author, whatever its last line says.
   */
  lemma TrailingCRHasNoAuthor(bytes: seq<byte>)
    requires |bytes| > 0 && bytes[|bytes| - 1] == 0x0D
    ensures FortuneOfBytes(bytes) == Ok(Fortune(NormalizeLoneCR(DecodeBytes(bytes)), ""))
  {
    var t := DecodeBytes(bytes[..|bytes| - 1]);
    assert DecodeBytes(bytes) == t + "\r";
    TrailingCRHidesAuthor(t);
  }
}
