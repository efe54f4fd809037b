/** The media catalog (process.go): classification by extension, directory listing, the
    source/destination diff, and the unit choice used when printing byte counts. */
module Catalog {
  import opened Wrappers
  import opened Text
  import opened Types
  import Seqs

  /** One directory entry as `Readdir` reports it. */
  datatype DirEntry = DirEntry(name: string, size: nat)

  /** The outcome of opening a directory and then reading all of its entries. */
  datatype Listing = Listing(open: Outcome<string>, entries: Result<seq<DirEntry>, string>)

  /** Go's `path.Ext`: the suffix from the last '.' of the final path element, or "". */
  function Ext(name: string): (e: string)
    ensures |e| <= |name| && e == name[|name| - |e|..]
    ensures e != "" ==> e[0] == '.' && forall j :: 1 <= j < |e| ==> e[j] != '.' && e[j] != '/'
    ensures e == "" ==> forall j :: 0 <= j < |name| && name[j] == '.' ==>
                          exists k :: j < k < |name| && name[k] == '/'
  {
    ExtBelow(name, |name|)
  }

  /** The scan of `path.Ext` from the right, with the last `|name| - k` characters already
      seen to be neither '.' nor '/'. */
  function ExtBelow(name: string, k: nat): (e: string)
    requires k <= |name|
    requires forall j :: k <= j < |name| ==> name[j] != '.' && name[j] != '/'
    ensures |e| <= |name| && e == name[|name| - |e|..]
    ensures e != "" ==> e[0] == '.' && forall j :: 1 <= j < |e| ==> e[j] != '.' && e[j] != '/'
    ensures e == "" ==> forall j :: 0 <= j < |name| && name[j] == '.' ==>
                          exists m :: j < m < |name| && name[m] == '/'
    decreases k
  {
    if k == 0 then ""
    else if name[k - 1] == '/' then ""
    else if name[k - 1] == '.' then name[k - 1..]
    else ExtBelow(name, k - 1)
  }

  /** `guessMediaType`: classification by the extension, whatever the case of its
      letters. */
  function GuessMediaType(name: string): (t: MediaType)
    ensures t == Video <==> SameIgnoringCase(Ext(name), ".mp4")
    ensures t == JPG <==> SameIgnoringCase(Ext(name), ".jpg") || SameIgnoringCase(Ext(name), ".jpeg")
    ensures t == PNG <==> SameIgnoringCase(Ext(name), ".png")
  {
    var e := Ext(name);
    LowerEqualsIff(e, ".mp4");
    LowerEqualsIff(e, ".jpg");
    LowerEqualsIff(e, ".jpeg");
    LowerEqualsIff(e, ".png");
    match LowerAscii(e)
    case ".mp4" => Video
    case ".jpg" => JPG
    case ".jpeg" => JPG
    case ".png" => PNG
    case _ => UnknownType
  }

  /** Lower-casing cannot move a '.' or a '/', so it commutes with taking the extension. */
  lemma {:induction false} ExtBelowLower(name: string, k: nat)
    requires k <= |name|
    requires forall j :: k <= j < |name| ==> name[j] != '.' && name[j] != '/'
    ensures forall j :: k <= j < |name| ==>
              LowerAscii(name)[j] != '.' && LowerAscii(name)[j] != '/'
    ensures ExtBelow(LowerAscii(name), k) == LowerAscii(ExtBelow(name, k))
    decreases k
  {
    var low := LowerAscii(name);
    if k > 0 && name[k - 1] != '/' {
      if name[k - 1] == '.' {
        assert low[k - 1..] == LowerAscii(name[k - 1..]);
      } else {
        ExtBelowLower(name, k - 1);
      }
    }
  }

  /** Lower-casing an already lower-cased text changes nothing. */
  lemma LowerAsciiIdempotent(s: string)
    ensures LowerAscii(LowerAscii(s)) == LowerAscii(s)
  {
  }

  /** Classification ignores ASCII case: `A.MP4` and `a.mp4` are both videos. */
  lemma GuessIgnoresCase(name: string)
    ensures GuessMediaType(LowerAscii(name)) == GuessMediaType(name)
  {
    ExtBelowLower(name, |name|);
    LowerAsciiIdempotent(Ext(name));
  }

  /** A name without any '.' has no extension and so is of no known type. */
  lemma NoDotIsUnknown(name: string)
    requires forall j :: 0 <= j < |name| ==> name[j] != '.'
    ensures GuessMediaType(name) == UnknownType
  {
  }

  /** `ListMediaFiles`: open the directory, read every entry, and keep those of a known
      media type as fresh `Waiting` records. Either failure aborts the whole listing. */
  function ListMediaFiles(dir: string, listing: Listing): (r: Result<seq<MediaFile>, ScanError>)
    ensures listing.open.Fail? ==> r == Failure(OpenDirFailed(dir, listing.open.error))
    ensures listing.open.Pass? && listing.entries.Failure? ==>
              r == Failure(ListDirFailed(dir, listing.entries.error))
    ensures r.Success? ==> listing.open.Pass? && listing.entries.Success?
    ensures r.Success? ==> IsCatalogOf(dir, listing.entries.value, r.value)
  {
    if listing.open.Fail? then Failure(OpenDirFailed(dir, listing.open.error))
    else if listing.entries.Failure? then Failure(ListDirFailed(dir, listing.entries.error))
    else
      KnownEntriesCatalog(dir, listing.entries.value);
      Success(KnownEntries(dir, listing.entries.value))
  }

  /** An entry the catalog keeps: one of a known media type. */
  predicate IsKnownEntry(e: DirEntry)
  {
    GuessMediaType(e.name) != UnknownType
  }

  /** The fresh record the catalog makes of an entry. */
  function EntryRecord(dir: string, e: DirEntry): MediaFile
  {
    NewMediaFile(dir, e.name, GuessMediaType(e.name), e.size)
  }

  /** `EntryRecord` for one directory, as a function of the entry. */
  function RecordIn(dir: string): DirEntry -> MediaFile
  {
    e => EntryRecord(dir, e)
  }

  /** `files` is the catalog of `entries` through the positions `idx`: one fresh record for
      each entry of a known type, each once and in directory order. */
  ghost predicate CatalogVia(dir: string, entries: seq<DirEntry>, files: seq<MediaFile>, idx: seq<nat>)
  {
    Seqs.FilterMapVia(entries, IsKnownEntry, RecordIn(dir), files, idx)
  }

  /** `files` holds exactly the entries of a known type, in directory order, each once and
      as a fresh record. */
  ghost predicate IsCatalogOf(dir: string, entries: seq<DirEntry>, files: seq<MediaFile>)
  {
    exists idx :: CatalogVia(dir, entries, files, idx)
  }

  /** The filtering loop of `ListMediaFiles`, appending in directory order. */
  function KnownEntries(dir: string, entries: seq<DirEntry>): seq<MediaFile>
  {
    Seqs.FilterMap(entries, IsKnownEntry, RecordIn(dir))
  }

  /** The filtering loop keeps exactly the entries of a known type, in order. */
  lemma KnownEntriesCatalog(dir: string, entries: seq<DirEntry>)
    ensures IsCatalogOf(dir, entries, KnownEntries(dir, entries))
  {
    var idx := Seqs.FilterMapSelects(entries, IsKnownEntry, RecordIn(dir));
    assert CatalogVia(dir, entries, KnownEntries(dir, entries), idx);
  }

  /** The catalog of a listing is unique: nothing else satisfies the description. */
  lemma CatalogUnique(dir: string, entries: seq<DirEntry>, a: seq<MediaFile>, b: seq<MediaFile>)
    requires IsCatalogOf(dir, entries, a) && IsCatalogOf(dir, entries, b)
    ensures a == b
  {
    var ia :| CatalogVia(dir, entries, a, ia);
    var ib :| CatalogVia(dir, entries, b, ib);
    Seqs.FilterMapUnique(entries, IsKnownEntry, RecordIn(dir), a, ia, b, ib);
  }

  /** The destination diff of `DoProcess` for one source entry: the first same-named
      destination entry marks it as converted by an earlier run. */
  function Resolve(f: MediaFile, dst: seq<MediaFile>): MediaFile
  {
    match Seqs.FindFirst(dst, (d: MediaFile) => d.name == f.name)
    case None => f
    case Some(k) => f.(stage := AlreadyProcessed, shrunkSize := dst[k].size)
  }

  /** The destination diff of `DoProcess`. A source entry with a same-named destination
      entry becomes `AlreadyProcessed` with the first such entry's size; every other
      entry is left exactly as it was. */
  function ResolveStages(src: seq<MediaFile>, dst: seq<MediaFile>): (r: seq<MediaFile>)
    ensures |r| == |src|
    ensures forall i :: 0 <= i < |src| && (forall k :: 0 <= k < |dst| ==> dst[k].name != src[i].name)
              ==> r[i] == src[i]
    ensures forall i, k :: 0 <= i < |src| && 0 <= k < |dst| && dst[k].name == src[i].name
              && (forall j :: 0 <= j < k ==> dst[j].name != src[i].name)
              ==> r[i] == src[i].(stage := AlreadyProcessed, shrunkSize := dst[k].size)
  {
    seq(|src|, i requires 0 <= i < |src| => Resolve(src[i], dst))
  }

  /** The units `BytesSize` chooses between. */
  datatype SizeUnit = B | KB | MB | GB

  function Factor(u: SizeUnit): nat
  {
    match u
    case B => 1
    case KB => 1024
    case MB => 1024 * 1024
    case GB => 1024 * 1024 * 1024
  }

  /** The unit `BytesSize` prints a size in; the numeric text is not modelled. The
      printed number lies in (1, 1024] except at the two ends of the scale. */
  function BytesUnit(size: int): (u: SizeUnit)
    ensures u != B ==> size > Factor(u)
    ensures u != GB ==> size <= 1024 * Factor(u)
  {
    if size > Factor(GB) then GB
    else if size > Factor(MB) then MB
    else if size > Factor(KB) then KB
    else B
  }

  function UnitRank(u: SizeUnit): nat
  {
    match u
    case B => 0
    case KB => 1
    case MB => 2
    case GB => 3
  }

  /** A larger size never gets a smaller unit. */
  lemma BytesUnitMonotone(a: int, b: int)
    requires a <= b
    ensures UnitRank(BytesUnit(a)) <= UnitRank(BytesUnit(b))
  {
  }

  /** The thresholds are strict: exactly one MiB is still reported in KB. */
  lemma OneMiBInKB()
    ensures BytesUnit(1024 * 1024) == KB
  {
  }
}
