/**
 * Where a manifest is stored and how `load` and `save` move it between memory
 * and that file. The filesystem is a map from paths to file contents; the gzip
 * and JSON codecs are function parameters whose `None` stands for a failure.
 */
module ManifestStorage {
  import opened Wrappers
  import opened ManifestModel

  type Bytes = seq<bv8>

  /** The files that exist, by path, with their contents. */
  type Disk = map<string, Bytes>

  /** Why a load or save failed, by the stage that failed. */
  datatype ManifestError =
    | IoError
    | DecompressionError
    | DeserializationError
    | SerializationError
    | CompressionError

  const StorageRoot: string := "downloads"
  const ManifestFileName: string := "manifest.json.gz"

  /** `Compression::best()` of the gzip writer. */
  const BestCompression: nat := 9

  /** The per-downloader directory under the storage root. */
  function FolderPath(downloader: string): (p: string)
    ensures |p| == |downloader| + 10
    ensures p[..10] == "downloads/" && p[10..] == downloader
  {
    StorageRoot + "/" + downloader
  }

  /** The manifest file of a downloader: `downloads/<downloader>/manifest.json.gz`. */
  function StoragePath(downloader: string): (p: string)
    ensures |p| == |downloader| + 27
    ensures p[..10] == "downloads/"
    ensures p[10..|p| - 17] == downloader
    ensures p[|p| - 17..] == "/manifest.json.gz"
  {
    var p := FolderPath(downloader) + "/" + ManifestFileName;
    assert p[..10] == FolderPath(downloader)[..10];
    assert p[10..|p| - 17] == FolderPath(downloader)[10..];
    p
  }

  /** Recovers the downloader from a manifest path; `None` for any other path. */
  function DownloaderOfPath(p: string): (d: Option<string>)
    ensures d.Some? ==> StoragePath(d.value) == p
  {
    if 27 <= |p| && p[..10] == "downloads/" && p[|p| - 17..] == "/manifest.json.gz" then
      var d := p[10..|p| - 17];
      var q := StoragePath(d);
      assert q == q[..10] + q[10..|q| - 17] + q[|q| - 17..];
      assert p == p[..10] + p[10..|p| - 17] + p[|p| - 17..];
      Some(d)
    else
      None
  }

  lemma StoragePathRoundTrip(downloader: string)
    ensures DownloaderOfPath(StoragePath(downloader)) == Some(downloader)
  {
  }

  /** Different downloaders never share a manifest path string. */
  lemma StoragePathInjective(d1: string, d2: string)
    requires d1 != d2
    ensures StoragePath(d1) != StoragePath(d2)
  {
  }

  /** The gzip header fields `save` writes. */
  datatype GzipHeader = GzipHeader(filename: string, comment: string, level: nat)

  /** The header of a downloader's saved manifest. */
  function SaveHeader(downloader: string): (h: GzipHeader)
    ensures h.filename == downloader + "_manifest.json"
    ensures h.comment == "Kyanite manifest for " + downloader
    ensures h.level == BestCompression
  {
    GzipHeader(downloader + "_manifest.json", "Kyanite manifest for " + downloader, BestCompression)
  }

  /** The header names its downloader: two downloaders never get the same header. */
  lemma SaveHeaderIdentifiesDownloader(d1: string, d2: string)
    requires SaveHeader(d1) == SaveHeader(d2)
    ensures d1 == d2
  {
    var c1, c2 := SaveHeader(d1).comment, SaveHeader(d2).comment;
    assert c1[21..] == d1;
    assert c2[21..] == d2;
  }

  /**
   * `load` for the manifest `current`: read its file, decompress it, and
   * either keep `current` (empty text) or take the parsed manifest.
   */
  function LoadFrom(current: ManifestValue, disk: Disk,
                    gunzip: Bytes -> Option<string>,
                    parse: string -> Option<ManifestValue>): (r: Result<ManifestValue, ManifestError>)
    ensures StoragePath(current.downloader) !in disk ==> r == Err(IoError)
    ensures var path := StoragePath(current.downloader);
            path in disk && gunzip(disk[path]) == None ==> r == Err(DecompressionError)
    ensures var path := StoragePath(current.downloader);
            path in disk && gunzip(disk[path]) == Some("") ==> r == Ok(current)
    ensures var path := StoragePath(current.downloader);
            path in disk && gunzip(disk[path]).Some? && gunzip(disk[path]).value != "" ==>
              (r.Ok? <==> parse(gunzip(disk[path]).value).Some?) &&
              (r.Ok? ==> r.value == parse(gunzip(disk[path]).value).value) &&
              (r.Err? ==> r.error == DeserializationError)
  {
    var path := StoragePath(current.downloader);
    if path !in disk then Err(IoError)
    else
      match gunzip(disk[path])
      case None => Err(DecompressionError)
      case Some(contents) =>
        if contents != "" then
          match parse(contents)
          case None => Err(DeserializationError)
          case Some(manifest) => Ok(manifest)
        else
          Ok(current)
  }

  /**
   * `save` for the manifest `m`: serialize it, compress it with the header
   * naming its downloader, and write the result over its file.
   */
  function SaveTo(m: ManifestValue, disk: Disk,
                  serialize: ManifestValue -> Option<string>,
                  compress: (GzipHeader, string) -> Option<Bytes>): (r: Result<Disk, ManifestError>)
    ensures serialize(m) == None ==> r == Err(SerializationError)
    ensures serialize(m).Some? && compress(SaveHeader(m.downloader), serialize(m).value) == None ==>
              r == Err(CompressionError)
    ensures serialize(m).Some? && compress(SaveHeader(m.downloader), serialize(m).value).Some? ==>
              r == Ok(disk[StoragePath(m.downloader) :=
                             compress(SaveHeader(m.downloader), serialize(m).value).value])
    // Corollaries of the three clauses above, spelled out for readers:
    // a successful save writes only the downloader's own path.
    ensures r.Ok? ==> r.value.Keys == disk.Keys + {StoragePath(m.downloader)}
    ensures r.Ok? ==> serialize(m).Some?
    ensures r.Ok? ==> compress(SaveHeader(m.downloader), serialize(m).value) ==
                      Some(r.value[StoragePath(m.downloader)])
    ensures r.Ok? ==> forall p :: p in disk && p != StoragePath(m.downloader) ==> r.value[p] == disk[p]
  {
    var path := StoragePath(m.downloader);
    match serialize(m)
    case None => Err(SerializationError)
    case Some(text) =>
      match compress(SaveHeader(m.downloader), text)
      case None => Err(CompressionError)
      case Some(bytes) => Ok(disk[path := bytes])
  }

  /**
   * Saving `m` and loading it back into any manifest of the same downloader
   * gives `m`, provided the codecs invert each other on it, unless the
   * serialized text is empty: then the loading manifest keeps its own value.
   */
  lemma SaveThenLoad(m: ManifestValue, current: ManifestValue, disk: Disk,
                     serialize: ManifestValue -> Option<string>,
                     compress: (GzipHeader, string) -> Option<Bytes>,
                     gunzip: Bytes -> Option<string>,
                     parse: string -> Option<ManifestValue>,
                     text: string, bytes: Bytes)
    requires current.downloader == m.downloader
    requires serialize(m) == Some(text)
    requires compress(SaveHeader(m.downloader), text) == Some(bytes)
    requires gunzip(bytes) == Some(text)
    requires text != "" ==> parse(text) == Some(m)
    ensures SaveTo(m, disk, serialize, compress) == Ok(disk[StoragePath(m.downloader) := bytes])
    ensures LoadFrom(current, disk[StoragePath(m.downloader) := bytes], gunzip, parse) ==
            Ok(if text == "" then current else m)
  {
  }

  /**
   * Saving one downloader's manifest does not change what another one loads,
   * on a disk that identifies each file by its exact path string.
   */
  lemma SaveLeavesOtherDownloaders(m: ManifestValue, current: ManifestValue, disk: Disk, saved: Disk,
                                   serialize: ManifestValue -> Option<string>,
                                   compress: (GzipHeader, string) -> Option<Bytes>,
                                   gunzip: Bytes -> Option<string>,
                                   parse: string -> Option<ManifestValue>)
    requires m.downloader != current.downloader
    requires SaveTo(m, disk, serialize, compress) == Ok(saved)
    ensures LoadFrom(current, saved, gunzip, parse) == LoadFrom(current, disk, gunzip, parse)
  {
  }
}
