# Kyanite download manifest, modelled in Dafny

The model covers the download manifest of kyanite-collector (`src/manifest.rs`).
A manifest belongs to one downloader, named by a string. It holds an ordered list
of items, and each item has a URL, a local file path and a list of tags.
`add` registers an item unless an item with the same URL is already there, so the
first registration of a URL wins, and `add` never adds a second item for a URL it already holds.
A list whose URLs are distinct stays distinct under `add`. `load` returns whatever the parser gives,
and the public `files` field can be set directly, so neither of those is covered by that guarantee.
`load` and `save` keep the manifest on disk at `downloads/<downloader>/manifest.json.gz`.
The file holds gzip-compressed JSON.

Files:

- `wrappers.dfy` (module `Wrappers`): `Option` and `Result`.
- `manifest.dfy` (module `ManifestModel`): the item and manifest values and the
  class `Manifest`, whose `Add` scans the list with a `while` loop and a `break` and
  appends in place, as the source does. `Added` is the pure function that specifies
  one `add`, and `AddAll` specifies a series of adds. `Index` is an independent reference
  view: a map from each URL to the earliest item carrying it. The lemmas tie `Added` and
  `AddAll` to that view and to the invariant "no two items share a URL".
- `storage.dfy` (module `ManifestStorage`): the storage path and its inverse, the gzip
  header fields, and `load` and `save` as functions. They work over a disk that is a map
  from paths to bytes, and they take the codecs as parameters:
  `gunzip` (decompress and decode UTF-8), `parse` (JSON to manifest),
  `serialize` (manifest to JSON) and `compress` (gzip with a header). Each codec
  returns `None` when it fails. The errors are named by the stage that failed.
  The mapping onto the crate's `KyaniteError` (in `crate::error`) is not part of this model.

`KyaniteManifestItem::new` is the datatype constructor `ManifestItem(url, file, tags)`.
The value that `clone()` and the JSON codec handle is the datatype `ManifestValue`.
A `Manifest` object gives it through `Value()`.

## Model

| member | source | states |
|---|---|---|
| `ManifestModel.Manifest.constructor` | src/manifest.rs:29-34 | a new manifest has no items and the given downloader, so it trivially has distinct URLs |
| `ManifestModel.Manifest.Value` | src/manifest.rs:64 | the copy returned by `add` has exactly the object's items and downloader |
| `ManifestModel.Manifest.Add` | src/manifest.rs:48-65 | if some item already has the URL, the items are unchanged; otherwise they become the old items followed by the new one; distinct URLs are preserved; the downloader is unchanged; the returned value equals the new state |
| `ManifestModel.Added` | src/manifest.rs:48-58 | after one add the URL is registered, the old items are an unchanged prefix, the list grows by at most one, it keeps its length exactly when the URL was already known, and any new entry is the added item |
| `ManifestModel.AddedPreservesDistinct` | src/manifest.rs:48-58 | one add keeps all URLs pairwise distinct |
| `ManifestModel.AddedFirstWriteWins` | src/manifest.rs:50-57 | adding a second item with an already registered URL (any file and tags) changes nothing |
| `ManifestModel.AddedIdempotent` | src/manifest.rs:48-58 | adding the same item twice gives the same items as adding it once |
| `ManifestModel.IndexKeys` | src/manifest.rs:50-55 | a URL has an entry in the URL view exactly when some item carries it, which is what the scan looks for |
| `ManifestModel.IndexFirst` | src/manifest.rs:50-57 | in the URL view, each URL maps to the first item that carries it |
| `ManifestModel.AddedIndex` | src/manifest.rs:48-58 | one add changes the URL view only by giving a new URL its item; a known URL keeps its entry |
| `ManifestModel.AddAllPreservesDistinct` | src/manifest.rs:48-58 | any series of adds keeps URLs pairwise distinct |
| `ManifestModel.AddAllIndex` | src/manifest.rs:48-58 | after a series of adds, each URL maps to the first item offered for it, counting the existing items first |
| `ManifestModel.AddAllKeepsPrefix` | src/manifest.rs:56-57 | a series of adds never rewrites or reorders existing entries and adds at most one entry per item |
| `ManifestModel.AddAllDistinctKeepsOrder` | src/manifest.rs:56-57 | items whose URLs are all distinct are all kept, in the order they were added |
| `ManifestModel.ExampleSameUrlTwice` | src/manifest.rs:48-58 | registering `http://a/1` as `a.bin` with tag `x` and then as `a2.bin` with tag `y` keeps only the first item |
| `ManifestStorage.FolderPath` | src/manifest.rs:37 | the folder is `downloads/` followed by the downloader name |
| `ManifestStorage.StoragePath` | src/manifest.rs:37-45 | the path is `downloads/`, then the downloader name, then `/manifest.json.gz` |
| `ManifestStorage.DownloaderOfPath` | src/manifest.rs:37-45 | any downloader recovered from a path gives back that same path |
| `ManifestStorage.StoragePathRoundTrip` | src/manifest.rs:37-45 | the downloader is recovered from its own manifest path |
| `ManifestStorage.StoragePathInjective` | src/manifest.rs:37-45 | two different downloaders never share a manifest path |
| `ManifestStorage.SaveHeader` | src/manifest.rs:91-94 | the gzip header has file name `<downloader>_manifest.json`, comment `Kyanite manifest for <downloader>` and the best compression level, 9 |
| `ManifestStorage.SaveHeaderIdentifiesDownloader` | src/manifest.rs:92-93 | two different downloaders never get the same gzip header |
| `ManifestStorage.LoadFrom` | src/manifest.rs:67-85 | a missing file is an I/O error and bad gzip is a decompression error; empty decompressed text returns the caller's value unchanged, whatever items it holds; other text returns the parsed value, or a deserialization error |
| `ManifestStorage.SaveTo` | src/manifest.rs:88-103 | a serialization failure or a compression failure is an error; when both succeed the result is `Ok` with the compressed text written to the downloader's path; on success only the downloader's own file is written, with the compressed JSON under that downloader's header, and every other file is kept |
| `ManifestStorage.SaveThenLoad` | src/manifest.rs:67-97 | when the codecs invert each other on `m`, saving `m` and loading into any manifest of the same downloader gives `m`; if the serialized text were empty, the loading manifest would keep its own value instead |
| `ManifestStorage.SaveLeavesOtherDownloaders` | src/manifest.rs:67-97 | on a disk keyed by exact path strings, saving one downloader's manifest does not change what any other downloader loads |

## Left out

- Directory creation in `get_path` (src/manifest.rs:38-43) is left out. The model has no directories, and it does not model the I/O error that `create_dir_all` can raise.
- Opening and reading the file (src/manifest.rs:69-71) are modelled only as a lookup in the disk map. A missing file gives `IoError`. Other open and read failures are not modelled.
- `SaveTo`: `File::create`, `write_all` and `finish` (src/manifest.rs:94-97) are all folded into the `compress` parameter, and any failure there is reported as `CompressionError`. A serialization failure returns before `File::create` (src/manifest.rs:90, 94), so the old file stays intact; the error result carries no disk, and the caller's disk is the unchanged one. After a failure from `File::create` onward, the source leaves the file undefined (possibly truncated). The model does not capture that: it returns only `CompressionError` and says nothing about the file.
- gzip (RFC 1952) and DEFLATE (RFC 1951) through `flate2`, and JSON (RFC 8259) through `serde_json`, are foreign code. They are function parameters, not definitions. The save-then-load round trip holds only under the stated assumption that the codecs invert each other on the value saved. The model does not prove that assumption.
- `SaveLeavesOtherDownloaders`: the disk is keyed by the exact path string, so names that the operating system resolves to one file are separate files in the model. For example, downloaders `a/` and `a` give `downloads/a//manifest.json.gz` and `downloads/a/manifest.json.gz`, which are the same file on disk; `""` and `.`, or `b/../a` and `a`, behave the same way, and so do `A` and `a` on a case-insensitive file system. For such pairs, saving one manifest does change what the other loads in the source. The lemma does not cover that.
- The `debug!` log messages are side effects only and are not modelled.
- Concurrent saves and loads are not modelled, and neither is locking. The source has no locking.
