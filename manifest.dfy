/**
 * The in-memory part of the download manifest: items keyed by URL, kept in
 * registration order, and the `add` operation that enforces "no two items
 * share a URL; the first registration wins".
 */
module ManifestModel {

  /** One registered download. Building one is the datatype constructor. */
  datatype ManifestItem = ManifestItem(url: string, file: string, tags: seq<string>)

  /** The owned value of a manifest, as `clone`, `load` and the JSON codec see it. */
  datatype ManifestValue = ManifestValue(files: seq<ManifestItem>, downloader: string)

  /** Some item of `files` is registered under `url`. */
  predicate HasUrl(files: seq<ManifestItem>, url: string)
  {
    exists i :: 0 <= i < |files| && files[i].url == url
  }

  /** The manifest invariant: no two items share a URL. */
  predicate DistinctUrls(files: seq<ManifestItem>)
  {
    forall i, j :: 0 <= i < j < |files| ==> files[i].url != files[j].url
  }

  /** The items after one `add`: a new URL is appended, a known one is ignored. */
  function Added(files: seq<ManifestItem>, item: ManifestItem): (r: seq<ManifestItem>)
    ensures HasUrl(r, item.url)
    ensures |files| <= |r| <= |files| + 1 && r[..|files|] == files
    ensures |r| == |files| <==> HasUrl(files, item.url)
    ensures forall k :: |files| <= k < |r| ==> r[k] == item
  {
    if HasUrl(files, item.url) then files
    else
      var r := files + [item];
      assert r[|files|].url == item.url;
      r
  }

  /** The items after adding each of `items`, in order, to `files`. */
  function AddAll(files: seq<ManifestItem>, items: seq<ManifestItem>): seq<ManifestItem>
    decreases |items|
  {
    if items == [] then files else AddAll(Added(files, items[0]), items[1..])
  }

  /**
   * The reference view "URL -> registered item": every URL maps to the
   * earliest item carrying it (an earlier item overrides all later ones).
   */
  function Index(s: seq<ManifestItem>): map<string, ManifestItem>
  {
    if s == [] then map[] else Index(s[1..])[s[0].url := s[0]]
  }

  lemma {:induction false} IndexKeys(s: seq<ManifestItem>, url: string)
    ensures url in Index(s) <==> HasUrl(s, url)
  {
    if s != [] {
      IndexKeys(s[1..], url);
      if HasUrl(s[1..], url) {
        var i :| 0 <= i < |s[1..]| && s[1..][i].url == url;
        assert s[i + 1].url == url;
      }
      if HasUrl(s, url) && s[0].url != url {
        var i :| 0 <= i < |s| && s[i].url == url;
        assert s[1..][i - 1].url == url;
      }
    }
  }

  /** In a concatenation, the entries of the front part win. */
  lemma {:induction false} IndexAppend(s: seq<ManifestItem>, t: seq<ManifestItem>)
    ensures Index(s + t) == Index(t) + Index(s)
  {
    if s == [] {
      assert s + t == t;
    } else {
      assert (s + t)[1..] == s[1..] + t;
      IndexAppend(s[1..], t);
    }
  }

  /** The item registered for a URL is the first item carrying it. */
  lemma {:induction false} IndexFirst(s: seq<ManifestItem>, k: nat)
    requires k < |s|
    requires forall j :: 0 <= j < k ==> s[j].url != s[k].url
    ensures s[k].url in Index(s) && Index(s)[s[k].url] == s[k]
  {
    if k > 0 {
      forall j | 0 <= j < k - 1 ensures s[1..][j].url != s[1..][k - 1].url {
        assert s[1..][j] == s[j + 1];
      }
      IndexFirst(s[1..], k - 1);
    }
  }

  /** `add` does to the URL view exactly what appending with first-wins does. */
  lemma AddedIndex(files: seq<ManifestItem>, item: ManifestItem)
    ensures Index(Added(files, item)) == Index(files + [item])
    ensures Index(Added(files, item)) ==
            if item.url in Index(files) then Index(files) else Index(files)[item.url := item]
  {
    IndexAppend(files, [item]);
    IndexKeys(files, item.url);
    assert Index([item]) == map[item.url := item];
  }

  lemma AddedPreservesDistinct(files: seq<ManifestItem>, item: ManifestItem)
    requires DistinctUrls(files)
    ensures DistinctUrls(Added(files, item))
  {
  }

  /** A later item with an already registered URL changes nothing: first write wins. */
  lemma AddedFirstWriteWins(files: seq<ManifestItem>, first: ManifestItem, later: ManifestItem)
    requires first.url == later.url
    ensures Added(Added(files, first), later) == Added(files, first)
  {
  }

  lemma AddedIdempotent(files: seq<ManifestItem>, item: ManifestItem)
    ensures Added(Added(files, item), item) == Added(files, item)
  {
  }

  lemma {:induction false} AddAllPreservesDistinct(files: seq<ManifestItem>, items: seq<ManifestItem>)
    requires DistinctUrls(files)
    ensures DistinctUrls(AddAll(files, items))
    decreases |items|
  {
    if items != [] {
      AddedPreservesDistinct(files, items[0]);
      AddAllPreservesDistinct(Added(files, items[0]), items[1..]);
    }
  }

  /** Registering items one by one keeps, per URL, the first item offered for it. */
  lemma {:induction false} AddAllIndex(files: seq<ManifestItem>, items: seq<ManifestItem>)
    ensures Index(AddAll(files, items)) == Index(files + items)
    decreases |items|
  {
    if items == [] {
      assert files + items == files;
    } else {
      var next := Added(files, items[0]);
      calc {
        Index(AddAll(files, items));
        Index(AddAll(next, items[1..]));
        { AddAllIndex(next, items[1..]); }
        Index(next + items[1..]);
        { IndexAppend(next, items[1..]); }
        Index(items[1..]) + Index(next);
        { AddedIndex(files, items[0]); }
        Index(items[1..]) + Index(files + [items[0]]);
        { IndexAppend(files + [items[0]], items[1..]); }
        Index(files + [items[0]] + items[1..]);
        { assert files + [items[0]] + items[1..] == files + items; }
        Index(files + items);
      }
    }
  }

  /** Registered entries are never rewritten or reordered by later adds. */
  lemma {:induction false} AddAllKeepsPrefix(files: seq<ManifestItem>, items: seq<ManifestItem>)
    ensures |files| <= |AddAll(files, items)| <= |files| + |items|
    ensures AddAll(files, items)[..|files|] == files
    decreases |items|
  {
    if items != [] {
      var next := Added(files, items[0]);
      AddAllKeepsPrefix(next, items[1..]);
      assert AddAll(files, items)[..|files|] == AddAll(files, items)[..|next|][..|files|];
    }
  }

  /** Items with pairwise distinct URLs are all kept, in the order they were added. */
  lemma {:induction false} AddAllDistinctKeepsOrder(files: seq<ManifestItem>, items: seq<ManifestItem>)
    requires DistinctUrls(files + items)
    ensures AddAll(files, items) == files + items
    decreases |items|
  {
    if items != [] {
      var all := files + items;
      assert all[|files|] == items[0];
      forall i | 0 <= i < |files| ensures files[i].url != items[0].url {
        assert all[i] == files[i];
      }
      assert Added(files, items[0]) == files + [items[0]];
      assert files + [items[0]] + items[1..] == all;
      AddAllDistinctKeepsOrder(files + [items[0]], items[1..]);
    }
  }

  /**
   * Registering an item and then the same URL with another file and other
   * tags on a fresh manifest keeps exactly the first item.
   */
  lemma ExampleSameUrlTwice()
    ensures AddAll([], [ManifestItem("http://a/1", "a.bin", ["x"]),
                        ManifestItem("http://a/1", "a2.bin", ["y"])])
            == [ManifestItem("http://a/1", "a.bin", ["x"])]
  {
  }

  /** A manifest whose item list `add` updates in place. */
  class Manifest {
    var files: seq<ManifestItem>
    var downloader: string

    /** A fresh manifest for `downloader`, with no items. */
    constructor (downloader: string)
      ensures files == [] && this.downloader == downloader
      ensures DistinctUrls(files)
    {
      this.files := [];
      this.downloader := downloader;
    }

    /** The value a `clone` of this manifest yields. */
    function Value(): (v: ManifestValue)
      reads this
      ensures v.files == files && v.downloader == downloader
    {
      ManifestValue(files, downloader)
    }

    /**
     * Registers `item` unless its URL is already known, and returns a copy
     * of the resulting manifest.
     */
    method Add(item: ManifestItem) returns (snapshot: ManifestValue)
      modifies this
      ensures files == Added(old(files), item)
      ensures HasUrl(old(files), item.url) ==> files == old(files)
      ensures !HasUrl(old(files), item.url) ==> files == old(files) + [item]
      ensures DistinctUrls(old(files)) ==> DistinctUrls(files)
      ensures downloader == old(downloader)
      ensures snapshot == Value()
    {
      var current := files;
      var found := false;
      var i := 0;
      while i < |current|
        invariant 0 <= i <= |current|
        invariant !found
        invariant forall j :: 0 <= j < i ==> current[j].url != item.url
      {
        if current[i].url == item.url {
          found := true;
          break;
        }
        i := i + 1;
      }
      assert found <==> HasUrl(current, item.url);
      if !found {
        files := files + [item];
      }
      if DistinctUrls(current) {
        AddedPreservesDistinct(current, item);
      }
      snapshot := Value();
    }
  }
}
