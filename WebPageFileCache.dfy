/**
 * `WebPageFileCache`: fetched pages are kept as files in one fixed cache
 * directory, named after their URL, and served from there for twenty hours.
 * The directory is a map from file name to stored file; the network answer,
 * the outcome of deleting a file and the current time are given to each call.
 */
module FileCache {

  /** `CACHE_FILE_TIMEOUT`: twenty hours, in milliseconds. */
  const CacheFileTimeout: int := 20 * 60 * 60 * 1000

  // ----- cache file names -------------------------------------------------

  /** The characters `stripUrl` deletes, the class `[:/_&?=]`. */
  predicate IsStripped(ch: char) {
    ch == ':' || ch == '/' || ch == '_' || ch == '&' || ch == '?' || ch == '='
  }

  /** `stripUrl`: the URL with every character of `[:/_&?=]` removed. */
  function StripUrl(url: string): (stripped: string)
    ensures IsClean(stripped)
    ensures |stripped| <= |url|
  {
    if url == [] then []
    else (if IsStripped(url[0]) then [] else [url[0]]) + StripUrl(url[1..])
  }

  /** No character of `s` is one that `stripUrl` deletes. */
  predicate IsClean(s: string) {
    forall i :: 0 <= i < |s| ==> !IsStripped(s[i])
  }

  /** Stripping works piece by piece: it deletes characters and keeps the rest in order. */
  lemma {:induction false} StripUrlAppend(a: string, b: string)
    ensures StripUrl(a + b) == StripUrl(a) + StripUrl(b)
  {
    if a == [] {
      assert a + b == b;
    } else {
      assert (a + b)[0] == a[0];
      assert (a + b)[1..] == a[1..] + b;
      StripUrlAppend(a[1..], b);
    }
  }

  lemma StripUrlOne(ch: char)
    ensures StripUrl([ch]) == if IsStripped(ch) then [] else [ch]
  {
    assert [ch][1..] == [];
  }

  /** Every character that is not deleted is kept, as often as it occurs. */
  lemma {:induction false} StripUrlKeepsOthers(url: string, ch: char)
    ensures multiset(StripUrl(url))[ch] == if IsStripped(ch) then 0 else multiset(url)[ch]
  {
    if url != [] {
      StripUrlKeepsOthers(url[1..], ch);
      assert url == [url[0]] + url[1..];
    }
  }

  lemma {:induction false} StripUrlFixesClean(s: string)
    requires IsClean(s)
    ensures StripUrl(s) == s
  {
    if s != [] {
      assert !IsStripped(s[0]);
      StripUrlFixesClean(s[1..]);
    }
  }

  lemma StripUrlIdempotent(url: string)
    ensures StripUrl(StripUrl(url)) == StripUrl(url)
  {
    StripUrlFixesClean(StripUrl(url));
  }

  /** Stripping never lengthens a URL, and leaves it as long only when nothing was to be deleted. */
  lemma {:induction false} StripUrlLength(url: string)
    ensures |StripUrl(url)| <= |url|
    ensures |StripUrl(url)| == |url| <==> IsClean(url)
  {
    if url != [] {
      StripUrlLength(url[1..]);
      if IsClean(url) {
        assert IsClean(url[1..]) by {
          forall i | 0 <= i < |url[1..]| ensures !IsStripped(url[1..][i]) {
            assert url[1..][i] == url[i + 1];
          }
        }
      }
      if IsClean(url[1..]) && !IsStripped(url[0]) {
        forall i | 0 <= i < |url| ensures !IsStripped(url[i]) {
          if i > 0 {
            assert url[i] == url[1..][i - 1];
          }
        }
      }
    }
  }

  /** The name of a URL's file in the cache directory. */
  function CacheFileName(url: string): (fileName: string)
    ensures |fileName| >= 5 && fileName[|fileName| - 5..] == ".html"
    ensures IsClean(fileName[..|fileName| - 5])
  {
    StripUrl(url) + ".html"
  }

  /**
   * Two URLs share a cache file exactly when they agree once the deleted
   * characters are ignored.
   */
  lemma CacheFileNameShared(u1: string, u2: string)
    ensures CacheFileName(u1) == CacheFileName(u2) <==> StripUrl(u1) == StripUrl(u2)
  {
    var s1, s2 := StripUrl(u1), StripUrl(u2);
    if s1 + ".html" == s2 + ".html" {
      assert |s1| == |s2|;
      assert s1 == (s1 + ".html")[..|s1|];
      assert s2 == (s2 + ".html")[..|s2|];
    }
  }

  /** A cache file name holds no `/`: every cache file lies directly in the one cache directory. */
  lemma CacheFileNameIsFlat(url: string)
    ensures '/' !in CacheFileName(url)
  {
    var s := StripUrl(url);
    forall i | 0 <= i < |s + ".html"| ensures (s + ".html")[i] != '/' {
      if i < |s| {
        assert (s + ".html")[i] == s[i];
      } else {
        assert (s + ".html")[i] == ".html"[i - |s|];
      }
    }
  }

  /** URLs that differ only in deleted characters, such as `a?b=c` and `abc`, are one cache entry. */
  lemma DistinctUrlsShareEntry()
    ensures "a?b=c" != "abc"
    ensures CacheFileName("a?b=c") == CacheFileName("abc")
  {
    StripUrlAppend("a?", "b=c");
    StripUrlAppend("a", "?");
    StripUrlAppend("b", "=c");
    StripUrlAppend("=", "c");
    StripUrlOne('a');
    StripUrlOne('?');
    StripUrlOne('b');
    StripUrlOne('=');
    StripUrlOne('c');
    StripUrlFixesClean("abc");
    assert "a?" == "a" + "?";
    assert "b=c" == "b" + "=c";
    assert "=c" == "=" + "c";
    assert "a?b=c" == "a?" + "b=c";
  }

  // ----- staleness -----------------------------------------------------------

  /**
   * The reload test of `handle`, over what `File` reports: whether the file
   * exists, its length and its modification time (`File` reports 0 for both
   * when the file does not exist).
   */
  function NeedsReload(present: bool, length: int, lastModified: int, now: int): (reload: bool)
    ensures !present || length == 0 ==> reload
    ensures now > lastModified + CacheFileTimeout ==> reload
    ensures present && length != 0 && now <= lastModified + CacheFileTimeout ==> !reload
  {
    !present || length == 0 || now - lastModified > CacheFileTimeout
  }

  /** The age limit is strict: a non-empty file exactly twenty hours old is still served. */
  lemma ReloadBoundary(length: int, lastModified: int)
    requires length != 0
    ensures !NeedsReload(true, length, lastModified, lastModified + 72_000_000)
    ensures NeedsReload(true, length, lastModified, lastModified + 72_000_001)
  {
  }

  /** A stored file: its content and modification time. */
  datatype CachedFile = CachedFile(content: string, lastModified: int)

  /** The cache directory: its files by name. */
  type Directory = map<string, CachedFile>

  /** The reload test applied to the file of `url` in `dir`. */
  function Stale(dir: Directory, url: string, now: int): (stale: bool)
    ensures var name := CacheFileName(url);
      stale <==> name !in dir || dir[name].content == [] || now > dir[name].lastModified + CacheFileTimeout
  {
    var name := CacheFileName(url);
    NeedsReload(
      name in dir,
      if name in dir then |dir[name].content| else 0,
      if name in dir then dir[name].lastModified else 0,
      now)
  }

  // ----- handle and clear -----------------------------------------------------

  datatype IoFailure = FetchFailed | DeleteFailed | DirectoryNotRemoved

  /** A value, or the `IOException` that replaced it. */
  datatype IoResult<T> = Ok(value: T) | IOException(cause: IoFailure)

  /** What one `handle` call yields: the page, the directory afterwards, and whether the URL was fetched. */
  datatype Outcome = Outcome(page: IoResult<string>, dir: Directory, fetched: bool)

  /**
   * One `handle` call. `response` is what fetching `url` would give, and
   * `deleteSucceeds` whether `File.delete` of an existing stale file works.
   */
  function HandleStep(dir: Directory, url: string, now: int, response: IoResult<string>, deleteSucceeds: bool)
    : (o: Outcome)
    ensures o.fetched <==> Stale(dir, url, now)
    ensures !o.fetched ==> o.dir == dir
    ensures o.page.Ok? ==> CacheFileName(url) in o.dir && o.dir[CacheFileName(url)].content == o.page.value
    ensures o.fetched && o.page.Ok? ==> response == o.page && o.dir[CacheFileName(url)].lastModified == now
    ensures o.page.IOException? ==> o.dir == dir
    ensures o.page.IOException? <==>
      Stale(dir, url, now) && (response.IOException? || (CacheFileName(url) in dir && !deleteSucceeds))
    ensures forall name :: name != CacheFileName(url) ==>
      (name in o.dir <==> name in dir) && (name in dir ==> o.dir[name] == dir[name])
  {
    var name := CacheFileName(url);
    if Stale(dir, url, now) then
      if response.IOException? then Outcome(response, dir, true)
      else if name in dir && !deleteSucceeds then Outcome(IOException(DeleteFailed), dir, true)
      else Outcome(response, dir[name := CachedFile(response.value, now)], true)
    else
      Outcome(Ok(dir[name].content), dir, false)
  }

  /** After `clear`, every URL is reloaded. */
  lemma ClearedCacheReloads(url: string, now: int)
    ensures Stale(map[], url, now)
  {
  }

  /**
   * A page that was just fetched and stored is served from the cache, without
   * fetching, by any later call within twenty hours, whatever the network
   * would answer then.
   */
  lemma ServedWithinTimeout(dir: Directory, url: string, t1: int, t2: int, page: string, d1: bool,
                            response2: IoResult<string>, d2: bool)
    requires page != []
    requires HandleStep(dir, url, t1, Ok(page), d1).fetched
    requires HandleStep(dir, url, t1, Ok(page), d1).page.Ok?
    requires t1 <= t2 <= t1 + CacheFileTimeout
    ensures var o1 := HandleStep(dir, url, t1, Ok(page), d1);
      var o2 := HandleStep(o1.dir, url, t2, response2, d2);
      !o2.fetched && o2.page == Ok(page) && o2.dir == o1.dir
  {
  }

  /** After `clear`, two calls within twenty hours fetch once and return the same page. */
  lemma ClearThenTwice(url: string, t1: int, t2: int, page: string, response2: IoResult<string>, d: bool)
    requires page != []
    requires t1 <= t2 <= t1 + CacheFileTimeout
    ensures var o1 := HandleStep(map[], url, t1, Ok(page), d);
      var o2 := HandleStep(o1.dir, url, t2, response2, d);
      o1.fetched && !o2.fetched && o1.page == Ok(page) && o2.page == o1.page
  {
    ClearedCacheReloads(url, t1);
    ServedWithinTimeout(map[], url, t1, t2, page, d, response2, d);
  }

  /** Once older than twenty hours, the stored page is fetched again. */
  lemma ExpiredEntryRefetched(dir: Directory, url: string, t1: int, t2: int, page: string, d1: bool,
                              response2: IoResult<string>, d2: bool)
    requires HandleStep(dir, url, t1, Ok(page), d1).page.Ok?
    requires t2 > t1 + CacheFileTimeout
    ensures var o1 := HandleStep(dir, url, t1, Ok(page), d1);
      o1.fetched ==> HandleStep(o1.dir, url, t2, response2, d2).fetched
  {
  }

  /** An empty page is never served from the cache: the next call fetches again. */
  lemma EmptyPageRefetched(dir: Directory, url: string, t1: int, t2: int, d1: bool,
                           response2: IoResult<string>, d2: bool)
    requires HandleStep(dir, url, t1, Ok([]), d1).fetched
    requires HandleStep(dir, url, t1, Ok([]), d1).page.Ok?
    ensures var o1 := HandleStep(dir, url, t1, Ok([]), d1);
      HandleStep(o1.dir, url, t2, response2, d2).fetched
  {
  }

  /** A URL that strips to the same name is served the page stored for the other one. */
  lemma SharedEntryServed(dir: Directory, u1: string, u2: string, t1: int, t2: int, page: string, d1: bool,
                          response2: IoResult<string>, d2: bool)
    requires StripUrl(u1) == StripUrl(u2)
    requires page != []
    requires Stale(dir, u1, t1)
    requires CacheFileName(u1) in dir ==> d1
    requires t1 <= t2 <= t1 + CacheFileTimeout
    ensures var o1 := HandleStep(dir, u1, t1, Ok(page), d1);
      var o2 := HandleStep(o1.dir, u2, t2, response2, d2);
      !o2.fetched && o2.page == Ok(page)
  {
    CacheFileNameShared(u1, u2);
  }

  /**
   * `CACHE_DIR`: the one cache directory of the process. It is a static field
   * in the source, so every `WebPageFileCache` reads and writes the same files.
   */
  class CacheDirectory {
    var files: Directory

    constructor(existing: Directory)
      ensures files == existing
    {
      files := existing;
    }
  }

  /**
   * A cache object: it works on the shared directory and keeps, as a record
   * for the proofs only, the URLs it has fetched from the network.
   */
  class WebPageFileCache {
    const store: CacheDirectory
    ghost var fetched: seq<string>

    /** A cache over the shared directory, whatever it already holds. */
    constructor(store: CacheDirectory)
      ensures this.store == store && fetched == []
    {
      this.store := store;
      fetched := [];
    }

    /**
     * `handle`: on a stale or missing file, fetch the page, delete the old
     * file, save the new one and return the fetched page; otherwise load the
     * stored file without touching the network.
     */
    method Handle(url: string, now: int, response: IoResult<string>, deleteSucceeds: bool)
      returns (page: IoResult<string>)
      modifies this, store
      ensures var o := HandleStep(old(store.files), url, now, response, deleteSucceeds);
        && page == o.page
        && store.files == o.dir
        && fetched == old(fetched) + (if o.fetched then [url] else [])
      ensures !Stale(old(store.files), url, now) ==> fetched == old(fetched) && store.files == old(store.files)
    {
      var name := CacheFileName(url);
      var present := name in store.files;
      var length := if present then |store.files[name].content| else 0;
      var lastModified := if present then store.files[name].lastModified else 0;
      if NeedsReload(present, length, lastModified, now) {
        fetched := fetched + [url];
        if response.IOException? {
          return response;
        }
        if name in store.files {
          if !deleteSucceeds {
            return IOException(DeleteFailed);
          }
          store.files := map n | n in store.files && n != name :: store.files[n];
        }
        store.files := store.files[name := CachedFile(response.value, now)];
        return response;
      }
      return Ok(store.files[name].content);
    }

    /** `clear`: remove the whole cache directory, or fail with the directory left as it was. */
    method Clear(removable: bool) returns (r: IoResult<()>)
      modifies store
      ensures removable ==> r == Ok(()) && store.files == map[]
      ensures !removable ==> r == IOException(DirectoryNotRemoved) && store.files == old(store.files)
      ensures fetched == old(fetched)
    {
      if !removable {
        return IOException(DirectoryNotRemoved);
      }
      store.files := map[];
      return Ok(());
    }
  }

  /**
   * Two cache objects over the one directory: after a clear, what one fetches
   * the other serves without fetching, whatever the network would answer; a
   * clear through the second makes the first fetch again.
   */
  method TwoCachesShareDirectory(store: CacheDirectory, url: string, t1: int, t2: int, page: string,
                                 response2: IoResult<string>, response3: IoResult<string>, d: bool)
    returns (p1: IoResult<string>, p2: IoResult<string>, p3: IoResult<string>)
    requires page != []
    requires t1 <= t2 <= t1 + CacheFileTimeout
    modifies store
    ensures p1 == Ok(page) && p2 == Ok(page)
    ensures p3 == response3
  {
    var a := new WebPageFileCache(store);
    var b := new WebPageFileCache(store);
    var cleared := a.Clear(true);
    p1 := a.Handle(url, t1, Ok(page), d);
    ClearThenTwice(url, t1, t2, page, response2, d);
    p2 := b.Handle(url, t2, response2, d);
    assert b.fetched == [];
    cleared := b.Clear(true);
    ClearedCacheReloads(url, t2);
    p3 := a.Handle(url, t2, response3, d);
    assert a.fetched == [url, url];
  }
}
