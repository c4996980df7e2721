/** The cache of remote heads that decides whether a fetch can be skipped. */
module RemoteHeads {
  import opened Common
  import opened CommitGraph

  datatype Entry = Entry(url: string, branch: string, sha: Hash)

  type Entries = map<string, Entry>

  function CacheKey(url: string, branch: string): string {
    url + ":" + branch
  }

  /** Branch names contain no colon, so the key determines URL and branch. */
  lemma CacheKeyInjective(url: string, branch: string, url': string, branch': string)
    requires ':' !in branch && ':' !in branch' && CacheKey(url, branch) == CacheKey(url', branch')
    ensures url == url' && branch == branch'
  {
    var key := CacheKey(url, branch);
    assert key[|url|] == ':' && key[|url'|] == ':';
    assert forall i :: |url| < i < |key| ==> key[i] in branch;
    assert forall i :: |url'| < i < |key| ==> key[i] in branch';
    assert url == key[..|url|] && branch == key[|url| + 1..];
    assert url' == key[..|url'|] && branch' == key[|url'| + 1..];
  }

  /** With a colon in a branch name, two sources can share a key. */
  lemma ColonCollides()
    ensures CacheKey("a", "b:c") == CacheKey("a:b", "c")
  {
    assert CacheKey("a", "b:c") == "a:b:c" == CacheKey("a:b", "c");
  }

  /** A fetch is needed unless the remote head could be listed and is the cached one. */
  predicate FetchNeeded(entries: Entries, url: string, branch: string, listed: Option<Hash>) {
    || listed.None?
    || CacheKey(url, branch) !in entries
    || entries[CacheKey(url, branch)].sha != listed.value
  }

  class RemoteHeadCache {
    var entries: Entries

    constructor ()
      ensures entries == map[]
    {
      entries := map[];
    }

    method Get(url: string, branch: string) returns (entry: Option<Entry>)
      ensures entry.Some? <==> CacheKey(url, branch) in entries
      ensures entry.Some? ==> entry.value == entries[CacheKey(url, branch)]
    {
      var key := CacheKey(url, branch);
      entry := if key in entries then Some(entries[key]) else None;
    }

    method Set(url: string, branch: string, sha: Hash)
      modifies this
      ensures entries == old(entries)[CacheKey(url, branch) := Entry(url, branch, sha)]
    {
      entries := entries[CacheKey(url, branch) := Entry(url, branch, sha)];
    }

    method Delete(url: string, branch: string)
      modifies this
      ensures entries == old(entries) - {CacheKey(url, branch)}
    {
      entries := entries - {CacheKey(url, branch)};
    }

    /** Removes the entries of a URL on all branches; an empty URL removes nothing. */
    method DeleteByURL(url: string)
      modifies this
      ensures entries == if url == "" then old(entries) else Without(old(entries), url)
      ensures forall k :: k in entries <==> k in old(entries) && (url == "" || old(entries)[k].url != url)
      ensures forall k :: k in entries ==> entries[k] == old(entries)[k]
    {
      if url == "" {
        return;
      }
      var keys := entries.Keys;
      while keys != {}
        invariant keys <= old(entries).Keys
        invariant forall k :: k in entries <==> k in old(entries) && (k in keys || old(entries)[k].url != url)
        invariant forall k :: k in entries ==> entries[k] == old(entries)[k]
      {
        var key :| key in keys;
        keys := keys - {key};
        if key in entries && entries[key].url == url {
          entries := entries - {key};
        }
      }
    }
  }

  function Without(entries: Entries, url: string): Entries {
    map k | k in entries && entries[k].url != url :: entries[k]
  }

  /** Decides about a fetch from the listed remote head (none if listing failed); without a cache, or
      without a listed head, the fetch goes ahead and no head is reported. */
  method CheckRemoteChanged(cache: RemoteHeadCache?, url: string, branch: string, listed: Option<Hash>)
    returns (changed: bool, current: Option<Hash>)
    ensures changed <==> cache == null || FetchNeeded(cache.entries, url, branch, listed)
    ensures !changed <==> cache != null && listed.Some? && url + ":" + branch in cache.entries
                          && cache.entries[url + ":" + branch].sha == listed.value
    ensures current == if cache == null then None else listed
  {
    if cache == null {
      return true, None;
    }
    if listed.None? {
      return true, None;
    }
    var cached := cache.Get(url, branch);
    if cached.None? {
      return true, listed;
    }
    if cached.value.sha != listed.value {
      return true, listed;
    }
    return false, listed;
  }
}
