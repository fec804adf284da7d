/**
 * The process-wide answer cache of models/managers/cache.py: a list of entries
 * that only grows, newest first, searched front to back for the first entry
 * whose key matches the normalised query.
 */
module Cache {
  import opened Wrappers
  import opened Strings

  /**
   * The cache key of a query. The source hashes `query.lower().strip()` with
   * md5; the hash is modelled as the identity, an injective function of the
   * normalised text, so two queries share a key exactly when their
   * normalised texts agree.
   */
  function Key(query: string): string {
    Strip(Lower(query))
  }

  /** One cached answer, with the wall-clock time it was stored and the time it took to compute. */
  datatype Entry = Entry(key: string, query: string, result: string, timestamp: real, processingTime: real)

  /** The entry a front-to-back scan finds first for `key`, if any. */
  function Lookup(entries: seq<Entry>, key: string): (r: Option<Entry>)
    ensures r.None? <==> forall i :: 0 <= i < |entries| ==> entries[i].key != key
    ensures r.Some? ==> exists i :: 0 <= i < |entries| && entries[i] == r.value
                          && entries[i].key == key
                          && forall j :: 0 <= j < i ==> entries[j].key != key
  {
    if entries == [] then None
    else if entries[0].key == key then Some(entries[0])
    else
      var r := Lookup(entries[1..], key);
      if r.Some? then
        var i :| 0 <= i < |entries[1..]| && entries[1..][i] == r.value && entries[1..][i].key == key
                 && forall j :: 0 <= j < i ==> entries[1..][j].key != key;
        assert entries[i + 1] == r.value;
        r
      else r
  }

  /** Queries that differ only in letter case or in surrounding whitespace share a key. */
  lemma KeyIgnoresCaseAndPadding(p: string, query: string, q: string)
    requires AllSpace(p) && AllSpace(q)
    ensures Key(Lower(query)) == Key(query)
    ensures Key(p + query + q) == Key(query)
  {
    LowerIdempotent(query);
    LowerConcat(p + query, q);
    LowerConcat(p, query);
    assert AllSpace(Lower(p)) && AllSpace(Lower(q));
    StripPadded(Lower(p), Lower(query), Lower(q));
  }

  /** The list after `set_cache` stored the entries `news` in order on `entries`: each goes in front. */
  function Replay(entries: seq<Entry>, news: seq<Entry>): (r: seq<Entry>)
    ensures |r| == |entries| + |news|
  {
    if news == [] then entries
    else [news[|news| - 1]] + Replay(entries, news[..|news| - 1])
  }

  /** Index of the last stored entry in `news` with key `key`. */
  function LatestFor(news: seq<Entry>, key: string): (r: Option<nat>)
    ensures r.Some? ==> r.value < |news|
  {
    if news == [] then None
    else if news[|news| - 1].key == key then Some(|news| - 1)
    else LatestFor(news[..|news| - 1], key)
  }

  /** `LatestFor` picks an entry with that key, and no later one has it; `None` means none has it. */
  lemma {:induction false} LatestForIsLatest(news: seq<Entry>, key: string)
    ensures LatestFor(news, key).Some? ==>
      var j := LatestFor(news, key).value;
      news[j].key == key && forall k :: j < k < |news| ==> news[k].key != key
    ensures LatestFor(news, key).None? ==> forall k :: 0 <= k < |news| ==> news[k].key != key
  {
    if news != [] && news[|news| - 1].key != key {
      var init := news[..|news| - 1];
      LatestForIsLatest(init, key);
      assert forall k :: 0 <= k < |init| ==> init[k] == news[k];
    }
  }

  /**
   * Shadowing: after any sequence of `set_cache` calls, a lookup finds the
   * entry of the most recent call for that key, and only when no call used
   * the key does it find whatever the list held before.
   */
  lemma {:induction false} LookupFindsLatest(entries: seq<Entry>, news: seq<Entry>, key: string)
    ensures Lookup(Replay(entries, news), key) ==
      match LatestFor(news, key)
      case Some(j) => Some(news[j])
      case None => Lookup(entries, key)
  {
    if news != [] && news[|news| - 1].key != key {
      LookupFindsLatest(entries, news[..|news| - 1], key);
    }
  }

  class ResponseCache {
    /** The module-level list `cache`, newest entry first. */
    var entries: seq<Entry>

    constructor ()
      ensures entries == []
    {
      entries := [];
    }

    /**
     * `get_cache`: the result and processing time of the first entry whose
     * key matches, or `(None, False, 0)` when no entry matches. Reads only.
     */
    method Get(query: string) returns (result: Option<string>, hit: bool, timeSaved: real)
      ensures hit <==> exists i :: 0 <= i < |entries| && entries[i].key == Key(query)
      ensures hit ==> result == Some(Lookup(entries, Key(query)).value.result)
                      && timeSaved == Lookup(entries, Key(query)).value.processingTime
      ensures !hit ==> result == None && timeSaved == 0.0
    {
      var key := Key(query);
      var i := 0;
      while i < |entries|
        invariant 0 <= i <= |entries|
        invariant Lookup(entries, key) == Lookup(entries[i..], key)
      {
        if entries[i].key == key {
          return Some(entries[i].result), true, entries[i].processingTime;
        }
        assert entries[i..][1..] == entries[i + 1..];
        i := i + 1;
      }
      return None, false, 0.0;
    }

    /**
     * `set_cache`: the new entry goes in front, every earlier entry keeps its
     * place behind it, and nothing is ever removed.
     */
    method Set(query: string, result: string, processingTime: real, now: real)
      modifies this
      ensures entries == [Entry(Key(query), query, result, now, processingTime)] + old(entries)
      ensures entries == Replay(old(entries), [Entry(Key(query), query, result, now, processingTime)])
      ensures |entries| == |old(entries)| + 1
    {
      entries := [Entry(Key(query), query, result, now, processingTime)] + entries;
    }
  }

  /** Round trip on the class itself: a `set_cache` followed by `get_cache` of the same query returns what was stored. */
  method SetThenGet(c: ResponseCache, query: string, result: string, processingTime: real, now: real)
    returns (got: Option<string>, hit: bool, timeSaved: real)
    modifies c
    ensures got == Some(result) && hit && timeSaved == processingTime
    ensures |c.entries| == |old(c.entries)| + 1
  {
    c.Set(query, result, processingTime, now);
    assert c.entries[0].key == Key(query);
    got, hit, timeSaved := c.Get(query);
  }
}
