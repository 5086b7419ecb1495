/** The account cache in front of the RPC node. */
module RpcCache {
  import opened Numbers
  import opened Quoting

  /** Opaque account contents. */
  type Data = nat

  /** What the node answers for each key, the same at every call that gets through. */
  type Node = Key -> Option<Data>

  /** Known accounts, and accounts known to be missing. */
  type Entries = map<Key, Option<Data>>

  datatype Reply = Single(account: Option<Data>) | Several(accounts: seq<Option<Data>>) | Cleared | FailedToFetch

  datatype Call = GetAccount(key: Key) | GetAccounts(keys: seq<Key>) | ResetCache

  // ------------------------------------------------------------------------------------
  // Replies and effects
  // ------------------------------------------------------------------------------------

  /** `get_multiple`: an account cached as missing reads like one not cached. */
  function Cached(cache: Entries, key: Key): Option<Data> {
    if key in cache then cache[key] else None
  }

  function Misses(cache: Entries, keys: seq<Key>): seq<Key> {
    if keys == [] then []
    else if Cached(cache, keys[0]).Some? then Misses(cache, keys[1..])
    else [keys[0]] + Misses(cache, keys[1..])
  }

  /** The cached account, or else the node's answer. */
  function Answer(node: Node, cache: Entries, key: Key): Option<Data> {
    if Cached(cache, key).Some? then Cached(cache, key) else node(key)
  }

  /** The reply to a call; `up` tells whether the node is reached, if it is asked at all. */
  function ReplyTo(node: Node, cache: Entries, call: Call, up: bool): Reply {
    match call
    case GetAccount(key) =>
      if key in cache then Single(cache[key])
      else if up && node(key).Some? then Single(node(key))
      else FailedToFetch
    case GetAccounts(keys) =>
      if Misses(cache, keys) != [] && !up then FailedToFetch
      else Several(seq(|keys|, i requires 0 <= i < |keys| => Answer(node, cache, keys[i])))
    case ResetCache => Cleared
  }

  /** What one batched request brings back. */
  function Fetched(node: Node, keys: seq<Key>): Entries {
    map k | k in keys :: node(k)
  }

  /** The cache after a call. */
  function After(node: Node, cache: Entries, call: Call, up: bool): Entries {
    match call
    case GetAccount(key) =>
      if key !in cache && up && node(key).Some? then cache[key := node(key)] else cache
    case GetAccounts(keys) =>
      if up then cache + Fetched(node, Misses(cache, keys)) else cache
    case ResetCache => map[]
  }

  /** The replies to a run of calls. */
  function Replies(node: Node, cache: Entries, calls: seq<(Call, bool)>): (r: seq<Reply>)
    ensures |r| == |calls|
    decreases |calls|
  {
    if calls == [] then []
    else [ReplyTo(node, cache, calls[0].0, calls[0].1)]
         + Replies(node, After(node, cache, calls[0].0, calls[0].1), calls[1..])
  }

  // ------------------------------------------------------------------------------------
  // Transparency
  // ------------------------------------------------------------------------------------

  /** Every entry is what the node answers. */
  ghost predicate Consistent(node: Node, cache: Entries) {
    forall k :: k in cache ==> cache[k] == node(k)
  }

  /** The reply is the node's own answer, key by key. */
  ghost predicate IsDirect(node: Node, call: Call, reply: Reply) {
    match call
    case GetAccount(key) => reply == Single(node(key))
    case GetAccounts(keys) =>
      && reply.Several? && |reply.accounts| == |keys|
      && forall i :: 0 <= i < |keys| ==> reply.accounts[i] == node(keys[i])
    case ResetCache => reply == Cleared
  }

  /** Over any run of calls, through failures, resets, duplicate keys and accounts cached as
      missing, every reply that is not a failure is the node's own answer. */
  lemma {:induction false} RunIsTransparent(node: Node, cache: Entries, calls: seq<(Call, bool)>)
    requires Consistent(node, cache)
    ensures forall i :: 0 <= i < |calls| ==>
              var reply := Replies(node, cache, calls)[i];
              reply == FailedToFetch || IsDirect(node, calls[i].0, reply)
    decreases |calls|
  {
    if calls != [] {
      var (call, up) := calls[0];
      var cache' := After(node, cache, call, up);
      assert Consistent(node, cache');
      RunIsTransparent(node, cache', calls[1..]);
      var reply := ReplyTo(node, cache, call, up);
      assert reply == FailedToFetch || IsDirect(node, call, reply);
      forall i | 0 < i < |calls|
        ensures Replies(node, cache, calls)[i] == Replies(node, cache', calls[1..])[i - 1]
        ensures calls[i] == calls[1..][i - 1]
      {
      }
    }
  }

  lemma {:induction false} MissesAre(cache: Entries, keys: seq<Key>)
    ensures forall k :: k in Misses(cache, keys) <==> k in keys && Cached(cache, k).None?
  {
    if keys != [] {
      MissesAre(cache, keys[1..]);
      assert forall k :: k in keys <==> k == keys[0] || k in keys[1..];
    }
  }

  /** A batch fails exactly when the node is down and some key has no account in the cache. */
  lemma BatchFailsIff(node: Node, cache: Entries, keys: seq<Key>, up: bool)
    ensures ReplyTo(node, cache, GetAccounts(keys), up) == FailedToFetch <==>
            !up && exists k :: k in keys && Cached(cache, k).None?
  {
    MissesAre(cache, keys);
    if Misses(cache, keys) != [] {
      assert Misses(cache, keys)[0] in Misses(cache, keys);
    }
  }

  // ------------------------------------------------------------------------------------
  // What the cache remembers
  // ------------------------------------------------------------------------------------

  /** A call that brings a key in: a single fetch that reaches the node and finds an account, or
      a batch that reaches it, whether it finds one or not. */
  predicate BringsIn(node: Node, call: (Call, bool), key: Key) {
    match call.0
    case GetAccount(k) => k == key && call.1 && node(key).Some?
    case GetAccounts(keys) => key in keys && call.1
    case ResetCache => false
  }

  ghost predicate ResetBetween(calls: seq<(Call, bool)>, low: nat, high: nat)
    requires high <= |calls|
  {
    exists j: nat :: low <= j < high && calls[j].0.ResetCache?
  }

  /** Before call i, some earlier call has brought the key in and no reset has come after it. */
  ghost predicate Known(node: Node, calls: seq<(Call, bool)>, i: nat, key: Key)
    requires i <= |calls|
  {
    exists j: nat :: j < i && BringsIn(node, calls[j], key) && !ResetBetween(calls, j + 1, i)
  }

  /** The reply to call i of a run that starts with nothing cached, from the calls before it. */
  ghost predicate IsRemembered(node: Node, calls: seq<(Call, bool)>, i: nat, reply: Reply)
    requires i < |calls|
  {
    match calls[i].0
    case GetAccount(key) =>
      reply == if Known(node, calls, i, key) || (calls[i].1 && node(key).Some?) then Single(node(key))
               else FailedToFetch
    case GetAccounts(keys) =>
      if !calls[i].1 && exists k :: k in keys && !(Known(node, calls, i, k) && node(k).Some?)
      then reply == FailedToFetch
      else IsDirect(node, calls[i].0, reply)
    case ResetCache => reply == Cleared
  }

  /** The cache call i of a run meets. */
  ghost function CacheBefore(node: Node, cache: Entries, calls: seq<(Call, bool)>, i: nat): Entries
    requires i <= |calls|
  {
    if i == 0 then cache
    else After(node, CacheBefore(node, cache, calls, i - 1), calls[i - 1].0, calls[i - 1].1)
  }

  lemma {:induction false} CacheBeforeRest(node: Node, cache: Entries, calls: seq<(Call, bool)>, i: nat)
    requires 0 < i <= |calls|
    ensures CacheBefore(node, cache, calls, i)
         == CacheBefore(node, After(node, cache, calls[0].0, calls[0].1), calls[1..], i - 1)
  {
    hide After;
    if i == 1 {
      assert CacheBefore(node, cache, calls, 0) == cache;
    } else {
      CacheBeforeRest(node, cache, calls, i - 1);
      assert calls[1..][i - 2] == calls[i - 1];
    }
  }

  /** Each reply is the one to the cache the call meets. */
  lemma {:induction false} ReplyMeetsCache(node: Node, cache: Entries, calls: seq<(Call, bool)>, i: nat)
    requires i < |calls|
    ensures Replies(node, cache, calls)[i] == ReplyTo(node, CacheBefore(node, cache, calls, i), calls[i].0, calls[i].1)
    decreases |calls|
  {
    hide After, ReplyTo;
    if i > 0 {
      var cache' := After(node, cache, calls[0].0, calls[0].1);
      ReplyMeetsCache(node, cache', calls[1..], i - 1);
      CacheBeforeRest(node, cache, calls, i);
      assert Replies(node, cache, calls)[i] == Replies(node, cache', calls[1..])[i - 1];
    }
  }

  lemma NoResetBrings(node: Node, call: (Call, bool), key: Key)
    ensures BringsIn(node, call, key) ==> !call.0.ResetCache?
  {
  }

  lemma KnownAfter(node: Node, calls: seq<(Call, bool)>, i: nat, key: Key)
    requires i < |calls|
    ensures Known(node, calls, i + 1, key) <==>
            !calls[i].0.ResetCache? && (Known(node, calls, i, key) || BringsIn(node, calls[i], key))
  {
    hide BringsIn;
    forall low: nat | low <= i
      ensures ResetBetween(calls, low, i + 1) <==> ResetBetween(calls, low, i) || calls[i].0.ResetCache?
    {
    }
    assert !ResetBetween(calls, i + 1, i + 1);
    assert BringsIn(node, calls[i], key) ==> !calls[i].0.ResetCache? by { NoResetBrings(node, calls[i], key); }
  }

  /** The cache holds exactly the known keys, each with the node's answer. */
  lemma {:induction false} CacheHoldsKnown(node: Node, calls: seq<(Call, bool)>, i: nat)
    requires i <= |calls|
    ensures forall key :: key in CacheBefore(node, map[], calls, i) <==> Known(node, calls, i, key)
    ensures Consistent(node, CacheBefore(node, map[], calls, i))
  {
    if i > 0 {
      CacheHoldsKnown(node, calls, i - 1);
      var cache := CacheBefore(node, map[], calls, i - 1);
      var (call, up) := calls[i - 1];
      forall key
        ensures key in After(node, cache, call, up) <==> Known(node, calls, i, key)
      {
        KnownAfter(node, calls, i - 1, key);
        if call.GetAccounts? {
          MissesAre(cache, call.keys);
        }
      }
    }
  }

  /** Over any run that starts with nothing cached, every reply is determined by the calls since
      the last reset: a single lookup fails exactly when none of them brought its key in and the
      node is down or has no such account; a batch fails exactly when the node is down and none
      of them brought in an account for one of its keys; and nothing else fails. */
  lemma RunRemembers(node: Node, calls: seq<(Call, bool)>)
    ensures forall i :: 0 <= i < |calls| ==> IsRemembered(node, calls, i, Replies(node, map[], calls)[i])
  {
    forall i | 0 <= i < |calls|
      ensures IsRemembered(node, calls, i, Replies(node, map[], calls)[i])
    {
      CacheHoldsKnown(node, calls, i);
      ReplyMeetsCache(node, map[], calls, i);
      var cache := CacheBefore(node, map[], calls, i);
      hide Known;
      if calls[i].0.GetAccounts? {
        BatchFailsIff(node, cache, calls[i].0.keys, calls[i].1);
      }
    }
  }

  // ------------------------------------------------------------------------------------
  // The cache in place
  // ------------------------------------------------------------------------------------

  lemma {:induction false} MissesAppend(cache: Entries, keys: seq<Key>, key: Key)
    ensures Misses(cache, keys + [key])
         == Misses(cache, keys) + if Cached(cache, key).Some? then [] else [key]
  {
    if keys == [] {
      assert [key][1..] == [];
    } else {
      assert (keys + [key])[1..] == keys[1..] + [key];
      MissesAppend(cache, keys[1..], key);
    }
  }

  lemma FetchedAppend(node: Node, keys: seq<Key>, key: Key)
    ensures forall m: Entries :: m + Fetched(node, keys + [key]) == (m + Fetched(node, keys))[key := node(key)]
  {
    assert Fetched(node, keys + [key]) == Fetched(node, keys)[key := node(key)];
  }

  class RpcClientCache {
    const node: Node
    var cache: Entries

    constructor (node: Node)
      ensures this.node == node && cache == map[]
    {
      this.node := node;
      cache := map[];
    }

    method ResetCache()
      modifies this
      ensures cache == After(node, old(cache), Call.ResetCache, true)
    {
      cache := map[];
    }

    method GetMultiple(keys: seq<Key>) returns (result: seq<Option<Data>>)
      ensures |result| == |keys|
      ensures forall i :: 0 <= i < |keys| ==> result[i] == Cached(cache, keys[i])
    {
      result := [];
      for i := 0 to |keys|
        invariant |result| == i
        invariant forall j :: 0 <= j < i ==> result[j] == Cached(cache, keys[j])
      {
        if keys[i] in cache {
          result := result + [cache[keys[i]]];
        } else {
          result := result + [None];
        }
      }
    }

    method GetAccount(key: Key, up: bool) returns (r: Reply)
      modifies this
      ensures r == ReplyTo(node, old(cache), Call.GetAccount(key), up)
      ensures cache == After(node, old(cache), Call.GetAccount(key), up)
    {
      if key in cache {
        return Single(cache[key]);
      }
      if !up || node(key).None? {
        return FailedToFetch;
      }
      cache := cache[key := node(key)];
      return Single(node(key));
    }

    /** The cached accounts among the keys, and the other keys in order. */
    method SplitHits(keys: seq<Key>) returns (found: Entries, missing: seq<Key>)
      ensures missing == Misses(cache, keys)
      ensures forall k :: k in found <==> k in keys && Cached(cache, k).Some?
      ensures forall k :: k in found ==> found[k] == Cached(cache, k)
    {
      found, missing := map[], [];
      var cachedResults := GetMultiple(keys);
      for i := 0 to |keys|
        invariant missing == Misses(cache, keys[..i])
        invariant forall k :: k in found <==> k in keys[..i] && Cached(cache, k).Some?
        invariant forall k :: k in found ==> found[k] == Cached(cache, k)
      {
        assert keys[..i + 1] == keys[..i] + [keys[i]];
        MissesAppend(cache, keys[..i], keys[i]);
        if cachedResults[i].Some? {
          found := found[keys[i] := cachedResults[i]];
        } else {
          missing := missing + [keys[i]];
        }
      }
      assert keys[..|keys|] == keys;
    }

    /** Stores the node's answers for the missing keys in the cache and among the results. */
    method Store(missing: seq<Key>, hits: Entries) returns (found: Entries)
      modifies this
      ensures found == hits + Fetched(node, missing)
      ensures cache == old(cache) + Fetched(node, missing)
    {
      found := hits;
      for i := 0 to |missing|
        invariant found == hits + Fetched(node, missing[..i])
        invariant cache == old(cache) + Fetched(node, missing[..i])
      {
        assert missing[..i + 1] == missing[..i] + [missing[i]];
        FetchedAppend(node, missing[..i], missing[i]);
        found := found[missing[i] := node(missing[i])];
        cache := cache[missing[i] := node(missing[i])];
      }
      assert missing[..|missing|] == missing;
    }

    /** Splits the keys into hits and misses, fetches the misses in one call, and reassembles
        the answers in the order of the keys; every key is found. */
    method GetAccounts(keys: seq<Key>, up: bool) returns (r: Reply)
      modifies this
      ensures r == ReplyTo(node, old(cache), Call.GetAccounts(keys), up)
      ensures cache == After(node, old(cache), Call.GetAccounts(keys), up)
    {
      ghost var before := cache;
      var found, missing := SplitHits(keys);
      MissesAre(before, keys);
      if missing != [] {
        if !up {
          return FailedToFetch;
        }
        found := Store(missing, found);
      }
      assert forall k :: k in keys ==> k in found && found[k] == Answer(node, before, k);
      assert missing == [] ==> before + Fetched(node, missing) == before;
      hide Answer, Misses;
      var result := Reassemble(keys, found);
      assert result == seq(|keys|, i requires 0 <= i < |keys| => Answer(node, before, keys[i]));
      return Several(result);
    }

    method Reassemble(keys: seq<Key>, found: Entries) returns (result: seq<Option<Data>>)
      requires forall k :: k in keys ==> k in found
      ensures |result| == |keys| && forall i :: 0 <= i < |keys| ==> result[i] == found[keys[i]]
    {
      result := [];
      for i := 0 to |keys|
        invariant |result| == i && forall j :: 0 <= j < i ==> result[j] == found[keys[j]]
      {
        result := result + [found[keys[i]]];
      }
    }
  }
}
