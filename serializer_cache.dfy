/**
 * `CachingXmlSerializerFactory`: serializers built with a custom root or with
 * attribute overrides are cached in a dictionary keyed by the serialized type,
 * filled on the first request for a type and never cleared, so that the
 * serialization assemblies generated for them are not generated again.
 *
 * The dictionary is the static `_cache` field; here it is the `cache` field of a
 * `SerializerFactory` object standing for the static class, and requests are
 * sequential.
 */
module SerializerCaches {
  /** A type to serialize, known by its full name. */
  datatype ClrType = ClrType(fullName: string)

  /** What a serializer was built with besides its type: nothing, an `XmlRootAttribute`, or `XmlAttributeOverrides`. */
  datatype Customization = NoCustomization | Root(elementName: string) | Overrides(overridesId: nat)

  /** A generated serializer; two serializers are the same only when they are the same object. */
  class XmlSerializer {
    const forType: ClrType
    const customization: Customization

    constructor (forType: ClrType, customization: Customization)
      ensures this.forType == forType && this.customization == customization
    {
      this.forType := forType;
      this.customization := customization;
    }
  }

  /**
   * One cached request for key `k` whose factory would build `v`: the cache
   * afterwards, and the value served. A cached key is served from the cache and
   * the factory is not used; a missing key is served `v`, which is stored.
   */
  function Serve<K(==), V>(cache: map<K, V>, k: K, v: V): (map<K, V>, V) {
    if k in cache then (cache, cache[k]) else (cache[k := v], v)
  }

  /** The cache after a run of requests, each a key and what its factory would build. */
  function ServeAll<K(==), V>(cache: map<K, V>, requests: seq<(K, V)>): (r: map<K, V>)
    decreases |requests|
  {
    if requests == [] then cache
    else ServeAll(Serve(cache, requests[0].0, requests[0].1).0, requests[1..])
  }

  /** Some request is for key `k`. */
  ghost predicate Requested<K, V>(requests: seq<(K, V)>, k: K) {
    exists j :: 0 <= j < |requests| && requests[j].0 == k
  }

  /** The index of the first request for `k`. */
  function FirstRequest<K(==), V>(requests: seq<(K, V)>, k: K): (i: nat)
    requires exists j :: 0 <= j < |requests| && requests[j].0 == k
    ensures i < |requests| && requests[i].0 == k
    ensures forall j :: 0 <= j < i ==> requests[j].0 != k
    decreases |requests|
  {
    if requests[0].0 == k then 0
    else
      assert exists j :: 0 <= j < |requests[1..]| && requests[1..][j].0 == k by {
        var j :| 0 <= j < |requests| && requests[j].0 == k;
        assert requests[1..][j - 1] == requests[j];
      }
      1 + FirstRequest(requests[1..], k)
  }

  /** A request on a cached key serves the cached value and leaves the cache as it was. */
  lemma {:induction false} HitServesCached<K, V>(cache: map<K, V>, k: K, v: V)
    requires k in cache
    ensures Serve(cache, k, v) == (cache, cache[k])
  {
  }

  /** A request on a missing key serves what its factory builds, and stores it under the key, and nothing else changes. */
  lemma {:induction false} MissStoresBuilt<K, V>(cache: map<K, V>, k: K, v: V)
    requires k !in cache
    ensures Serve(cache, k, v).1 == v
    ensures Serve(cache, k, v).0.Keys == cache.Keys + {k} && Serve(cache, k, v).0[k] == v
    ensures forall j :: j in cache ==> Serve(cache, k, v).0[j] == cache[j]
  {
  }

  /** The cache is keyed by the type only: a second request for a key is served what the first one stored, whatever its own factory builds. */
  lemma {:induction false} SecondRequestServedFirst<K, V>(cache: map<K, V>, k: K, v1: V, v2: V)
    ensures var (after, first) := Serve(cache, k, v1);
      Serve(after, k, v2) == (after, first)
  {
  }

  /** Requests only add entries: every entry already cached is still there, unchanged. */
  lemma {:induction false} OnlyGrows<K, V>(cache: map<K, V>, requests: seq<(K, V)>)
    ensures forall k :: k in cache ==> k in ServeAll(cache, requests) && ServeAll(cache, requests)[k] == cache[k]
    decreases |requests|
  {
    if requests != [] {
      OnlyGrows(Serve(cache, requests[0].0, requests[0].1).0, requests[1..]);
    }
  }

  /** Exactly the keys already cached or requested are cached afterwards. */
  lemma {:induction false} CachedKeys<K, V>(cache: map<K, V>, requests: seq<(K, V)>)
    ensures forall k :: k in ServeAll(cache, requests) <==> k in cache || Requested(requests, k)
    decreases |requests|
  {
    if requests != [] {
      var next := Serve(cache, requests[0].0, requests[0].1).0;
      CachedKeys(next, requests[1..]);
      forall k
        ensures Requested(requests, k) <==> k == requests[0].0 || Requested(requests[1..], k)
      {
        if Requested(requests, k) {
          var j :| 0 <= j < |requests| && requests[j].0 == k;
          if j > 0 {
            assert requests[1..][j - 1] == requests[j];
          }
        }
        if Requested(requests[1..], k) {
          var j :| 0 <= j < |requests[1..]| && requests[1..][j].0 == k;
          assert requests[j + 1] == requests[1..][j];
        }
      }
    }
  }

  /** A type that was not cached ends up with what the factory of its first request built; later factories are ignored. */
  lemma {:induction false} FirstRequestWins<K, V>(cache: map<K, V>, requests: seq<(K, V)>, k: K)
    requires k !in cache
    requires Requested(requests, k)
    ensures k in ServeAll(cache, requests)
    ensures ServeAll(cache, requests)[k] == requests[FirstRequest(requests, k)].1
    decreases |requests|
  {
    var next := Serve(cache, requests[0].0, requests[0].1).0;
    if requests[0].0 == k {
      OnlyGrows(next, requests[1..]);
    } else {
      FirstRequestWins(next, requests[1..], k);
      assert requests[1..][FirstRequest(requests[1..], k)] == requests[FirstRequest(requests, k)];
    }
  }

  /** The value served to each request is what the cache holds for its key at the end: repeated requests share one instance. */
  lemma {:induction false} ServedIsFinal<K, V>(cache: map<K, V>, requests: seq<(K, V)>, i: nat)
    requires i < |requests|
    ensures var before := ServeAll(cache, requests[..i]);
      var final := ServeAll(cache, requests);
      requests[i].0 in final && Serve(before, requests[i].0, requests[i].1).1 == final[requests[i].0]
    decreases i
  {
    var next := Serve(cache, requests[0].0, requests[0].1).0;
    if i == 0 {
      OnlyGrows(next, requests[1..]);
    } else {
      ServedIsFinal(next, requests[1..], i - 1);
      assert requests[1..][..i - 1] == requests[..i][1..];
      assert requests[..i][0] == requests[0];
    }
  }

  class SerializerFactory {
    /** The `_cache` dictionary. */
    var cache: map<ClrType, XmlSerializer>

    /** Every cached serializer was built for the type it is cached under. */
    ghost predicate Valid()
      reads this
    {
      forall t :: t in cache ==> cache[t].forType == t
    }

    constructor ()
      ensures Valid() && cache == map[]
    {
      cache := map[];
    }

    /** `Create(Type)`: a new serializer each time; the cache is not involved. */
    static method Create(t: ClrType) returns (s: XmlSerializer)
      ensures fresh(s) && s.forType == t && s.customization == NoCustomization
    {
      s := new XmlSerializer(t, NoCustomization);
    }

    /** `Create(Type, XmlRootAttribute)`. */
    method CreateWithRoot(t: ClrType, elementName: string) returns (s: XmlSerializer)
      requires Valid()
      modifies this
      ensures Valid() && s.forType == t
      ensures (cache, s) == Serve(old(cache), t, s)
      ensures t !in old(cache) ==> fresh(s) && s.customization == Root(elementName)
    {
      s := CachedCreate(t, Root(elementName));
    }

    /** `Create(Type, XmlAttributeOverrides)`. */
    method CreateWithOverrides(t: ClrType, overridesId: nat) returns (s: XmlSerializer)
      requires Valid()
      modifies this
      ensures Valid() && s.forType == t
      ensures (cache, s) == Serve(old(cache), t, s)
      ensures t !in old(cache) ==> fresh(s) && s.customization == Overrides(overridesId)
    {
      s := CachedCreate(t, Overrides(overridesId));
    }

    /**
     * `CachedCreate`: a cached type is served its cached serializer and nothing
     * is built; otherwise the factory builds one serializer, which is cached
     * under the type and served.
     */
    method CachedCreate(t: ClrType, customization: Customization) returns (s: XmlSerializer)
      requires Valid()
      modifies this
      ensures Valid() && s.forType == t
      ensures (cache, s) == Serve(old(cache), t, s)
      ensures t in old(cache) ==> s == old(cache)[t]
      ensures t !in old(cache) ==> fresh(s) && s.customization == customization
    {
      if t in cache {
        s := cache[t];
      } else {
        s := new XmlSerializer(t, customization);
        cache := cache[t := s];
      }
    }
  }
}
