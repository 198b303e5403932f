// pkg/vault/client.go: the secret cache of one client, used by a single thread.
// The API server is the field `store`; clock readings are parameters.
module VaultCache {
  import opened Wrappers

  datatype Json = Object(fields: map<string, Json>) | Time(t: int) | Int(n: int) | Text(s: string)

  // What the API holds at a path.
  type Raw = map<string, Json>

  // Absent type assertions leave Go's zero values.
  datatype SecretMetadata = SecretMetadata(createdTime: int, version: int)

  datatype SecretData = SecretData(data: map<string, Json>, metadata: Option<SecretMetadata>)

  datatype CacheEntry = CacheEntry(data: SecretData, expiresAt: int)

  type Cache = map<string, CacheEntry>

  datatype Error = NotInitialized | ReadFailed | WriteFailed | NotFound

  // The view of a stored object: a KV v2 envelope is unwrapped.
  function Decode(raw: Raw): SecretData {
    var data := if "data" in raw && raw["data"].Object? then raw["data"].fields else raw;
    var metadata :=
      if "metadata" in raw && raw["metadata"].Object? then
        var m := raw["metadata"].fields;
        Some(SecretMetadata(
               if "created_time" in m && m["created_time"].Time? then m["created_time"].t else 0,
               if "version" in m && m["version"].Int? then m["version"].n else 0))
      else None;
    SecretData(data, metadata)
  }

  // What is read where: the payload under "data" if that is an object, else all of it; the metadata if
  // that is an object, with the zero value for a creation time or version that is absent or of another type.
  lemma DecodeReads(raw: Raw, fields: map<string, Json>, m: map<string, Json>, t: int, n: int)
    ensures "data" in raw && raw["data"] == Object(fields) ==> Decode(raw).data == fields
    ensures "data" !in raw || !raw["data"].Object? ==> Decode(raw).data == raw
    ensures "metadata" !in raw || !raw["metadata"].Object? ==> Decode(raw).metadata == None
    ensures "metadata" in raw && raw["metadata"] == Object(m) ==>
      && Decode(raw).metadata.Some?
      && var read := Decode(raw).metadata.value;
         && ("created_time" in m && m["created_time"] == Time(t) ==> read.createdTime == t)
         && ("created_time" !in m || !m["created_time"].Time? ==> read.createdTime == 0)
         && ("version" in m && m["version"] == Int(n) ==> read.version == n)
         && ("version" !in m || !m["version"].Int? ==> read.version == 0)
  {
  }

  // PutSecret wraps its argument in the KV v2 envelope, to which the server adds metadata of its own.
  function Stored(data: map<string, Json>, metadata: Option<Json>): (raw: Raw)
    ensures Decode(raw).data == data
    ensures Decode(raw).metadata.Some? <==> metadata.Some? && metadata.value.Object?
  {
    var envelope: Raw := map["data" := Object(data)];
    if metadata.Some? then envelope["metadata" := metadata.value] else envelope
  }

  // ---- The critical sections on the cache map ----

  function Lookup(cache: Cache, path: string, now: int): Option<SecretData> {
    if path !in cache || now > cache[path].expiresAt then None else Some(cache[path].data)
  }

  function Filled(cache: Cache, path: string, data: SecretData, now: int, ttl: int): Cache {
    cache[path := CacheEntry(data, now + ttl)]
  }

  function Invalidated(cache: Cache, path: string): Cache {
    cache - {path}
  }

  // A change to the cache: a fill, an invalidation, or the clearing by Close.
  datatype Change = FillOf(path: string, data: SecretData, time: int) | DropOf(path: string) | Clear

  function Changed(cache: Cache, change: Change, ttl: int): Cache {
    match change
    case FillOf(path, data, time) => Filled(cache, path, data, time, ttl)
    case DropOf(path) => Invalidated(cache, path)
    case Clear => map[]
  }

  function Replayed(changes: seq<Change>, ttl: int): Cache {
    if changes == [] then map[] else Changed(Replayed(changes[..|changes| - 1], ttl), changes[|changes| - 1], ttl)
  }

  predicate Touches(change: Change, path: string) {
    change.Clear? || change.path == path
  }

  // After any changes a lookup finds exactly what the last change to its path filled in, for a TTL.
  lemma {:induction false} LookupRemembers(changes: seq<Change>, path: string, now: int, ttl: int, data: SecretData)
    ensures Lookup(Replayed(changes, ttl), path, now) == Some(data) <==>
      exists i | 0 <= i < |changes| ::
        && changes[i].FillOf? && changes[i].path == path && changes[i].data == data && now <= changes[i].time + ttl
        && forall j | i < j < |changes| :: !Touches(changes[j], path)
  {
    if changes != [] {
      var n := |changes| - 1;
      LookupRemembers(changes[..n], path, now, ttl, data);
      assert forall i | 0 <= i < n :: changes[..n][i] == changes[i];
    }
  }

  // Every entry, expired or not, is the view of what the store holds now.
  ghost predicate Coherent(cache: Cache, store: map<string, Raw>) {
    forall p | p in cache :: p in store && cache[p].data == Decode(store[p])
  }

  class Client {
    const enableCache: bool
    const ttl: int
    const hasRenewer: bool
    const hasTicker: bool
    var cache: Cache
    var closed: bool
    var renewStopCloses: nat
    var healthStopCloses: nat
    var store: map<string, Raw>

    // Single-threaded use keeps the cache coherent, a closed client holds no secret, and
    // each stop channel has been closed exactly as often as Close may close it.
    ghost predicate Valid()
      reads this
    {
      && Coherent(cache, store)
      && (closed ==> cache == map[])
      && (!enableCache ==> cache == map[])
      && renewStopCloses == (if closed && hasRenewer then 1 else 0)
      && healthStopCloses == (if closed && hasTicker then 1 else 0)
    }

    constructor (enableCache: bool, ttl: int, hasRenewer: bool, hasTicker: bool, store: map<string, Raw>)
      ensures Valid() && !closed && cache == map[] && this.store == store
      ensures this.enableCache == enableCache && this.ttl == ttl
      ensures this.hasRenewer == hasRenewer && this.hasTicker == hasTicker
    {
      this.enableCache, this.ttl, this.hasRenewer, this.hasTicker := enableCache, ttl, hasRenewer, hasTicker;
      this.store, this.cache, this.closed := store, map[], false;
      this.renewStopCloses, this.healthStopCloses := 0, 0;
    }

    method GetCachedSecret(path: string, now: int) returns (r: Option<SecretData>)
      ensures r == Lookup(cache, path, now)
    {
      if path !in cache || now > cache[path].expiresAt {
        return None;
      }
      r := Some(cache[path].data);
    }

    method SetCachedSecret(path: string, data: SecretData, now: int)
      modifies this`cache
      ensures cache == Filled(old(cache), path, data, now, ttl)
    {
      cache := cache[path := CacheEntry(data, now + ttl)];
    }

    method InvalidateCachedSecret(path: string)
      modifies this`cache
      ensures cache == Invalidated(old(cache), path)
    {
      cache := cache - {path};
    }

    // Caching is invisible: the answer is the store's, and can differ from an uncached
    // client's only by hiding that the server is unreachable.
    method GetSecret(path: string, lookupTime: int, serverUp: bool, fillTime: int)
      returns (r: Result<SecretData, Error>)
      requires Valid()
      modifies this`cache
      ensures Valid()
      ensures closed ==> r == Failure(NotInitialized)
      ensures !closed && serverUp ==>
        r == if path in store then Success(Decode(store[path])) else Failure(NotFound)
      ensures !closed && !serverUp ==>
        r == if Lookup(old(cache), path, lookupTime).Some? then Success(Decode(store[path])) else Failure(ReadFailed)
      ensures cache ==
        if enableCache && Lookup(old(cache), path, lookupTime).None? && r.Success?
        then Filled(old(cache), path, r.value, fillTime, ttl) else old(cache)
    {
      if enableCache {
        var hit := GetCachedSecret(path, lookupTime);
        if hit.Some? {
          return Success(hit.value);
        }
      }
      if closed {
        return Failure(NotInitialized);
      }
      if !serverUp {
        return Failure(ReadFailed);
      }
      if path !in store {
        return Failure(NotFound);
      }
      var secretData := Decode(store[path]);
      if enableCache {
        SetCachedSecret(path, secretData, fillTime);
      }
      r := Success(secretData);
    }

    // `metadata` is what the server attaches, if anything.
    method PutSecret(path: string, data: map<string, Json>, metadata: Option<Json>, serverUp: bool)
      returns (r: Option<Error>)
      requires Valid()
      modifies this`cache, this`store
      ensures Valid()
      ensures r == if closed then Some(NotInitialized) else if serverUp then None else Some(WriteFailed)
      ensures r.Some? ==> cache == old(cache) && store == old(store)
      ensures r.None? ==> path in store && store[path] == Stored(data, metadata) && Decode(store[path]).data == data
      ensures r.None? ==> store - {path} == old(store) - {path} && cache == old(cache) - {path}
    {
      if closed {
        return Some(NotInitialized);
      }
      if !serverUp {
        return Some(WriteFailed);
      }
      store := store[path := Stored(data, metadata)];
      if enableCache {
        InvalidateCachedSecret(path);
      }
      r := None;
    }

    method DeleteSecret(path: string, serverUp: bool) returns (r: Option<Error>)
      requires Valid()
      modifies this`cache, this`store
      ensures Valid()
      ensures r == if closed then Some(NotInitialized) else if serverUp then None else Some(WriteFailed)
      ensures r.Some? ==> cache == old(cache) && store == old(store)
      ensures r.None? ==> store == old(store) - {path} && cache == old(cache) - {path}
    {
      if closed {
        return Some(NotInitialized);
      }
      if !serverUp {
        return Some(WriteFailed);
      }
      store := store - {path};
      if enableCache {
        InvalidateCachedSecret(path);
      }
      r := None;
    }

    // Any number of calls closes each stop channel at most once.
    method Close()
      requires Valid()
      modifies this`cache, this`closed, this`renewStopCloses, this`healthStopCloses
      ensures Valid() && closed && cache == map[]
      ensures renewStopCloses <= 1 && healthStopCloses <= 1
    {
      if closed {
        return;
      }
      closed := true;
      if hasRenewer {
        renewStopCloses := renewStopCloses + 1;
      }
      if hasTicker {
        healthStopCloses := healthStopCloses + 1;
      }
      cache := map[];
    }
  }
}
